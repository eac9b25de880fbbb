# Drone quiz session, modelled in Dafny

The application is a single-page multiple-choice quiz. Its only logic is in the
`Home` component of `app/page.tsx`, which has two parts:

- **`shuffleArray`** is an in-place Fisher–Yates shuffle. It is applied to a
  fresh copy of the question bank `quizData` when the page mounts and on every
  restart.
- **The session state** has five pieces: `questions`, `currentQuestion`,
  `selectedAnswer`, `showExplanation` and `quizCompleted`. Four handlers change
  it:
  - `handleAnswer`
  - `handleSubmit`
  - `handleNext`
  - `handleRestart`

  The page derives three things from the state: which screen is shown, a
  correct/incorrect verdict, and the enabled condition of the Submit and Next
  buttons.

The project has two modules:

- `shuffle.dfy`, module `Shuffle`:
  - `ShuffleArray` is the loop, on an `array`.
  - It is proved against `ShuffleFrom`/`Shuffled`, which describe the same
    computation on a sequence.
  - The random source is a parameter `js`: the indices the loop draws, one
    per iteration, each in [0, i] for its iteration (`Fits`).
  - `Draw` is `Math.floor(r * (i + 1))` for a value `r` of `Math.random()`
    in [0, 1). `Choices` turns a sequence of such values into the indices
    `js`, and `ChoicesFor` shows that every valid `js` arises this way.
  - `CopyShuffled` is `shuffleArray([...quizData])`.
- `quiz.dfy`, module `Quiz`:
  - `QuizState` is the value of the five state hooks.
  - `Answered`, `Submitted`, `Advanced` and `Restarted` say what each handler
    does to it.
  - The class `Home` holds the same state in fields, with the bank as a
    `const` array. Its handler methods are proved against those functions and
    keep `Valid()`.
  - `CanSubmit` and `CanNext` are the two button guards. `Render` is the screen selection, the verdict and those guards.
  - `Round`/`Play` describe a player who answers and then presses whichever
    buttons are enabled.

The model follows the code as written; none of these calls is rejected with an error:

- `handleSubmit` with nothing selected silently does nothing.
- `handleNext` does not check `showExplanation`; only the Next button's
  `disabled` condition does.
- `handleAnswer` is not locked after the answer is revealed or after
  completion, and accepts any number.

## Model

| member | source | states |
|---|---|---|
| `Shuffle.Draw` | app/page.tsx:45 | the index `Math.floor(r * (i + 1))` drawn for any `r` in [0, 1) lies in [0, i], so every swap is in bounds |
| `Shuffle.DrawHits` | app/page.tsx:45 | conversely every index in [0, i] is drawn by some `r` in [0, 1) |
| `Shuffle.Choices` | app/page.tsx:44-45 | the indices the loop draws from any values of `Math.random()` in [0, 1), one per iteration from `length - 1` down to 1, are each in range for their iteration (`Fits`) |
| `Shuffle.ChoicesFor` | app/page.tsx:44-45 | for every index sequence that fits the loop, it returns values in [0, 1) from which the loop draws exactly those indices |
| `Shuffle.EveryChoiceDrawn` | app/page.tsx:44-45 | every index sequence that fits the loop is drawn from some values of `Math.random()` |
| `Shuffle.Swap` | app/page.tsx:46 | the destructuring swap exchanges positions i and j, leaves every other position alone and keeps the multiset of elements |
| `Shuffle.ShuffleFrom` | app/page.tsx:44-47 | the loop from index i down to 1 keeps length and multiset (a permutation) and never touches positions above i |
| `Shuffle.ShuffleStep` | app/page.tsx:44-47 | one iteration at index i > 0 uses the first remaining index, which is in [0, i], swaps it into place and leaves the rest of the loop from i - 1 with the remaining indices |
| `Shuffle.Shuffled` | app/page.tsx:43-49 | with one fitting index per iteration (`length - 1` of them), the whole shuffle yields a permutation of its input |
| `Shuffle.ShuffleArray` | app/page.tsx:43-49 | the in-place loop leaves exactly `Shuffled(old contents, js)` in the array, a permutation of the old contents, and returns the same array |
| `Shuffle.CopyShuffled` | app/page.tsx:60 | shuffling `[...source]` returns a fresh array holding `Shuffled(source, js)` and leaves the source array's contents unchanged |
| `Shuffle.OrderFrom` | app/page.tsx:44-47 | for any reordering that already agrees above index i, it returns indices for the remaining iterations that make the loop produce it |
| `Shuffle.OrderOf` | app/page.tsx:43-49 | for any permutation of the input, it returns fitting indices with which the whole shuffle produces it |
| `Shuffle.EveryOrderReachable` | app/page.tsx:43-49 | every permutation of the input is the result of the shuffle for some values of `Math.random()` in [0, 1): no ordering is out of reach |
| `Quiz.CanSubmit` | app/page.tsx:153 | the negation of the Submit button's `disabled` expression: enabled exactly when an answer is selected and pressing it would reveal the explanation |
| `Quiz.CanNext` | app/page.tsx:160 | the negation of the Next button's `disabled` expression: in a valid state enabled only with a selection, and never at the same time as Submit |
| `Quiz.Answered` | app/page.tsx:63-65 | `handleAnswer` sets the selection to the given index, changes nothing else, and keeps the session invariant |
| `Quiz.Submitted` | app/page.tsx:67-71 | `handleSubmit` shows the explanation iff an answer is selected and then changes nothing else; with no selection the state is unchanged; it changes the state exactly when the Submit button would be enabled; it keeps the invariant `showExplanation ⇒ selectedAnswer != null` |
| `Quiz.Advanced` | app/page.tsx:73-81 | before the last question `handleNext` moves to the next question with selection cleared and explanation hidden; at the last question it only sets `quizCompleted`; completion is never undone; `0 <= currentQuestion < questions.length` and the other invariants are kept |
| `Quiz.Restarted` | app/page.tsx:83-89 | `handleRestart` installs the new order with position 0, no selection, explanation hidden and not completed, a state satisfying the invariant |
| `Quiz.Verdict` | app/page.tsx:138-145 | the verdict is "correct" iff the selection equals `correctAnswer`; when incorrect, it carries the correct option's 1-based number and its text `options[correctAnswer]` |
| `Quiz.Render` | app/page.tsx:91-163 | the completion card is shown iff completed; "Loading" iff not completed and no questions; otherwise the shown question is `questions[currentQuestion]`, which is in bounds, numbered `currentQuestion + 1`; the feedback is present iff the explanation is shown, and it is then `Verdict` of the shown question and the selection (correct iff the selection is the correct answer, otherwise the correct option's number and text); Submit is enabled iff pressing it changes the state; Next is enabled iff the explanation is shown, and so only with a selection; the Next label says "finish" iff pressing Next completes the quiz |
| `Quiz.AnswerThenSubmit` | app/page.tsx:128-145 | choosing option i and submitting shows a verdict that is correct iff i is the current question's correct answer |
| `Quiz.RoundAdvances` | app/page.tsx:151-163 | after choosing an answer, Submit is enabled, and after submitting, Next is enabled, so a round of answer, Submit, Next is answer, `handleSubmit`, `handleNext` and keeps the invariant |
| `Quiz.PlayFrom` | app/page.tsx:63-81 | playing rounds from an open question completes the quiz exactly when every remaining question has had its round, at the last question; before that the player is on the following question with nothing selected or revealed |
| `Quiz.FullPlay` | app/page.tsx:73-89 | from a fresh session over a non-empty bank, the quiz is completed after exactly as many rounds as there are questions and not before |
| `Quiz.PermutationWellFormed` | app/page.tsx:84 | a reordering of a bank whose `correctAnswer`s index their `options` has the same property |
| `Quiz.Home.constructor` | app/page.tsx:53-61 | the initial hook values followed by the mount effect give the state `Restarted(Shuffled(quizData, js))`; the bank is unchanged |
| `Quiz.Home.HandleAnswer` | app/page.tsx:63-65 | the new state is `Answered(old state, index)` and `Valid()` is kept |
| `Quiz.Home.HandleSubmit` | app/page.tsx:67-71 | the new state is `Submitted(old state)` and `Valid()` is kept |
| `Quiz.Home.HandleNext` | app/page.tsx:73-81 | the new state is `Advanced(old state)` and `Valid()` is kept |
| `Quiz.Home.HandleRestart` | app/page.tsx:83-89 | the new state is `Restarted(Shuffled(quizData, js))`. The questions are a permutation of `quizData`, `quizData` itself is unchanged, and `Valid()` is kept |

## Left out

- `Math.random()` is a floating-point foreign call. The shuffle takes the indices it draws as a parameter. `Draw` and `Choices` relate those indices to real values in [0, 1). IEEE rounding of `Math.random() * (i + 1)` is not modelled.
- The uniformity of the shuffle's distribution is a probabilistic claim and is not stated. `Shuffle.EveryOrderReachable` proves only that every ordering can be produced.
- React hook mechanics are not modelled: `useState` batching and the closure values the handlers read. Each handler is one atomic update of the `Home` fields.
- The render between the first paint and the mount effect is not a separate state. In that render `questions` is still empty and "Loading..." is shown, and no button exists. The `Home` constructor goes straight to the state after the effect. React's development-mode double run of the effect is not modelled.
- JSX and everything it draws is left out: CSS classes, `next/image` and the option list. The explanation paragraph (app/page.tsx:146) is left out too; it is shown whenever the feedback is. `Quiz.Render` keeps only what the page decides.
- The components in `components/ui/` (button, card, label and radio group) are class-name and ref-forwarding wrappers with no logic. They are not part of this model.
- The text of the bundled questions (app/page.tsx:17-41) is not modelled. Questions are opaque records whose `correctAnswer` indexes their `options`.
- `parseInt` of the radio value (app/page.tsx:128) is not modelled. `handleAnswer` takes an integer directly.
- The code has no error paths, so none are modelled:
  - submit with no selection is a no-op;
  - next before submit is only prevented by the button;
  - selection is not locked after reveal;
  - an empty bank is a permanent loading screen.
