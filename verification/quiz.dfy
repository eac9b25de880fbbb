/**
 The quiz session of app/page.tsx (the `Home` component).

 `QuizState` is the value of the component's five pieces of state, and the
 functions `Answered`, `Submitted`, `Advanced` and `Restarted` say what each
 handler makes of it. The class `Home` holds the same state in fields and its
 handler methods are proved against those functions. `Render` is the part of
 the page that decides what is shown: which screen, the verdict after an
 answer is revealed, and whether the two buttons are enabled.
 */
module Quiz {
  import opened Shuffle

  datatype Option<T> = None | Some(value: T)

  /** The `QuizQuestion` record: `correctAnswer` indexes `options`. */
  datatype QuizQuestion = QuizQuestion(
    question: string,
    options: seq<string>,
    correctAnswer: int,
    explanation: string)

  predicate WellFormed(q: QuizQuestion)
  {
    0 <= q.correctAnswer < |q.options|
  }

  predicate AllWellFormed(qs: seq<QuizQuestion>)
  {
    forall k :: 0 <= k < |qs| ==> WellFormed(qs[k])
  }

  /** `questions`, `currentQuestion`, `selectedAnswer`, `showExplanation`, `quizCompleted`. */
  datatype QuizState = QuizState(
    questions: seq<QuizQuestion>,
    currentQuestion: int,
    selectedAnswer: Option<int>,
    showExplanation: bool,
    quizCompleted: bool)

  /** The `else` branch of `handleNext`: there is no later question. */
  predicate AtLast(s: QuizState)
  {
    !(s.currentQuestion < |s.questions| - 1)
  }

  /**
   What every handler keeps: the position indexes `questions` (or is 0 for an
   empty bank), an explanation is only shown for a selected answer, and the
   quiz is only ever completed at its last question.
   */
  predicate Inv(s: QuizState)
  {
    AllWellFormed(s.questions) &&
    (if s.questions == [] then s.currentQuestion == 0 else 0 <= s.currentQuestion < |s.questions|) &&
    (s.showExplanation ==> s.selectedAnswer.Some?) &&
    (s.quizCompleted ==> AtLast(s))
  }

  /**
   The submit button's enabled condition, the negation of its `disabled`
   expression: it is enabled exactly when pressing it would reveal the
   explanation for a selected answer.
   */
  predicate CanSubmit(s: QuizState): (b: bool)
    ensures b <==> !(s.selectedAnswer.None? || s.showExplanation)
    ensures b <==> s.selectedAnswer.Some? && s.(showExplanation := true) != s
  {
    s.selectedAnswer.Some? && !s.showExplanation
  }

  /**
   The next button's enabled condition, the negation of its `disabled`
   expression. In a valid state it is enabled only once an answer is
   selected, and never together with the submit button.
   */
  predicate CanNext(s: QuizState): (b: bool)
    ensures Inv(s) && b ==> s.selectedAnswer.Some?
    ensures b ==> !CanSubmit(s)
  {
    s.showExplanation
  }

  /** `handleAnswer(index)`: any index, at any time, replaces the selection. */
  function Answered(s: QuizState, index: int): (t: QuizState)
    ensures Inv(s) ==> Inv(t)
    ensures t.selectedAnswer == Some(index)
    ensures t.questions == s.questions && t.currentQuestion == s.currentQuestion
    ensures t.showExplanation == s.showExplanation && t.quizCompleted == s.quizCompleted
  {
    s.(selectedAnswer := Some(index))
  }

  /** `handleSubmit`: reveals the explanation, but only when an answer is selected. */
  function Submitted(s: QuizState): (t: QuizState)
    ensures Inv(s) ==> Inv(t)
    ensures t.showExplanation <==> s.showExplanation || s.selectedAnswer.Some?
    ensures s.selectedAnswer.None? ==> t == s
    ensures s.selectedAnswer.Some? ==> t == s.(showExplanation := true)
    ensures t != s <==> CanSubmit(s)
    ensures t.quizCompleted == s.quizCompleted
  {
    if s.selectedAnswer.Some? then s.(showExplanation := true) else s
  }

  /**
   `handleNext`: moves to a fresh next question, or completes the quiz at
   the last one. It does not look at `showExplanation` itself.
   */
  function Advanced(s: QuizState): (t: QuizState)
    ensures Inv(s) ==> Inv(t)
    ensures t.questions == s.questions
    ensures t.quizCompleted <==> s.quizCompleted || AtLast(s)
    ensures !AtLast(s) ==> t.currentQuestion == s.currentQuestion + 1 && t.selectedAnswer.None? && !t.showExplanation
    ensures AtLast(s) ==> t == s.(quizCompleted := true)
  {
    if s.currentQuestion < |s.questions| - 1 then
      s.(currentQuestion := s.currentQuestion + 1, selectedAnswer := None, showExplanation := false)
    else
      s.(quizCompleted := true)
  }

  /** `handleRestart` (and the mount effect): a new question order and every flag reset. */
  function Restarted(qs: seq<QuizQuestion>): (t: QuizState)
    ensures AllWellFormed(qs) ==> Inv(t)
    ensures t.questions == qs && t.currentQuestion == 0
    ensures t.selectedAnswer.None? && !t.showExplanation && !t.quizCompleted
  {
    QuizState(qs, 0, None, false, false)
  }

  /** The verdict line and, for a wrong answer, the correct option shown beneath it. */
  datatype Feedback = Correct | Incorrect(correctNumber: int, correctOption: string)

  function Verdict(q: QuizQuestion, selected: Option<int>): (f: Feedback)
    requires WellFormed(q)
    ensures f.Correct? <==> selected == Some(q.correctAnswer)
    ensures f.Incorrect? ==> f.correctNumber == q.correctAnswer + 1 && f.correctOption == q.options[q.correctAnswer]
  {
    if selected == Some(q.correctAnswer) then Correct
    else Incorrect(q.correctAnswer + 1, q.options[q.correctAnswer])
  }

  /** What the page shows: the completion card, the loading text, or a question card. */
  datatype Screen =
    | Finished
    | Loading
    | Asking(
        number: int,
        question: QuizQuestion,
        selected: Option<int>,
        feedback: Option<Feedback>,
        submitEnabled: bool,
        nextEnabled: bool,
        nextFinishes: bool)

  function Render(s: QuizState): (v: Screen)
    requires Inv(s)
    ensures v.Finished? <==> s.quizCompleted
    ensures v.Loading? <==> !s.quizCompleted && s.questions == []
    ensures v.Asking? ==> 1 <= v.number <= |s.questions| && v.question == s.questions[v.number - 1]
    ensures v.Asking? ==> v.number == s.currentQuestion + 1 && v.selected == s.selectedAnswer
    ensures v.Asking? ==> (v.feedback.Some? <==> s.showExplanation)
    ensures v.Asking? ==> v.feedback == (if s.showExplanation then Some(Verdict(v.question, s.selectedAnswer)) else None)
    ensures v.Asking? && v.feedback.Some? ==> (v.feedback.value.Correct? <==> s.selectedAnswer == Some(v.question.correctAnswer))
    ensures v.Asking? ==> (v.submitEnabled <==> Submitted(s) != s)
    ensures v.Asking? ==> (v.nextEnabled <==> s.showExplanation)
    ensures v.Asking? ==> (v.nextEnabled ==> s.selectedAnswer.Some?)
    ensures v.Asking? ==> (v.nextFinishes <==> Advanced(s).quizCompleted)
  {
    if s.quizCompleted then Finished
    else if s.questions == [] then Loading
    else
      var q := s.questions[s.currentQuestion];
      Asking(
        s.currentQuestion + 1,
        q,
        s.selectedAnswer,
        if s.showExplanation then Some(Verdict(q, s.selectedAnswer)) else None,
        CanSubmit(s),
        CanNext(s),
        !(s.currentQuestion < |s.questions| - 1))
  }

  /**
   Choosing option `i` and submitting reveals a verdict that is "correct"
   exactly when `i` is the question's correct answer.
   */
  lemma AnswerThenSubmit(s: QuizState, i: int)
    requires Inv(s) && !s.quizCompleted && s.questions != []
    ensures Render(Submitted(Answered(s, i))).Asking?
    ensures Render(Submitted(Answered(s, i))).feedback
      == Some(Verdict(s.questions[s.currentQuestion], Some(i)))
    ensures Render(Submitted(Answered(s, i))).feedback.value.Correct?
      <==> i == s.questions[s.currentQuestion].correctAnswer
  {
  }

  /**
   One round as a player can play it: pick an answer, press Submit if it is
   enabled, then press Next if it is enabled.
   */
  function Round(s: QuizState, answer: int): QuizState
  {
    var picked := Answered(s, answer);
    var shown := if CanSubmit(picked) then Submitted(picked) else picked;
    if CanNext(shown) then Advanced(shown) else shown
  }

  function Play(s: QuizState, answers: seq<int>): QuizState
    decreases |answers|
  {
    if answers == [] then s else Play(Round(s, answers[0]), answers[1..])
  }

  /** A round never gets stuck on a disabled button: it always moves on. */
  lemma RoundAdvances(s: QuizState, answer: int)
    requires Inv(s) && !s.quizCompleted && s.questions != []
    ensures Round(s, answer) == Advanced(Submitted(Answered(s, answer)))
    ensures Inv(Round(s, answer))
  {
  }

  /**
   Playing rounds from an open question: the quiz is completed exactly when
   every remaining question has had its round, and until then the player is
   on the next question with nothing selected or revealed.
   */
  lemma {:induction false} PlayFrom(s: QuizState, answers: seq<int>)
    requires Inv(s) && !s.quizCompleted && s.questions != []
    requires |answers| <= |s.questions| - s.currentQuestion
    ensures Inv(Play(s, answers)) && Play(s, answers).questions == s.questions
    ensures Play(s, answers).quizCompleted <==> |answers| == |s.questions| - s.currentQuestion
    ensures Play(s, answers).quizCompleted ==> Play(s, answers).currentQuestion == |s.questions| - 1
    ensures 0 < |answers| && !Play(s, answers).quizCompleted ==>
      Play(s, answers).currentQuestion == s.currentQuestion + |answers| &&
      Play(s, answers).selectedAnswer.None? && !Play(s, answers).showExplanation
    decreases |answers|
  {
    if answers != [] {
      RoundAdvances(s, answers[0]);
      var t := Round(s, answers[0]);
      if !t.quizCompleted {
        PlayFrom(t, answers[1..]);
      }
    }
  }

  /**
   From a fresh session over a non-empty bank, the quiz is completed after
   exactly as many rounds as there are questions, and not before.
   */
  lemma FullPlay(qs: seq<QuizQuestion>, answers: seq<int>)
    requires AllWellFormed(qs) && qs != [] && |answers| <= |qs|
    ensures Play(Restarted(qs), answers).quizCompleted <==> |answers| == |qs|
  {
    PlayFrom(Restarted(qs), answers);
  }

  /** A reordering of a bank of well-formed questions holds only well-formed questions. */
  lemma {:induction false} PermutationWellFormed(qs: seq<QuizQuestion>, bank: seq<QuizQuestion>)
    requires multiset(qs) == multiset(bank) && AllWellFormed(bank)
    ensures AllWellFormed(qs)
  {
    forall k | 0 <= k < |qs|
      ensures WellFormed(qs[k])
    {
      assert qs[k] in multiset(bank);
      var m :| 0 <= m < |bank| && bank[m] == qs[k];
    }
  }

  /**
   The `Home` component. `quizData` is the question bank; it is only ever
   read, and every session holds a shuffled copy of it.
   */
  class Home {
    const quizData: array<QuizQuestion>
    var questions: seq<QuizQuestion>
    var currentQuestion: int
    var selectedAnswer: Option<int>
    var showExplanation: bool
    var quizCompleted: bool

    function State(): QuizState
      reads this
    {
      QuizState(questions, currentQuestion, selectedAnswer, showExplanation, quizCompleted)
    }

    ghost predicate Valid()
      reads this, quizData
    {
      Inv(State()) &&
      AllWellFormed(quizData[..]) &&
      multiset(questions) == multiset(quizData[..])
    }

    /**
     The initial state of the five `useState` hooks, followed by the mount
     effect that installs a shuffled copy of the bank.
     */
    constructor (bank: array<QuizQuestion>, js: seq<nat>)
      requires AllWellFormed(bank[..])
      requires Fits(js, bank.Length - 1)
      ensures Valid() && quizData == bank
      ensures State() == Restarted(Shuffled(bank[..], js))
      ensures bank[..] == old(bank[..])
    {
      quizData := bank;
      questions := [];
      currentQuestion := 0;
      selectedAnswer := None;
      showExplanation := false;
      quizCompleted := false;
      new;
      var copy := CopyShuffled(bank, js);
      PermutationWellFormed(copy[..], bank[..]);
      questions := copy[..];
    }

    method HandleAnswer(index: int)
      requires Valid()
      modifies this
      ensures Valid() && State() == Answered(old(State()), index)
    {
      selectedAnswer := Some(index);
    }

    method HandleSubmit()
      requires Valid()
      modifies this
      ensures Valid() && State() == Submitted(old(State()))
    {
      if selectedAnswer != None {
        showExplanation := true;
      }
    }

    method HandleNext()
      requires Valid()
      modifies this
      ensures Valid() && State() == Advanced(old(State()))
    {
      if currentQuestion < |questions| - 1 {
        currentQuestion := currentQuestion + 1;
        selectedAnswer := None;
        showExplanation := false;
      } else {
        quizCompleted := true;
      }
    }

    method HandleRestart(js: seq<nat>)
      requires Valid()
      requires Fits(js, quizData.Length - 1)
      modifies this
      ensures Valid() && State() == Restarted(Shuffled(quizData[..], js))
      ensures multiset(questions) == multiset(quizData[..])
      ensures quizData[..] == old(quizData[..])
    {
      var copy := CopyShuffled(quizData, js);
      PermutationWellFormed(copy[..], quizData[..]);
      questions := copy[..];
      currentQuestion := 0;
      selectedAnswer := None;
      showExplanation := false;
      quizCompleted := false;
    }
  }
}
