/**
 The Fisher-Yates shuffle of app/page.tsx (`shuffleArray`).

 The loop walks `i` from `length - 1` down to `1`, draws `j` from
 `Math.floor(Math.random() * (i + 1))` and swaps `array[i]` with `array[j]`.
 The random source is a parameter here: the indices `js` the loop draws,
 one per iteration, consumed in order, each in [0, i] for its iteration
 (`Fits`). `Draw` and `Choices` show that values of `Math.random()` in
 [0, 1) yield such indices, and every such index sequence. `ShuffleFrom` is
 the value the loop computes; `ShuffleArray` is the in-place loop, proved
 against it.
 */
module Shuffle {

  /** Number of loop iterations, and so of random draws, for `n` elements. */
  function Steps(n: nat): nat
  {
    if n == 0 then 0 else n - 1
  }

  /**
   `js` holds one index per remaining loop step when the loop is at index
   `i`: the first is for `i`, the next for `i - 1`, and so on down to 1, and
   each lies in [0, its index].
   */
  predicate Fits(js: seq<nat>, i: int)
    decreases |js|
  {
    if i <= 0 then js == []
    else js != [] && js[0] <= i && Fits(js[1..], i - 1)
  }

  // ---------------------------------------------------------------------
  // The random source

  /** Every draw lies in [0, 1), as the values of `Math.random()` do. */
  predicate UnitInterval(rs: seq<real>)
  {
    forall k :: 0 <= k < |rs| ==> 0.0 <= rs[k] < 1.0
  }

  lemma ScaledBelow(r: real, m: nat)
    requires 0.0 <= r < 1.0 && 0 < m
    ensures 0.0 <= r * (m as real) < m as real
  {
  }

  /** `Math.floor(r * (i + 1))`: the index drawn at step `i` is always in [0, i]. */
  function Draw(r: real, i: nat): (j: nat)
    requires 0.0 <= r < 1.0
    ensures j <= i
  {
    ScaledBelow(r, i + 1);
    (r * ((i + 1) as real)).Floor
  }

  /** Every index in [0, i] is drawn by some value in [0, 1). */
  lemma DrawHits(j: nat, i: nat)
    requires j <= i
    ensures 0.0 <= (j as real) / ((i + 1) as real) < 1.0
    ensures Draw((j as real) / ((i + 1) as real), i) == j
  {
    var m := (i + 1) as real;
    var r := (j as real) / m;
    assert r * m == j as real;
    assert (j as real).Floor == j;
  }

  /**
   The indices the loop draws from the values `rs` of `Math.random()` when
   it starts at index `i`: always one in range per step.
   */
  function Choices(rs: seq<real>, i: int): (js: seq<nat>)
    requires -1 <= i && |rs| == Steps(i + 1) && UnitInterval(rs)
    ensures Fits(js, i)
    decreases |rs|
  {
    if i <= 0 then []
    else
      var rest := Choices(rs[1..], i - 1);
      var js := [Draw(rs[0], i)] + rest;
      assert js[1..] == rest;
      js
  }

  /** Values in [0, 1) that make the loop draw exactly the indices `js`. */
  lemma {:induction false} ChoicesFor(js: seq<nat>, i: int) returns (rs: seq<real>)
    requires -1 <= i && Fits(js, i)
    ensures |rs| == Steps(i + 1) && UnitInterval(rs) && Choices(rs, i) == js
    decreases |js|
  {
    if i <= 0 {
      rs := [];
    } else {
      var rest := ChoicesFor(js[1..], i - 1);
      DrawHits(js[0], i);
      rs := [(js[0] as real) / ((i + 1) as real)] + rest;
      assert rs[1..] == rest;
      assert js == [js[0]] + js[1..];
    }
  }

  /** Every sequence of in-range indices is what some values in [0, 1) produce. */
  lemma EveryChoiceDrawn(js: seq<nat>, i: int)
    requires -1 <= i && Fits(js, i)
    ensures exists rs :: |rs| == Steps(i + 1) && UnitInterval(rs) && Choices(rs, i) == js
  {
    var rs := ChoicesFor(js, i);
  }

  // ---------------------------------------------------------------------
  // The shuffle as a value

  /** The destructuring swap `[s[i], s[j]] = [s[j], s[i]]` on a value. */
  function Swap<T>(s: seq<T>, i: nat, j: nat): (r: seq<T>)
    requires i < |s| && j < |s|
    ensures |r| == |s| && r[i] == s[j] && r[j] == s[i]
    ensures forall k :: 0 <= k < |s| && k != i && k != j ==> r[k] == s[k]
    ensures multiset(r) == multiset(s)
  {
    s[i := s[j]][j := s[i]]
  }

  /**
   What the loop leaves behind when it starts at index `i` with the choices
   `js` still to come. Positions above `i` are already final and stay as they are.
   */
  function ShuffleFrom<T>(s: seq<T>, i: int, js: seq<nat>): (r: seq<T>)
    requires -1 <= i < |s| && Fits(js, i)
    ensures |r| == |s| && multiset(r) == multiset(s)
    ensures forall k :: i < k < |s| ==> r[k] == s[k]
    decreases |js|
  {
    if i <= 0 then s
    else ShuffleFrom(Swap(s, i, js[0]), i - 1, js[1..])
  }

  /** The result of `shuffleArray` on contents `s` with the choices `js`. */
  function Shuffled<T>(s: seq<T>, js: seq<nat>): (r: seq<T>)
    requires Fits(js, |s| - 1)
    ensures |r| == |s| && multiset(r) == multiset(s)
  {
    ShuffleFrom(s, |s| - 1, js)
  }

  /** One loop step: at index `i > 0` the first choice is swapped in, the rest follow. */
  lemma ShuffleStep<T>(s: seq<T>, i: int, js: seq<nat>)
    requires 0 < i < |s| && Fits(js, i)
    ensures Fits(js[1..], i - 1) && js[0] <= i
    ensures ShuffleFrom(s, i, js) == ShuffleFrom(Swap(s, i, js[0]), i - 1, js[1..])
  {
  }

  // ---------------------------------------------------------------------
  // The shuffle in place

  /** `shuffleArray(array)`: shuffles in place and returns the same array. */
  method ShuffleArray<T>(a: array<T>, js: seq<nat>) returns (b: array<T>)
    requires Fits(js, a.Length - 1)
    modifies a
    ensures b == a
    ensures a[..] == Shuffled(old(a[..]), js)
    ensures multiset(a[..]) == multiset(old(a[..]))
  {
    var i := a.Length - 1;
    var used := 0;
    while i > 0
      invariant -1 <= i < a.Length && used <= |js|
      invariant Fits(js[used..], i)
      invariant ShuffleFrom(a[..], i, js[used..]) == Shuffled(old(a[..]), js)
    {
      ghost var before := a[..];
      ShuffleStep(before, i, js[used..]);
      var j := js[used];
      a[i], a[j] := a[j], a[i];
      assert a[..] == Swap(before, i, j);
      assert js[used..][1..] == js[used + 1..];
      i := i - 1;
      used := used + 1;
    }
    b := a;
  }

  /**
   `shuffleArray([...source])`: shuffles a fresh copy, so the source array
   keeps its contents.
   */
  method CopyShuffled<T>(source: array<T>, js: seq<nat>) returns (a: array<T>)
    requires Fits(js, source.Length - 1)
    ensures fresh(a)
    ensures a[..] == Shuffled(source[..], js)
    ensures source[..] == old(source[..])
  {
    a := new T[source.Length](k requires 0 <= k < source.Length reads source => source[k]);
    assert a[..] == source[..];
    a := ShuffleArray(a, js);
  }

  // ---------------------------------------------------------------------
  // Every ordering is reachable

  /** Equal multisets stay equal once a common last element is dropped. */
  lemma DropCommonLast<T>(a: seq<T>, b: seq<T>)
    requires 0 < |a| && 0 < |b| && a[|a| - 1] == b[|b| - 1]
    requires multiset(a) == multiset(b)
    ensures multiset(a[..|a| - 1]) == multiset(b[..|b| - 1])
  {
    var x := a[|a| - 1];
    assert a == a[..|a| - 1] + [x];
    assert b == b[..|b| - 1] + [x];
    calc {
      multiset(a[..|a| - 1]);
      multiset(a) - multiset{x};
      multiset(b) - multiset{x};
      multiset(b[..|b| - 1]);
    }
  }

  /** Once position `i` holds the element the target wants there, the rest stays open. */
  lemma SwapFixesTop<T>(s: seq<T>, p: seq<T>, i: nat, j: nat)
    requires j <= i < |s| && |p| == |s| && s[j] == p[i]
    requires multiset(p[..i + 1]) == multiset(s[..i + 1])
    requires p[i + 1..] == s[i + 1..]
    ensures multiset(p[..i]) == multiset(Swap(s, i, j)[..i])
    ensures p[i..] == Swap(s, i, j)[i..]
  {
    var t := Swap(s, i, j);
    assert multiset(t[..i + 1]) == multiset(s[..i + 1]) by {
      assert t[..i + 1] == Swap(s[..i + 1], i, j);
    }
    DropCommonLast(p[..i + 1], t[..i + 1]);
    assert p[..i + 1][..i] == p[..i] && t[..i + 1][..i] == t[..i];
    assert p[i..] == t[i..] by {
      assert p[i..] == [p[i]] + p[i + 1..];
      assert t[i..] == [t[i]] + t[i + 1..];
    }
  }

  /** With no steps left, a reordering that is already fixed above `i` is the input. */
  lemma NothingOpen<T>(s: seq<T>, p: seq<T>, i: int)
    requires -1 <= i <= 0 && i < |s| && |p| == |s|
    requires multiset(p[..i + 1]) == multiset(s[..i + 1])
    requires p[i + 1..] == s[i + 1..]
    ensures p == s
  {
    if i == -1 {
      assert p == p[0..] && s == s[0..];
    } else {
      assert p[..1] == [p[0]] && s[..1] == [s[0]];
      assert multiset(p[..1]) == multiset{p[0]};
      assert p[0] in multiset(s[..1]);
      assert p == [p[0]] + p[1..] && s == [s[0]] + s[1..];
    }
  }

  /** Where in `s[..i + 1]` the element the target wants at `i` comes from. */
  lemma SourceOf<T>(s: seq<T>, p: seq<T>, i: nat) returns (j: nat)
    requires i < |s| && i < |p|
    requires multiset(p[..i + 1]) == multiset(s[..i + 1])
    ensures j <= i && s[j] == p[i]
  {
    assert p[..i + 1] == p[..i] + [p[i]];
    assert p[i] in multiset(s[..i + 1]);
    var k :| 0 <= k < i + 1 && s[..i + 1][k] == p[i];
    j := k;
  }

  /**
   Every reordering of `s` that is still open at index `i` (positions above
   `i` already agree) is produced by some choice of the remaining indices,
   which this lemma returns.
   */
  lemma {:induction false} OrderFrom<T>(s: seq<T>, p: seq<T>, i: int) returns (js: seq<nat>)
    requires -1 <= i < |s| && |p| == |s|
    requires multiset(p[..i + 1]) == multiset(s[..i + 1])
    requires p[i + 1..] == s[i + 1..]
    ensures Fits(js, i) && ShuffleFrom(s, i, js) == p
    decreases i + 1
  {
    if i <= 0 {
      NothingOpen(s, p, i);
      js := [];
    } else {
      var j := SourceOf(s, p, i);
      SwapFixesTop(s, p, i, j);
      var rest := OrderFrom(Swap(s, i, j), p, i - 1);
      js := [j] + rest;
      assert js[1..] == rest;
      ShuffleStep(s, i, js);
    }
  }

  /** The indices with which the whole shuffle turns `s` into its permutation `p`. */
  lemma OrderOf<T>(s: seq<T>, p: seq<T>) returns (js: seq<nat>)
    requires multiset(p) == multiset(s)
    ensures Fits(js, |s| - 1) && Shuffled(s, js) == p
  {
    assert |p| == |multiset(p)| == |s|;
    assert p[..|s|] == p && s[..|s|] == s;
    assert p[|s|..] == [] == s[|s|..];
    js := OrderFrom(s, p, |s| - 1);
  }

  /**
   The shuffle can yield every ordering of its input: for each permutation
   `p` of `s` there are values of `Math.random()` in [0, 1) whose indices
   make `shuffleArray` produce it.
   */
  lemma EveryOrderReachable<T>(s: seq<T>, p: seq<T>)
    requires multiset(p) == multiset(s)
    ensures exists rs :: |rs| == Steps(|s|) && UnitInterval(rs) && Shuffled(s, Choices(rs, |s| - 1)) == p
  {
    var js := OrderOf(s, p);
    var rs := ChoicesFor(js, |s| - 1);
    assert Shuffled(s, Choices(rs, |s| - 1)) == p;
  }
}
