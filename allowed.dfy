/**
 * Model of `isLetterAllowed` and `areAllLettersAllowed` in src/clue.ts: the
 * check of a guess against the per-position strings of letters still
 * allowed there.
 */
module Allowed {
  import opened Wrappers
  import opened Util
  import opened Messages

  /** `needle` occurs in `hay` starting at index i. */
  predicate OccursAt(hay: string, needle: string, i: nat)
  {
    i + |needle| <= |hay| && hay[i..i + |needle|] == needle
  }

  /** `hay.indexOf(needle, from)`: the first occurrence at or after `from`, or -1. */
  function IndexOfFrom(hay: string, needle: string, from: nat): int
    decreases |hay| - from
  {
    if from + |needle| > |hay| then -1
    else if OccursAt(hay, needle, from) then from
    else IndexOfFrom(hay, needle, from + 1)
  }

  /** The search gives -1 exactly when there is no occurrence at or after `from`, and otherwise the first one. */
  lemma {:induction false} IndexOfFromMeaning(hay: string, needle: string, from: nat)
    ensures var r := IndexOfFrom(hay, needle, from);
      r == -1 <==> forall i :: from <= i ==> !OccursAt(hay, needle, i)
    ensures var r := IndexOfFrom(hay, needle, from);
      r != -1 ==> from <= r && OccursAt(hay, needle, r) && forall i :: from <= i < r ==> !OccursAt(hay, needle, i)
    decreases |hay| - from
  {
    if from + |needle| <= |hay| && !OccursAt(hay, needle, from) {
      IndexOfFromMeaning(hay, needle, from + 1);
    }
  }

  /** `isLetterAllowed`: `allowed.indexOf(letter) !== -1`. */
  predicate IsLetterAllowed(letter: string, allowed: string)
  {
    IndexOfFrom(allowed, letter, 0) != -1
  }

  /** A one-letter string is allowed exactly when the letter is in the allowed string; "" is always allowed. */
  lemma IsLetterAllowedMeaning(c: char, allowed: string)
    ensures IsLetterAllowed([c], allowed) <==> c in allowed
    ensures IsLetterAllowed("", allowed)
  {
    IndexOfFromMeaning(allowed, [c], 0);
    IndexOfFromMeaning(allowed, "", 0);
    if c in allowed {
      var i :| 0 <= i < |allowed| && allowed[i] == c;
      assert OccursAt(allowed, [c], i) by {
        assert allowed[i..i + 1] == [allowed[i]];
      }
    }
    if IsLetterAllowed([c], allowed) {
      var i := IndexOfFrom(allowed, [c], 0);
      assert allowed[i..i + 1][0] == allowed[i];
    }
    assert OccursAt(allowed, "", 0) by {
      assert allowed[0..0] == "";
    }
  }

  /** The message for position i, if its letter is not allowed there. */
  function ProblemAt(guess: string, allowedLetters: seq<string>, i: nat): Option<Problem>
    requires i < |guess| && i < |allowedLetters|
  {
    var allowed := allowedLetters[i];
    if IsLetterAllowed([guess[i]], allowed) then None
    else if |allowed| == 1 then Some(MustBeOnly(i, allowed))
    else Some(AlreadyBeen(i, guess[i]))
  }

  /** The messages for the first n positions, in position order. */
  function ProblemsUpTo(guess: string, allowedLetters: seq<string>, n: nat): seq<Problem>
    requires n <= |guess| <= |allowedLetters|
  {
    if n == 0 then []
    else ProblemsUpTo(guess, allowedLetters, n - 1) + ProblemAt(guess, allowedLetters, n - 1).ToSeq()
  }

  /**
   * `areAllLettersAllowed`. Reading `allowedLetters[i]` past its end would
   * make `allowed.indexOf` throw, so the guess is no longer than the list.
   */
  function LetterProblems(guess: string, allowedLetters: seq<string>): seq<Problem>
    requires |guess| <= |allowedLetters|
  {
    ProblemsUpTo(guess, allowedLetters, |guess|)
  }

  method AreAllLettersAllowed(guess: string, allowedLetters: seq<string>) returns (problems: seq<Problem>)
    requires |guess| <= |allowedLetters|
    ensures problems == LetterProblems(guess, allowedLetters)
  {
    problems := [];
    for i := 0 to |guess|
      invariant problems == ProblemsUpTo(guess, allowedLetters, i)
    {
      var letter := guess[i];
      var allowed := allowedLetters[i];
      if !IsLetterAllowed([letter], allowed) {
        if |allowed| == 1 {
          problems := problems + [MustBeOnly(i, allowed)];
        } else {
          problems := problems + [AlreadyBeen(i, letter)];
        }
      }
    }
  }

  /** The position a letter message is about; the other messages have none. */
  function Position(p: Problem): int
  {
    match p
    case MustBeOnly(i, _) => i
    case AlreadyBeen(i, _) => i
    case _ => -1
  }

  /** Position n - 1 adds its message, if any, after those of the earlier positions. */
  lemma LastPosition(guess: string, allowedLetters: seq<string>, n: nat)
    requires 0 < n <= |guess| <= |allowedLetters|
    ensures var front := ProblemsUpTo(guess, allowedLetters, n - 1);
      var ps := ProblemsUpTo(guess, allowedLetters, n);
      var p := ProblemAt(guess, allowedLetters, n - 1);
      (p.None? ==> ps == front) &&
      (p.Some? ==> ps == front + [p.value] && Position(p.value) == n - 1)
  {
  }

  /** Each message up to n is the message of its own position, below n. */
  lemma {:induction false} ProblemsUpToSound(guess: string, allowedLetters: seq<string>, n: nat)
    requires n <= |guess| <= |allowedLetters|
    ensures var ps := ProblemsUpTo(guess, allowedLetters, n);
      forall k :: 0 <= k < |ps| ==>
        0 <= Position(ps[k]) < n && ProblemAt(guess, allowedLetters, Position(ps[k])) == Some(ps[k])
  {
    if n > 0 {
      ProblemsUpToSound(guess, allowedLetters, n - 1);
      var front := ProblemsUpTo(guess, allowedLetters, n - 1);
      var ps := ProblemsUpTo(guess, allowedLetters, n);
      LastPosition(guess, allowedLetters, n);
      assert forall k :: 0 <= k < |front| ==> ps[k] == front[k];
    }
  }

  /** The messages up to n come in increasing position order. */
  lemma {:induction false} ProblemsUpToOrdered(guess: string, allowedLetters: seq<string>, n: nat)
    requires n <= |guess| <= |allowedLetters|
    ensures var ps := ProblemsUpTo(guess, allowedLetters, n);
      forall k, m :: 0 <= k < m < |ps| ==> Position(ps[k]) < Position(ps[m])
  {
    if n > 0 {
      ProblemsUpToOrdered(guess, allowedLetters, n - 1);
      ProblemsUpToSound(guess, allowedLetters, n - 1);
      var front := ProblemsUpTo(guess, allowedLetters, n - 1);
      var ps := ProblemsUpTo(guess, allowedLetters, n);
      LastPosition(guess, allowedLetters, n);
      assert forall k :: 0 <= k < |front| ==> ps[k] == front[k];
      forall k, m | 0 <= k < m < |ps| ensures Position(ps[k]) < Position(ps[m])
      {
        if m == |front| {
          assert ps[k] == front[k];
          assert Position(ps[m]) == n - 1;
        }
      }
    }
  }

  /** Every position below n whose letter is not allowed has its message. */
  lemma {:induction false} ProblemsUpToComplete(guess: string, allowedLetters: seq<string>, n: nat)
    requires n <= |guess| <= |allowedLetters|
    ensures var ps := ProblemsUpTo(guess, allowedLetters, n);
      forall i :: 0 <= i < n && ProblemAt(guess, allowedLetters, i).Some? ==>
        exists k :: 0 <= k < |ps| && Position(ps[k]) == i
  {
    if n > 0 {
      ProblemsUpToComplete(guess, allowedLetters, n - 1);
      var front := ProblemsUpTo(guess, allowedLetters, n - 1);
      var ps := ProblemsUpTo(guess, allowedLetters, n);
      LastPosition(guess, allowedLetters, n);
      assert forall k :: 0 <= k < |front| ==> ps[k] == front[k];
      forall i | 0 <= i < n && ProblemAt(guess, allowedLetters, i).Some?
        ensures exists k :: 0 <= k < |ps| && Position(ps[k]) == i
      {
        if i == n - 1 {
          assert Position(ps[|front|]) == i;
        } else {
          var k :| 0 <= k < |front| && Position(front[k]) == i;
          assert ps[k] == front[k];
        }
      }
    }
  }

  /**
   * One message per position whose letter is not allowed there, in position
   * order: "must be X" when the allowed string is the single letter X, "has
   * already been L" otherwise; none at all exactly when every letter is allowed.
   */
  lemma LetterProblemsMeaning(guess: string, allowedLetters: seq<string>)
    requires |guess| <= |allowedLetters|
    ensures var ps := LetterProblems(guess, allowedLetters);
      forall k :: 0 <= k < |ps| ==>
        var i := Position(ps[k]);
        0 <= i < |guess| && guess[i] !in allowedLetters[i] &&
        ps[k] == (if |allowedLetters[i]| == 1 then MustBeOnly(i, allowedLetters[i]) else AlreadyBeen(i, guess[i]))
    ensures var ps := LetterProblems(guess, allowedLetters);
      forall k, m :: 0 <= k < m < |ps| ==> Position(ps[k]) < Position(ps[m])
    ensures var ps := LetterProblems(guess, allowedLetters);
      forall i :: 0 <= i < |guess| && guess[i] !in allowedLetters[i] ==>
        exists k :: 0 <= k < |ps| && Position(ps[k]) == i
    ensures LetterProblems(guess, allowedLetters) == [] <==>
      forall i :: 0 <= i < |guess| ==> guess[i] in allowedLetters[i]
  {
    var n := |guess|;
    ProblemsUpToSound(guess, allowedLetters, n);
    ProblemsUpToOrdered(guess, allowedLetters, n);
    ProblemsUpToComplete(guess, allowedLetters, n);
    forall i | 0 <= i < n
      ensures ProblemAt(guess, allowedLetters, i).Some? <==> guess[i] !in allowedLetters[i]
    {
      IsLetterAllowedMeaning(guess[i], allowedLetters[i]);
    }
    var ps := LetterProblems(guess, allowedLetters);
    if ps != [] {
      assert ProblemAt(guess, allowedLetters, Position(ps[0])) == Some(ps[0]);
    }
  }
}
