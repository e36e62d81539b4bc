/**
 * Model of `violation` and `checkForViolations` in src/clue.ts: the Hard and
 * Ultra Hard consistency rules that a new guess must satisfy with respect to
 * the clues of every earlier guess.
 */
module Rules {
  import opened Wrappers
  import opened Util
  import opened Messages
  import opened Clues

  /** `guess.split(letter).length - 1`: the number of copies of `letter` in `guess`. */
  function GuessCount(guess: string, letter: char): (n: nat)
    ensures n == Count(guess, letter)
  {
    SplitPieces(guess, letter);
    |Split(guess, letter)| - 1
  }

  /** `guess[i] === letter`; past the end `guess[i]` is undefined and equals no letter. */
  predicate HasAt(guess: string, i: nat, letter: char)
  {
    i < |guess| && guess[i] == letter
  }

  /**
   * The four checks made for clue position i, in the source's order: the
   * green stays, the clued copies are all used, (Ultra) no would-be green,
   * (Ultra) an exact count fixed by an Absent mark.
   */
  function RuleAt(ultra: bool, clues: seq<CluedLetter>, guess: string, i: nat): Option<Problem>
    requires i < |clues|
  {
    var letter := clues[i].letter;
    var clue := clues[i].clue;
    var clueCount := ClueCount(clues, letter);
    var guessCount := GuessCount(guess, letter);
    if clue == Correct && !HasAt(guess, i, letter) then Some(MustBe(i, letter))
    else if guessCount < clueCount then Some(MustContain(letter, clueCount))
    else if ultra && clue != Correct && HasAt(guess, i, letter) then Some(CantBe(i, letter))
    else if ultra && clue == Absent && guessCount != clueCount then
      Some(if clueCount == 0 then CantContain(letter) else MustContainExactly(letter, clueCount))
    else None
  }

  /** The first failing check from position i on. */
  function FirstViolationFrom(ultra: bool, clues: seq<CluedLetter>, guess: string, i: nat): Option<Problem>
    decreases |clues| - i
  {
    if i >= |clues| then None
    else if RuleAt(ultra, clues, guess, i).Some? then RuleAt(ultra, clues, guess, i)
    else FirstViolationFrom(ultra, clues, guess, i + 1)
  }

  predicate Ultra(difficulty: Difficulty) { difficulty == UltraHard }

  /** `violation(difficulty, clues, guess)`, with `undefined` as None. */
  function FirstViolation(difficulty: Difficulty, clues: seq<CluedLetter>, guess: string): Option<Problem>
  {
    if difficulty == Normal then None
    else FirstViolationFrom(Ultra(difficulty), clues, guess, 0)
  }

  /** No problem from position i on exactly when every position from i on passes. */
  lemma {:induction false} FirstViolationFromNone(ultra: bool, clues: seq<CluedLetter>, guess: string, i: nat)
    requires i <= |clues|
    ensures FirstViolationFrom(ultra, clues, guess, i) == None <==>
      forall j :: i <= j < |clues| ==> RuleAt(ultra, clues, guess, j) == None
    decreases |clues| - i
  {
    if i < |clues| && RuleAt(ultra, clues, guess, i).None? {
      FirstViolationFromNone(ultra, clues, guess, i + 1);
    }
  }

  /** A problem found from position i on is the one of the first failing position. */
  lemma {:induction false} FirstViolationFromSome(ultra: bool, clues: seq<CluedLetter>, guess: string, i: nat)
    requires i <= |clues|
    ensures FirstViolationFrom(ultra, clues, guess, i).Some? ==>
      exists k :: i <= k < |clues| && RuleAt(ultra, clues, guess, k) == FirstViolationFrom(ultra, clues, guess, i) &&
        forall j :: i <= j < k ==> RuleAt(ultra, clues, guess, j) == None
    decreases |clues| - i
  {
    if i < |clues| {
      var here := RuleAt(ultra, clues, guess, i);
      if here.Some? {
        assert FirstViolationFrom(ultra, clues, guess, i) == here;
      } else if FirstViolationFrom(ultra, clues, guess, i + 1).Some? {
        FirstViolationFromSome(ultra, clues, guess, i + 1);
        var k :| i + 1 <= k < |clues| && RuleAt(ultra, clues, guess, k) == FirstViolationFrom(ultra, clues, guess, i + 1) &&
          forall j :: i + 1 <= j < k ==> RuleAt(ultra, clues, guess, j) == None;
        assert FirstViolationFrom(ultra, clues, guess, i) == FirstViolationFrom(ultra, clues, guess, i + 1);
        assert forall j :: i <= j < k ==> RuleAt(ultra, clues, guess, j) == None;
      }
    }
  }

  lemma FirstViolationFromIsFirst(ultra: bool, clues: seq<CluedLetter>, guess: string, i: nat)
    requires i <= |clues|
    ensures FirstViolationFrom(ultra, clues, guess, i) == None <==>
      forall j :: i <= j < |clues| ==> RuleAt(ultra, clues, guess, j) == None
    ensures FirstViolationFrom(ultra, clues, guess, i).Some? ==>
      exists k :: i <= k < |clues| && RuleAt(ultra, clues, guess, k) == FirstViolationFrom(ultra, clues, guess, i) &&
        forall j :: i <= j < k ==> RuleAt(ultra, clues, guess, j) == None
  {
    FirstViolationFromNone(ultra, clues, guess, i);
    FirstViolationFromSome(ultra, clues, guess, i);
  }

  /** The first failing position decides: positions after it are never looked at. */
  lemma {:induction false} FirstViolationFromAt(ultra: bool, clues: seq<CluedLetter>, guess: string, i: nat, k: nat)
    requires i <= k < |clues| && RuleAt(ultra, clues, guess, k).Some?
    requires forall j :: i <= j < k ==> RuleAt(ultra, clues, guess, j) == None
    ensures FirstViolationFrom(ultra, clues, guess, i) == RuleAt(ultra, clues, guess, k)
    decreases k - i
  {
    if i < k {
      FirstViolationFromAt(ultra, clues, guess, i + 1, k);
    }
  }

  /**
   * Normal difficulty never objects; otherwise the result is None exactly
   * when every position passes, and a problem is the one found at the first
   * failing position.
   */
  lemma FirstViolationIsFirst(difficulty: Difficulty, clues: seq<CluedLetter>, guess: string)
    ensures difficulty == Normal ==> FirstViolation(difficulty, clues, guess) == None
    ensures difficulty != Normal ==>
      (FirstViolation(difficulty, clues, guess) == None <==>
        forall j :: 0 <= j < |clues| ==> RuleAt(Ultra(difficulty), clues, guess, j) == None)
    ensures FirstViolation(difficulty, clues, guess).Some? ==>
      exists k :: 0 <= k < |clues| &&
        RuleAt(Ultra(difficulty), clues, guess, k) == FirstViolation(difficulty, clues, guess) &&
        forall j :: 0 <= j < k ==> RuleAt(Ultra(difficulty), clues, guess, j) == None
  {
    FirstViolationFromIsFirst(Ultra(difficulty), clues, guess, 0);
  }

  /**
   * The counts the messages carry: at most the clue length, so for words of
   * at most eleven letters `englishNumbers[clueCount]` is defined; and the
   * "exactly N" message only comes up when the guess has more than N copies.
   */
  lemma RuleCounts(ultra: bool, clues: seq<CluedLetter>, guess: string, i: nat)
    requires i < |clues|
    ensures RuleAt(ultra, clues, guess, i).Some? && RuleAt(ultra, clues, guess, i).value.MustContain? ==>
      var p := RuleAt(ultra, clues, guess, i).value;
      Count(guess, p.letter) < p.count <= |clues| && (|clues| < |EnglishNumbers| ==> EnglishNumber(p.count) == EnglishNumbers[p.count])
    ensures RuleAt(ultra, clues, guess, i).Some? && RuleAt(ultra, clues, guess, i).value.MustContainExactly? ==>
      var p := RuleAt(ultra, clues, guess, i).value;
      ultra && 1 <= p.count < Count(guess, p.letter) && p.count <= |clues| &&
      (|clues| < |EnglishNumbers| ==> EnglishNumber(p.count) == EnglishNumbers[p.count])
    ensures RuleAt(ultra, clues, guess, i).Some? && RuleAt(ultra, clues, guess, i).value.CantContain? ==>
      var p := RuleAt(ultra, clues, guess, i).value;
      ultra && clues[i] == CluedLetter(Absent, p.letter) && Count(guess, p.letter) > 0
  {
  }

  /**
   * The `violation` loop: walks the clues with a position counter and
   * returns at the first failing check.
   */
  method Violation(difficulty: Difficulty, clues: seq<CluedLetter>, guess: string) returns (v: Option<Problem>)
    ensures v == FirstViolation(difficulty, clues, guess)
  {
    if difficulty == Normal {
      return None;
    }
    var ultra := Ultra(difficulty);
    var i := 0;
    while i < |clues|
      invariant 0 <= i <= |clues|
      invariant FirstViolationFrom(ultra, clues, guess, i) == FirstViolation(difficulty, clues, guess)
    {
      var letter := clues[i].letter;
      var clue := clues[i].clue;
      var clueCount := ClueCount(clues, letter);
      var guessCount := GuessCount(guess, letter);
      if clue == Correct && !HasAt(guess, i, letter) {
        return Some(MustBe(i, letter));
      }
      if guessCount < clueCount {
        return Some(MustContain(letter, clueCount));
      }
      if ultra && clue != Correct && HasAt(guess, i, letter) {
        return Some(CantBe(i, letter));
      }
      if ultra && clue == Absent && guessCount != clueCount {
        return Some(if clueCount == 0 then CantContain(letter) else MustContainExactly(letter, clueCount));
      }
      i := i + 1;
    }
    return None;
  }

  /** `checkForViolations`: one problem per earlier guess that the candidate contradicts, in history order. */
  function Violations(difficulty: Difficulty, guesses: seq<string>, target: string, guess: string): (ps: seq<Problem>)
    decreases |guesses|
  {
    if guesses == [] then []
    else
      var last := FirstViolation(difficulty, ClueOf(guesses[|guesses| - 1], target), guess);
      Violations(difficulty, guesses[..|guesses| - 1], target, guess) + last.ToSeq()
  }

  /** One more earlier guess adds its first violation, if any, at the end. */
  lemma ViolationsStep(difficulty: Difficulty, guesses: seq<string>, target: string, guess: string, n: nat)
    requires n < |guesses|
    ensures Violations(difficulty, guesses[..n + 1], target, guess) ==
      Violations(difficulty, guesses[..n], target, guess) + FirstViolation(difficulty, ClueOf(guesses[n], target), guess).ToSeq()
  {
    assert guesses[..n + 1][..n] == guesses[..n];
  }

  method CheckForViolations(difficulty: Difficulty, guesses: seq<string>, target: string, guess: string)
    returns (problems: seq<Problem>)
    ensures problems == Violations(difficulty, guesses, target, guess)
  {
    problems := [];
    for n := 0 to |guesses|
      invariant problems == Violations(difficulty, guesses[..n], target, guess)
    {
      var clues := MakeClue(guesses[n], target);
      var feedback := Violation(difficulty, clues, guess);
      ViolationsStep(difficulty, guesses, target, guess, n);
      if feedback.Some? {
        problems := problems + [feedback.value];
      }
    }
    assert guesses[..|guesses|] == guesses;
  }

  /**
   * `checkForViolations` as a filter over the history: the problems are,
   * in order, the first violation against each earlier guess that has one.
   * In particular there is at most one per earlier guess, none under Normal,
   * and none at all exactly when the candidate contradicts no earlier guess.
   */
  lemma {:induction false} ViolationsPerGuess(difficulty: Difficulty, guesses: seq<string>, target: string, guess: string)
    ensures |Violations(difficulty, guesses, target, guess)| <= |guesses|
    ensures difficulty == Normal ==> Violations(difficulty, guesses, target, guess) == []
    ensures Violations(difficulty, guesses, target, guess) == [] <==>
      forall k :: 0 <= k < |guesses| ==> FirstViolation(difficulty, ClueOf(guesses[k], target), guess) == None
    decreases |guesses|
  {
    if guesses != [] {
      var front := guesses[..|guesses| - 1];
      ViolationsPerGuess(difficulty, front, target, guess);
      forall k | 0 <= k < |front| ensures front[k] == guesses[k] { }
    }
  }

  /** Locking in one more guess adds at most one problem, at the end. */
  lemma ViolationsExtend(difficulty: Difficulty, guesses: seq<string>, g: string, target: string, guess: string)
    ensures var before := Violations(difficulty, guesses, target, guess);
      Violations(difficulty, guesses + [g], target, guess) ==
        before + FirstViolation(difficulty, ClueOf(g, target), guess).ToSeq()
  {
    assert (guesses + [g])[..|guesses|] == guesses;
  }

  // ---------------------------------------------------------------------
  // What the rules accept

  /** The number of Correct marks on `letter`. */
  function CorrectCount(cs: seq<CluedLetter>, letter: char): nat
  {
    if cs == [] then 0
    else (if cs[0].letter == letter && cs[0].clue == Correct then 1 else 0) + CorrectCount(cs[1..], letter)
  }

  lemma {:induction false} ClueCountSplits(cs: seq<CluedLetter>, letter: char)
    ensures ClueCount(cs, letter) == CorrectCount(cs, letter) + ElsewhereCount(cs, letter)
  {
    if cs != [] {
      ClueCountSplits(cs[1..], letter);
    }
  }

  lemma {:induction false} ElsewherePrefix(cs: seq<CluedLetter>, k: nat, letter: char)
    requires k <= |cs|
    ensures ElsewhereCount(cs[..k], letter) <= ElsewhereCount(cs, letter)
  {
    if k > 0 {
      ElsewherePrefix(cs[1..], k - 1, letter);
      assert cs[..k][1..] == cs[1..][..k - 1];
    }
  }

  /** The Correct marks on a letter are exactly its matches. */
  lemma {:induction false} CorrectsAreMatches(word: string, target: string, i: nat, pool: multiset<char>, letter: char)
    requires i <= |word|
    ensures CorrectCount(ScoreFrom(word, target, i, pool), letter) == MatchCount(word, target, i, letter)
    decreases |word| - i
  {
    if i < |word| {
      var r := ScoreFrom(word, target, i, pool);
      CorrectsAreMatches(word, target, i + 1, PoolAfter(word, target, i, pool), letter);
      assert r[1..] == ScoreFrom(word, target, i + 1, PoolAfter(word, target, i, pool));
    }
  }

  /**
   * Once a letter is marked Absent, its leftover copies are all used up:
   * its marks are exactly its copies in the target.
   */
  lemma AbsentMeansExhausted(word: string, target: string, k: nat)
    requires k < |word| && ClueOf(word, target)[k].clue == Absent
    ensures ClueCount(ClueOf(word, target), word[k]) == Count(target, word[k])
  {
    var letter := word[k];
    var r := ClueOf(word, target);
    var pool := ElusiveFrom(word, target, 0);
    ClueShape(word, target);
    ElsewhereLeftToRight(word, target, k);
    ElsewherePrefix(r, k, letter);
    ClueCountSplits(r, letter);
    CorrectsAreMatches(word, target, 0, pool, letter);
    MarksWithinPool(word, target, 0, pool, letter);
    ElusiveAccounts(word, target, 0, letter);
    assert target[0..] == target;
  }

  /**
   * The strict modes never rule out the answer: whatever the earlier guess,
   * the target itself violates none of the rules its clue imposes.
   */
  lemma TargetPassesRules(difficulty: Difficulty, word: string, target: string)
    ensures FirstViolation(difficulty, ClueOf(word, target), target) == None
  {
    var clues := ClueOf(word, target);
    var ultra := Ultra(difficulty);
    ClueShape(word, target);
    forall i | 0 <= i < |clues| ensures RuleAt(ultra, clues, target, i) == None
    {
      var letter := word[i];
      ClueCountBound(word, target, letter);
      CountIsMultiplicity(target, letter);
      if clues[i].clue == Absent {
        AbsentMeansExhausted(word, target, i);
      }
    }
    FirstViolationIsFirst(difficulty, clues, target);
  }

  /** Guessing the target is accepted through every earlier guess. */
  lemma TargetHasNoViolations(difficulty: Difficulty, guesses: seq<string>, target: string)
    ensures Violations(difficulty, guesses, target, target) == []
  {
    forall k | 0 <= k < |guesses|
      ensures FirstViolation(difficulty, ClueOf(guesses[k], target), target) == None
    {
      TargetPassesRules(difficulty, guesses[k], target);
    }
    ViolationsPerGuess(difficulty, guesses, target, target);
  }

  /** Hard mode: repeating an earlier guess never contradicts that guess's clue. */
  lemma RepeatPassesHard(word: string, target: string)
    ensures FirstViolation(Hard, ClueOf(word, target), word) == None
  {
    var clues := ClueOf(word, target);
    ClueShape(word, target);
    forall i | 0 <= i < |clues| ensures RuleAt(false, clues, word, i) == None
    {
      ClueCountWithinWord(clues, word, word[i]);
    }
    FirstViolationIsFirst(Hard, clues, word);
  }

  /**
   * Ultra Hard: repeating an earlier guess is rejected at its first
   * non-Correct position, with "can't be" for the letter there.
   */
  lemma RepeatFailsUltraHard(word: string, target: string, k: nat)
    requires k < |word| && ClueOf(word, target)[k].clue != Correct
    requires forall j :: 0 <= j < k ==> ClueOf(word, target)[j].clue == Correct
    ensures FirstViolation(UltraHard, ClueOf(word, target), word) == Some(CantBe(k, word[k]))
  {
    var clues := ClueOf(word, target);
    ClueShape(word, target);
    forall j | 0 <= j < k ensures RuleAt(true, clues, word, j) == None
    {
      ClueCountWithinWord(clues, word, word[j]);
    }
    ClueCountWithinWord(clues, word, word[k]);
    assert RuleAt(true, clues, word, k) == Some(CantBe(k, word[k]));
    FirstViolationFromAt(true, clues, word, 0, k);
  }
}
