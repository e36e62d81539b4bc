/**
 * Model of `clue` in src/clue.ts: the two-pass scorer that marks each letter
 * of a guess Correct, Elsewhere or Absent against the target, with the
 * per-letter accounting that keeps repeated letters from being over-credited.
 */
module Clues {
  import opened Wrappers
  import opened Util

  /** The clue kinds, in the order of their enum values (Absent < Elsewhere < Correct). */
  datatype Clue = Absent | Elsewhere | Correct

  function Rank(c: Clue): nat
  {
    match c
    case Absent => 0
    case Elsewhere => 1
    case Correct => 2
  }

  /** `clueClass`: the CSS class of a clue kind. */
  function ClueClass(c: Clue): string
  {
    if c == Absent then "letter-absent"
    else if c == Elsewhere then "letter-elsewhere"
    else "letter-correct"
  }

  /** `clueWord`: the spoken word for a clue kind. */
  function ClueWord(c: Clue): string
  {
    if c == Absent then "no"
    else if c == Elsewhere then "elsewhere"
    else "correct"
  }

  /** Different clue kinds get different words and different classes. */
  lemma ClueNamesDistinct(c: Clue, d: Clue)
    requires c != d
    ensures ClueWord(c) != ClueWord(d)
    ensures ClueClass(c) != ClueClass(d)
  {
    assert |ClueWord(Absent)| == 2 && |ClueWord(Elsewhere)| == 9 && |ClueWord(Correct)| == 7;
    assert |ClueClass(Absent)| == 13 && |ClueClass(Elsewhere)| == 16 && |ClueClass(Correct)| == 14;
  }

  datatype CluedLetter = CluedLetter(clue: Clue, letter: char)

  /** `describeClue`: "L word" per letter, joined with ", ". */
  function DescribeClue(cs: seq<CluedLetter>): (s: string)
    ensures s == "" <==> cs == []
  {
    if cs == [] then ""
    else
      var head := [ToUpper(cs[0].letter)] + " " + ClueWord(cs[0].clue);
      if |cs| == 1 then head else head + ", " + DescribeClue(cs[1..])
  }

  /** Position i holds the same letter in word and target (a missing letter matches nothing). */
  predicate Matches(word: string, target: string, i: nat)
  {
    i < |word| && i < |target| && word[i] == target[i]
  }

  /** The first pass: the target letters at positions the guess does not match, from position i on. */
  function ElusiveFrom(word: string, target: string, i: nat): multiset<char>
    decreases |target| - i
  {
    if i >= |target| then multiset{}
    else (if Matches(word, target, i) then multiset{} else multiset{target[i]}) + ElusiveFrom(word, target, i + 1)
  }

  /**
   * The second pass at position i, with `pool` the leftover target letters
   * not yet used up: a match is Correct, a letter still in the pool is
   * Elsewhere, anything else is Absent.
   */
  function ClueAt(word: string, target: string, i: nat, pool: multiset<char>): Clue
    requires i < |word|
  {
    if Matches(word, target, i) then Correct
    else if word[i] in pool then Elsewhere
    else Absent
  }

  /** An Elsewhere uses up one copy of its letter. */
  function PoolAfter(word: string, target: string, i: nat, pool: multiset<char>): multiset<char>
    requires i < |word|
  {
    if ClueAt(word, target, i, pool) == Elsewhere then pool - multiset{word[i]} else pool
  }

  /** The second pass from position i on. */
  function ScoreFrom(word: string, target: string, i: nat, pool: multiset<char>): (r: seq<CluedLetter>)
    requires i <= |word|
    ensures |r| == |word| - i
    decreases |word| - i
  {
    if i == |word| then []
    else
      [CluedLetter(ClueAt(word, target, i, pool), word[i])]
        + ScoreFrom(word, target, i + 1, PoolAfter(word, target, i, pool))
  }

  /** The clue of `word` against `target`. */
  function ClueOf(word: string, target: string): (r: seq<CluedLetter>)
    ensures |r| == |word|
  {
    ScoreFrom(word, target, 0, ElusiveFrom(word, target, 0))
  }

  lemma {:induction false} ScoreFromShape(word: string, target: string, i: nat, pool: multiset<char>)
    requires i <= |word|
    ensures forall k :: 0 <= k < |word| - i ==> ScoreFrom(word, target, i, pool)[k].letter == word[i + k]
    ensures forall k :: 0 <= k < |word| - i ==>
      (ScoreFrom(word, target, i, pool)[k].clue == Correct <==> Matches(word, target, i + k))
    decreases |word| - i
  {
    if i < |word| {
      var rest := ScoreFrom(word, target, i + 1, PoolAfter(word, target, i, pool));
      ScoreFromShape(word, target, i + 1, PoolAfter(word, target, i, pool));
      var r := ScoreFrom(word, target, i, pool);
      assert r == [CluedLetter(ClueAt(word, target, i, pool), word[i])] + rest;
      forall k | 1 <= k < |r|
        ensures r[k].letter == word[i + k] && (r[k].clue == Correct <==> Matches(word, target, i + k))
      {
        assert r[k] == rest[k - 1];
        assert rest[k - 1].letter == word[i + 1 + (k - 1)];
        assert rest[k - 1].clue == Correct <==> Matches(word, target, i + 1 + (k - 1));
      }
    }
  }

  /**
   * One entry per letter of the guess, in order, carrying that letter; an
   * entry is Correct exactly when the target has the same letter there.
   */
  lemma ClueShape(word: string, target: string)
    ensures |ClueOf(word, target)| == |word|
    ensures forall i :: 0 <= i < |word| ==> ClueOf(word, target)[i].letter == word[i]
    ensures forall i :: 0 <= i < |word| ==>
      (ClueOf(word, target)[i].clue == Correct <==> i < |target| && target[i] == word[i])
  {
    ScoreFromShape(word, target, 0, ElusiveFrom(word, target, 0));
  }

  /** A word clued against itself is all Correct. */
  lemma SelfClueCorrect(word: string)
    ensures forall i :: 0 <= i < |word| ==> ClueOf(word, word)[i] == CluedLetter(Correct, word[i])
  {
    ClueShape(word, word);
  }

  // ---------------------------------------------------------------------
  // Duplicate-letter accounting

  /** `clues.filter((c) => c.letter === letter && c.clue !== Clue.Absent).length`. */
  function ClueCount(cs: seq<CluedLetter>, letter: char): (n: nat)
    ensures n <= |cs|
  {
    if cs == [] then 0
    else (if cs[0].letter == letter && cs[0].clue != Absent then 1 else 0) + ClueCount(cs[1..], letter)
  }

  /** The number of Elsewhere marks on `letter`. */
  function ElsewhereCount(cs: seq<CluedLetter>, letter: char): nat
  {
    if cs == [] then 0
    else (if cs[0].letter == letter && cs[0].clue == Elsewhere then 1 else 0) + ElsewhereCount(cs[1..], letter)
  }

  /** The number of positions from i on where guess and target both hold `letter`. */
  function MatchCount(word: string, target: string, i: nat, letter: char): nat
    decreases |word| - i
  {
    if i >= |word| || i >= |target| then 0
    else (if Matches(word, target, i) && word[i] == letter then 1 else 0) + MatchCount(word, target, i + 1, letter)
  }

  /** Every copy of a letter in the target is either matched in place or left over. */
  lemma {:induction false} ElusiveAccounts(word: string, target: string, i: nat, letter: char)
    requires i <= |target|
    ensures ElusiveFrom(word, target, i)[letter] + MatchCount(word, target, i, letter) == Count(target[i..], letter)
    decreases |target| - i
  {
    if i < |target| {
      ElusiveAccounts(word, target, i + 1, letter);
      assert target[i..][1..] == target[i + 1..];
    }
  }

  /** From position i on, the marks on a letter are bounded by its matches there plus its leftover copies. */
  lemma {:induction false} MarksWithinPool(word: string, target: string, i: nat, pool: multiset<char>, letter: char)
    requires i <= |word|
    ensures ClueCount(ScoreFrom(word, target, i, pool), letter) <= MatchCount(word, target, i, letter) + pool[letter]
    decreases |word| - i
  {
    if i < |word| {
      var r := ScoreFrom(word, target, i, pool);
      MarksWithinPool(word, target, i + 1, PoolAfter(word, target, i, pool), letter);
      assert r[1..] == ScoreFrom(word, target, i + 1, PoolAfter(word, target, i, pool));
    }
  }

  /**
   * No letter is credited (Correct or Elsewhere) more often than it occurs in
   * the target: every leftover copy is used up at most once.
   */
  lemma ClueCountBound(word: string, target: string, letter: char)
    ensures ClueCount(ClueOf(word, target), letter) <= multiset(target)[letter]
  {
    MarksWithinPool(word, target, 0, ElusiveFrom(word, target, 0), letter);
    ElusiveAccounts(word, target, 0, letter);
    assert target[0..] == target;
    CountIsMultiplicity(target, letter);
  }

  /** The marks on a letter never exceed its copies in the guess either. */
  lemma {:induction false} ClueCountWithinWord(cs: seq<CluedLetter>, word: string, letter: char)
    requires |cs| == |word| && forall i :: 0 <= i < |cs| ==> cs[i].letter == word[i]
    ensures ClueCount(cs, letter) <= Count(word, letter)
  {
    if cs != [] {
      ClueCountWithinWord(cs[1..], word[1..], letter);
    }
  }

  /** The Elsewhere marks on `letter` in the first k entries of `[first] + rest`. */
  lemma ElsewhereCountCons(first: CluedLetter, rest: seq<CluedLetter>, k: nat, letter: char)
    requires 0 < k <= |rest| + 1
    ensures ElsewhereCount(([first] + rest)[..k], letter) ==
      (if first.letter == letter && first.clue == Elsewhere then 1 else 0) + ElsewhereCount(rest[..k - 1], letter)
  {
    var r := [first] + rest;
    assert r[..k][0] == first;
    assert r[..k][1..] == rest[..k - 1];
  }

  /** Position i spends a copy of its letter exactly when it is marked Elsewhere. */
  lemma PoolAfterCount(word: string, target: string, i: nat, pool: multiset<char>, letter: char)
    requires i < |word|
    ensures PoolAfter(word, target, i, pool)[letter] ==
      pool[letter] - (if word[i] == letter && ClueAt(word, target, i, pool) == Elsewhere then 1 else 0)
  {
  }

  /**
   * The rule the second pass follows at position i + k: Elsewhere exactly when
   * the position does not match and fewer Elsewhere marks on its letter come
   * before it (from position i on) than the pool held at position i.
   */
  predicate ElsewhereRule(word: string, target: string, i: nat, pool: multiset<char>, k: nat)
    requires i + k < |word|
  {
    var r := ScoreFrom(word, target, i, pool);
    r[k].clue == Elsewhere <==>
      !Matches(word, target, i + k) && ElsewhereCount(r[..k], word[i + k]) < pool[word[i + k]]
  }

  /** The rule at position i + k, from fewer entries: position i may have used up one copy. */
  lemma ElsewhereStep(word: string, target: string, i: nat, pool: multiset<char>, k: nat)
    requires 0 < k && i + k < |word|
    requires ElsewhereRule(word, target, i + 1, PoolAfter(word, target, i, pool), k - 1)
    ensures ElsewhereRule(word, target, i, pool, k)
  {
    var r := ScoreFrom(word, target, i, pool);
    var pool' := PoolAfter(word, target, i, pool);
    var first := CluedLetter(ClueAt(word, target, i, pool), word[i]);
    var rest := ScoreFrom(word, target, i + 1, pool');
    var letter := word[i + k];
    var used := if first.letter == letter && first.clue == Elsewhere then 1 else 0;
    assert r == [first] + rest;
    assert r[k] == rest[k - 1];
    assert i + 1 + (k - 1) == i + k;
    assert ElsewhereCount(r[..k], letter) == used + ElsewhereCount(rest[..k - 1], letter) by {
      ElsewhereCountCons(first, rest, k, letter);
    }
    assert pool'[letter] == pool[letter] - used by {
      PoolAfterCount(word, target, i, pool, letter);
    }
  }

  /** The first position is Elsewhere exactly when it does not match and its letter is in the pool. */
  lemma ElsewhereFirst(word: string, target: string, i: nat, pool: multiset<char>)
    requires i < |word|
    ensures ElsewhereRule(word, target, i, pool, 0)
  {
    assert ScoreFrom(word, target, i, pool)[..0] == [];
  }

  lemma {:induction false} ElsewhereInOrder(word: string, target: string, i: nat, pool: multiset<char>, k: nat)
    requires i + k < |word|
    ensures ElsewhereRule(word, target, i, pool, k)
    decreases k
  {
    if k == 0 {
      ElsewhereFirst(word, target, i, pool);
    } else {
      ElsewhereInOrder(word, target, i + 1, PoolAfter(word, target, i, pool), k - 1);
      ElsewhereStep(word, target, i, pool, k);
    }
  }

  /**
   * Elsewhere is handed out left to right: a non-matching position is
   * Elsewhere exactly when fewer Elsewhere marks on its letter come before it
   * than there are leftover (unmatched) copies of that letter in the target.
   */
  lemma ElsewhereLeftToRight(word: string, target: string, i: nat)
    requires i < |word|
    ensures ClueOf(word, target)[i].clue == Elsewhere <==>
      !(i < |target| && target[i] == word[i]) &&
      ElsewhereCount(ClueOf(word, target)[..i], word[i]) < ElusiveFrom(word, target, 0)[word[i]]
  {
    ElsewhereInOrder(word, target, 0, ElusiveFrom(word, target, 0), i);
  }

  // ---------------------------------------------------------------------
  // The imperative scorer

  /** The leftover letters of the `elusive` array; None is the "" written over a used-up copy. */
  function Leftover(e: seq<Option<char>>): multiset<char>
  {
    if e == [] then multiset{}
    else LeftoverOf(e[0]) + Leftover(e[1..])
  }

  lemma {:induction false} LeftoverAppend(e: seq<Option<char>>, c: char)
    ensures Leftover(e + [Some(c)]) == Leftover(e) + multiset{c}
  {
    if e != [] {
      assert (e + [Some(c)])[1..] == e[1..] + [Some(c)];
      LeftoverAppend(e[1..], c);
    } else {
      assert Leftover([Some(c)]) == multiset{c} + Leftover([]);
    }
  }

  lemma {:induction false} LeftoverHas(e: seq<Option<char>>, c: char)
    ensures Some(c) in e <==> c in Leftover(e)
  {
    if e != [] {
      LeftoverHas(e[1..], c);
      assert e == [e[0]] + e[1..];
    }
  }

  function LeftoverOf(x: Option<char>): multiset<char>
  {
    match x case Some(c) => multiset{c} case None => multiset{}
  }

  lemma {:induction false} LeftoverUseUp(e: seq<Option<char>>, j: nat)
    requires j < |e| && e[j].Some?
    ensures Leftover(e[j := None]) == Leftover(e) - multiset{e[j].value}
  {
    var c := e[j].value;
    if j == 0 {
      assert e[j := None][1..] == e[1..];
    } else {
      var tail := e[1..];
      assert e[j := None] == [e[0]] + tail[j - 1 := None];
      assert Leftover(e[j := None]) == LeftoverOf(e[0]) + Leftover(tail[j - 1 := None]);
      LeftoverUseUp(tail, j - 1);
      assert c in Leftover(tail) by {
        assert tail[j - 1] == Some(c);
        LeftoverHas(tail, c);
      }
    }
  }

  lemma AppendAssociative<T>(a: seq<T>, b: seq<T>, c: seq<T>)
    ensures (a + b) + c == a + (b + c)
  {
  }

  /** The first pass of `clue`: push every target letter the guess does not match. */
  method CollectElusive(word: string, target: string) returns (elusive: seq<Option<char>>)
    ensures Leftover(elusive) == ElusiveFrom(word, target, 0)
  {
    elusive := [];
    for i := 0 to |target|
      invariant Leftover(elusive) + ElusiveFrom(word, target, i) == ElusiveFrom(word, target, 0)
    {
      if i >= |word| || word[i] != target[i] {
        LeftoverAppend(elusive, target[i]);
        elusive := elusive + [Some(target[i])];
      }
    }
  }

  /** `clue(word, target)`: the first pass, then the second pass that uses up leftover copies. */
  method MakeClue(word: string, target: string) returns (r: seq<CluedLetter>)
    ensures r == ClueOf(word, target)
  {
    var elusive := CollectElusive(word, target);
    r := [];
    for i := 0 to |word|
      invariant r + ScoreFrom(word, target, i, Leftover(elusive)) == ClueOf(word, target)
    {
      ghost var pool := Leftover(elusive);
      var letter := word[i];
      var c: Clue;
      var j := IndexOf(elusive, Some(letter));
      LeftoverHas(elusive, letter);
      if i < |target| && target[i] == letter {
        c := Correct;
      } else if j > -1 {
        // "use it up" so that it is not clued twice
        LeftoverUseUp(elusive, j);
        elusive := elusive[j := None];
        c := Elsewhere;
      } else {
        c := Absent;
      }
      assert c == ClueAt(word, target, i, pool);
      assert Leftover(elusive) == PoolAfter(word, target, i, pool);
      ghost var rest := ScoreFrom(word, target, i + 1, Leftover(elusive));
      assert ScoreFrom(word, target, i, pool) == [CluedLetter(c, letter)] + rest;
      ghost var r0 := r;
      r := r + [CluedLetter(c, letter)];
      AppendAssociative(r0, [CluedLetter(c, letter)], rest);
    }
  }
}
