/**
 * The pure bookkeeping of src/Game.tsx around the rule engine: the
 * allowed-letter strings and their narrowing after a guess, the count of
 * dictionary words still possible, the URL and length clamps, and the
 * per-letter best clue shown on the keyboard.
 */
module Board {
  import opened Wrappers
  import opened Util
  import opened Messages
  import opened Clues
  import opened Rules
  import opened Allowed

  const MinLength: nat := 4
  const MaxLength: nat := 11
  /** The string "abcdefghijklmnopqrstuvwxyz", written by character code. */
  const Alphabet: string := seq(26, i requires 0 <= i < 26 => ('a' as int + i) as char)

  predicate IsLower(c: char) { 'a' <= c <= 'z' }

  predicate AllLower(s: string) { forall i :: 0 <= i < |s| ==> IsLower(s[i]) }

  predicate NoDup(s: string) { forall i, j :: 0 <= i < j < |s| ==> s[i] != s[j] }

  /** The alphabet string holds each lowercase letter exactly once. */
  lemma AlphabetLetters()
    ensures |Alphabet| == 26 && NoDup(Alphabet)
    ensures forall c :: c in Alphabet <==> IsLower(c)
  {
    forall c | IsLower(c) ensures c in Alphabet
    {
      assert Alphabet[c as int - 'a' as int] == c;
    }
  }

  // ---------------------------------------------------------------------
  // Allowed letters

  /** `fullyAllowed(n)`: every position starts out allowing the whole alphabet. */
  function FullyAllowed(n: nat): (r: seq<string>)
    ensures |r| == n
  {
    seq(n, _ => Alphabet)
  }

  /** Each of the n positions allows exactly the lowercase letters, each once. */
  lemma FullyAllowedMeaning(n: nat)
    ensures forall i :: 0 <= i < n ==>
      NoDup(FullyAllowed(n)[i]) && (forall c :: c in FullyAllowed(n)[i] <==> IsLower(c))
  {
    AlphabetLetters();
  }

  /** The alphabet spelled out. */
  lemma AlphabetSpelled()
    ensures Alphabet == "abcdefghijklmnopqrstuvwxyz"
  {
  }

  /** `s.replace(c, '')` with a one-letter pattern: only the first copy of c goes. */
  function RemoveFirst(s: string, c: char): string
  {
    var k := IndexOf(s, c);
    if k == -1 then s else s[..k] + s[k + 1..]
  }

  /** Removing a letter that is absent changes nothing; otherwise exactly one copy goes. */
  lemma RemoveFirstMeaning(s: string, c: char)
    ensures c !in s ==> RemoveFirst(s, c) == s
    ensures c in s ==> |RemoveFirst(s, c)| == |s| - 1
    ensures c in s ==> multiset(RemoveFirst(s, c)) == multiset(s) - multiset{c}
  {
    var k := IndexOf(s, c);
    if k != -1 {
      assert s == s[..k] + [c] + s[k + 1..];
    }
  }

  /** Without repeated letters, removing a letter removes it altogether and keeps the rest unrepeated. */
  lemma RemoveFirstNoDup(s: string, c: char)
    requires NoDup(s)
    ensures c !in RemoveFirst(s, c) && NoDup(RemoveFirst(s, c))
  {
    var k := IndexOf(s, c);
    if k != -1 {
      var r := s[..k] + s[k + 1..];
      assert RemoveFirst(s, c) == r;
      assert forall i :: 0 <= i < |r| ==> r[i] == s[if i < k then i else i + 1];
      forall i | 0 <= i < |r| ensures r[i] != c
      {
        assert r[i] == s[if i < k then i else i + 1];
      }
    }
  }

  /** The updater's step for one position. */
  function Narrow(allowed: string, c: CluedLetter): string
  {
    if c.clue == Correct then [c.letter] else RemoveFirst(allowed, c.letter)
  }

  /** The allowed strings after a guess with clue `clues` (src/Game.tsx:250-260). */
  function UpdateAllowed(allowedLetters: seq<string>, clues: seq<CluedLetter>): (r: seq<string>)
    requires |clues| <= |allowedLetters|
    ensures |r| == |allowedLetters|
  {
    seq(|allowedLetters|, i requires 0 <= i < |allowedLetters| =>
      if i < |clues| then Narrow(allowedLetters[i], clues[i]) else allowedLetters[i])
  }

  /**
   * Each position is handled on its own: a green position becomes exactly
   * the guessed letter, any other guessed position loses (the first copy
   * of) the guessed letter, and positions past the guess are unchanged.
   */
  lemma UpdateAllowedPositions(allowedLetters: seq<string>, guess: string, target: string)
    requires |guess| <= |allowedLetters|
    ensures var r := UpdateAllowed(allowedLetters, ClueOf(guess, target));
      forall i :: 0 <= i < |allowedLetters| ==>
        r[i] == (if i >= |guess| then allowedLetters[i]
                 else if i < |target| && target[i] == guess[i] then [guess[i]]
                 else RemoveFirst(allowedLetters[i], guess[i]))
  {
    ClueShape(guess, target);
  }

  predicate AllNoDup(allowedLetters: seq<string>)
  {
    forall i :: 0 <= i < |allowedLetters| ==> NoDup(allowedLetters[i])
  }

  /** Updating keeps every string free of repeats, and applying the same clue twice changes nothing more. */
  lemma UpdateAllowedIdempotent(allowedLetters: seq<string>, clues: seq<CluedLetter>)
    requires |clues| <= |allowedLetters| && AllNoDup(allowedLetters)
    ensures AllNoDup(UpdateAllowed(allowedLetters, clues))
    ensures UpdateAllowed(UpdateAllowed(allowedLetters, clues), clues) == UpdateAllowed(allowedLetters, clues)
  {
    var once := UpdateAllowed(allowedLetters, clues);
    forall i | 0 <= i < |clues|
      ensures NoDup(once[i]) && Narrow(once[i], clues[i]) == once[i]
    {
      RemoveFirstNoDup(allowedLetters[i], clues[i].letter);
    }
  }

  /**
   * For a guess that passed the allowed-letter check every string only
   * shrinks, and the target's letter at each position is never removed.
   */
  lemma UpdateAllowedShrinks(allowedLetters: seq<string>, guess: string, target: string)
    requires |guess| <= |allowedLetters|
    requires forall i :: 0 <= i < |guess| ==> guess[i] in allowedLetters[i]
    ensures var r := UpdateAllowed(allowedLetters, ClueOf(guess, target));
      forall i, c :: 0 <= i < |allowedLetters| && c in r[i] ==> c in allowedLetters[i]
  {
    var r := UpdateAllowed(allowedLetters, ClueOf(guess, target));
    UpdateAllowedPositions(allowedLetters, guess, target);
    forall i, c | 0 <= i < |guess| && c in r[i] ensures c in allowedLetters[i]
    {
      if !(i < |target| && target[i] == guess[i]) {
        RemoveFirstMeaning(allowedLetters[i], guess[i]);
        assert multiset(r[i])[c] > 0;
      }
    }
  }

  /** The target's letter at a position stays allowed there. */
  lemma UpdateKeepsTarget(allowedLetters: seq<string>, guess: string, target: string)
    requires |guess| <= |allowedLetters|
    ensures var r := UpdateAllowed(allowedLetters, ClueOf(guess, target));
      forall i :: 0 <= i < |allowedLetters| && i < |target| && target[i] in allowedLetters[i] ==> target[i] in r[i]
  {
    var r := UpdateAllowed(allowedLetters, ClueOf(guess, target));
    UpdateAllowedPositions(allowedLetters, guess, target);
    forall i | 0 <= i < |guess| && i < |target| && target[i] in allowedLetters[i] && target[i] != guess[i]
      ensures target[i] in r[i]
    {
      RemoveFirstMeaning(allowedLetters[i], guess[i]);
      assert multiset(allowedLetters[i])[target[i]] > 0;
      assert multiset(r[i])[target[i]] > 0;
    }
  }

  /**
   * Once a position is down to one letter, a guess that passed the
   * allowed-letter check and whose target still has that letter there leaves
   * it as it is.
   */
  lemma UpdateKeepsSingleton(allowedLetters: seq<string>, guess: string, target: string, i: nat)
    requires |guess| == |allowedLetters| && i < |guess| && |allowedLetters[i]| == 1
    requires guess[i] in allowedLetters[i]
    requires i < |target| && target[i] in allowedLetters[i]
    ensures UpdateAllowed(allowedLetters, ClueOf(guess, target))[i] == allowedLetters[i]
  {
    UpdateAllowedPositions(allowedLetters, guess, target);
    assert allowedLetters[i] == [allowedLetters[i][0]];
  }

  /** Removing a letter whose first copy is at k. */
  lemma RemoveFirstAt(s: string, c: char, k: nat)
    requires k < |s| && s[k] == c && c !in s[..k]
    ensures RemoveFirst(s, c) == s[..k] + s[k + 1..]
  {
  }

  /** Taking out the k-th letter of the alphabet. */
  lemma RemovedFromAlphabet(k: nat)
    requires k < 26
    ensures RemoveFirst(Alphabet, Alphabet[k]) == Alphabet[..k] + Alphabet[k + 1..]
  {
    AlphabetLetters();
    assert Alphabet[k] !in Alphabet[..k];
    RemoveFirstAt(Alphabet, Alphabet[k], k);
  }

  /** The allowed strings after a history of guesses, starting from `start`. */
  function AllowedAfter(start: seq<string>, guesses: seq<string>, target: string): (r: seq<string>)
    requires forall k :: 0 <= k < |guesses| ==> |guesses[k]| <= |start|
    ensures |r| == |start|
    decreases |guesses|
  {
    if guesses == [] then start
    else
      var front := guesses[..|guesses| - 1];
      assert forall k :: 0 <= k < |front| ==> front[k] == guesses[k];
      UpdateAllowed(AllowedAfter(start, front, target), ClueOf(guesses[|guesses| - 1], target))
  }

  // ---------------------------------------------------------------------
  // Remaining words

  /** A word the player may still enter: right length, every letter allowed, no rule broken. */
  predicate IsCandidate(word: string, wordLength: nat, allowedLetters: seq<string>, difficulty: Difficulty,
                        guesses: seq<string>, target: string)
    requires wordLength <= |allowedLetters|
  {
    |word| == wordLength && LetterProblems(word, allowedLetters) == []
    && Violations(difficulty, guesses, target, word) == []
  }

  /** The dictionary words `countRemainingWords` keeps, in dictionary order. */
  function Remaining(dictionary: seq<string>, wordLength: nat, allowedLetters: seq<string>, difficulty: Difficulty,
                     guesses: seq<string>, target: string): (r: seq<string>)
    requires wordLength <= |allowedLetters|
    ensures |r| <= |dictionary|
  {
    if dictionary == [] then []
    else
      var rest := Remaining(dictionary[1..], wordLength, allowedLetters, difficulty, guesses, target);
      if IsCandidate(dictionary[0], wordLength, allowedLetters, difficulty, guesses, target) then [dictionary[0]] + rest
      else rest
  }

  /** The words kept are exactly the dictionary's candidates. */
  lemma {:induction false} RemainingMeaning(dictionary: seq<string>, wordLength: nat, allowedLetters: seq<string>,
                                            difficulty: Difficulty, guesses: seq<string>, target: string)
    requires wordLength <= |allowedLetters|
    ensures forall w :: w in Remaining(dictionary, wordLength, allowedLetters, difficulty, guesses, target) <==>
      w in dictionary && IsCandidate(w, wordLength, allowedLetters, difficulty, guesses, target)
  {
    if dictionary != [] {
      RemainingMeaning(dictionary[1..], wordLength, allowedLetters, difficulty, guesses, target);
      assert dictionary == [dictionary[0]] + dictionary[1..];
    }
  }

  /** Every candidate is kept as often as the dictionary lists it, and nothing else is. */
  lemma {:induction false} RemainingCounts(dictionary: seq<string>, wordLength: nat, allowedLetters: seq<string>,
                                           difficulty: Difficulty, guesses: seq<string>, target: string)
    requires wordLength <= |allowedLetters|
    ensures forall w ::
      multiset(Remaining(dictionary, wordLength, allowedLetters, difficulty, guesses, target))[w] ==
        if IsCandidate(w, wordLength, allowedLetters, difficulty, guesses, target) then multiset(dictionary)[w] else 0
  {
    if dictionary != [] {
      RemainingCounts(dictionary[1..], wordLength, allowedLetters, difficulty, guesses, target);
      assert dictionary == [dictionary[0]] + dictionary[1..];
      assert multiset(dictionary) == multiset{dictionary[0]} + multiset(dictionary[1..]);
    }
  }

  /** `countRemainingWords`. */
  function CountRemaining(dictionary: seq<string>, wordLength: nat, allowedLetters: seq<string>, difficulty: Difficulty,
                          guesses: seq<string>, target: string): nat
    requires wordLength <= |allowedLetters|
  {
    |Remaining(dictionary, wordLength, allowedLetters, difficulty, guesses, target)|
  }

  /** The dictionary words of length n made of lowercase letters only. */
  function LowerWords(dictionary: seq<string>, n: nat): seq<string>
  {
    if dictionary == [] then []
    else if |dictionary[0]| == n && AllLower(dictionary[0]) then [dictionary[0]] + LowerWords(dictionary[1..], n)
    else LowerWords(dictionary[1..], n)
  }

  /** Before any guess, the candidates are the lowercase words of the length, whatever the target. */
  lemma {:induction false} RemainingInitially(dictionary: seq<string>, n: nat, difficulty: Difficulty, target: string)
    ensures Remaining(dictionary, n, FullyAllowed(n), difficulty, [], target) == LowerWords(dictionary, n)
  {
    if dictionary != [] {
      RemainingInitially(dictionary[1..], n, difficulty, target);
      var w := dictionary[0];
      if |w| == n {
        LetterProblemsMeaning(w, FullyAllowed(n));
        FullyAllowedMeaning(n);
      }
    }
  }

  /** The count shown before the first guess is the number of lowercase words of that length. */
  lemma CountInitially(dictionary: seq<string>, n: nat, difficulty: Difficulty, target: string)
    ensures CountRemaining(dictionary, n, FullyAllowed(n), difficulty, [], target) == |LowerWords(dictionary, n)|
  {
    RemainingInitially(dictionary, n, difficulty, target);
  }

  // ---------------------------------------------------------------------
  // Clamps

  /** What `urlParam` and `Number` make of a query parameter: missing or empty, not a number, or a whole number. */
  datatype UrlParam = NoParam | NotANumber | Number(value: int)

  /** `parseUrlLength`. */
  function ParseUrlLength(p: UrlParam): (n: int)
    ensures MinLength <= n <= MaxLength
    ensures p.Number? && MinLength <= p.value <= MaxLength ==> n == p.value
    ensures !(p.Number? && MinLength <= p.value <= MaxLength) ==> n == 5
  {
    match p
    case NoParam => 5
    case NotANumber => 5
    case Number(length) => if length >= MinLength && length <= MaxLength then length else 5
  }

  /** `parseUrlGameNumber`. */
  function ParseUrlGameNumber(p: UrlParam): (n: int)
    ensures 1 <= n <= 1000
    ensures p.Number? && 1 <= p.value <= 1000 ==> n == p.value
    ensures !(p.Number? && 1 <= p.value <= 1000) ==> n == 1
  {
    match p
    case NoParam => 1
    case NotANumber => 1
    case Number(gameNumber) => if gameNumber >= 1 && gameNumber <= 1000 then gameNumber else 1
  }

  /** The length `startNextGame` carries over. */
  function ClampLength(wordLength: int): (n: nat)
    ensures MinLength <= n <= MaxLength
    ensures MinLength <= wordLength <= MaxLength ==> n == wordLength
    ensures !(MinLength <= wordLength <= MaxLength) ==> n == 5
  {
    if wordLength >= MinLength && wordLength <= MaxLength then wordLength else 5
  }

  // ---------------------------------------------------------------------
  // Keyboard colours

  /** One step of the `letterInfo` loop: keep the better clue per letter. */
  function Better(info: map<char, Clue>, c: CluedLetter): map<char, Clue>
  {
    if c.letter !in info || Rank(c.clue) > Rank(info[c.letter]) then info[c.letter := c.clue] else info
  }

  /** The `letterInfo` map after a sequence of clued letters. */
  function MergeClues(cs: seq<CluedLetter>): map<char, Clue>
    decreases |cs|
  {
    if cs == [] then map[] else Better(MergeClues(cs[..|cs| - 1]), cs[|cs| - 1])
  }

  /** Merging one more clued letter. */
  lemma MergeCluesSnoc(cs: seq<CluedLetter>, c: CluedLetter)
    ensures MergeClues(cs + [c]) == Better(MergeClues(cs), c)
  {
    assert (cs + [c])[..|cs|] == cs;
  }

  /** The clued letters of the locked-in rows, row by row. */
  function LockedClues(guesses: seq<string>, target: string): seq<CluedLetter>
    decreases |guesses|
  {
    if guesses == [] then []
    else LockedClues(guesses[..|guesses| - 1], target) + ClueOf(guesses[|guesses| - 1], target)
  }

  /** A clued letter belongs to the locked-in rows exactly when it is in the clue of one of the guesses. */
  lemma {:induction false} LockedCluesMembers(guesses: seq<string>, target: string)
    ensures forall x :: x in LockedClues(guesses, target) <==>
      exists n :: 0 <= n < |guesses| && x in ClueOf(guesses[n], target)
    decreases |guesses|
  {
    if guesses != [] {
      var front := guesses[..|guesses| - 1];
      LockedCluesMembers(front, target);
      assert forall n :: 0 <= n < |front| ==> front[n] == guesses[n];
      forall x | x in LockedClues(guesses, target)
        ensures exists n :: 0 <= n < |guesses| && x in ClueOf(guesses[n], target)
      {
        if x !in LockedClues(front, target) {
          assert x in ClueOf(guesses[|guesses| - 1], target);
        }
      }
    }
  }

  /** The merged map has an entry exactly for the letters that occur. */
  lemma {:induction false} MergeCluesKeys(cs: seq<CluedLetter>)
    ensures forall c :: c in MergeClues(cs) <==> exists k :: 0 <= k < |cs| && cs[k].letter == c
    decreases |cs|
  {
    if cs != [] {
      var front := cs[..|cs| - 1];
      MergeCluesKeys(front);
      assert forall k :: 0 <= k < |front| ==> front[k] == cs[k];
    }
  }

  /** No letter got a better clue than its entry. */
  lemma {:induction false} MergeCluesBound(cs: seq<CluedLetter>)
    ensures forall k :: 0 <= k < |cs| ==>
      cs[k].letter in MergeClues(cs) && Rank(cs[k].clue) <= Rank(MergeClues(cs)[cs[k].letter])
    decreases |cs|
  {
    if cs != [] {
      var front := cs[..|cs| - 1];
      MergeCluesBound(front);
      assert forall k :: 0 <= k < |front| ==> front[k] == cs[k];
    }
  }

  /** Every entry is a clue the letter actually got. */
  lemma {:induction false} MergeCluesAttained(cs: seq<CluedLetter>)
    ensures forall c :: c in MergeClues(cs) ==> CluedLetter(MergeClues(cs)[c], c) in cs
    decreases |cs|
  {
    if cs != [] {
      var front := cs[..|cs| - 1];
      MergeCluesAttained(front);
      var last := cs[|cs| - 1];
      var m := MergeClues(cs);
      assert m == Better(MergeClues(front), last);
      assert cs == front + [last];
      forall c | c in m ensures CluedLetter(m[c], c) in cs
      {
        if c != last.letter || m[c] != last.clue {
          assert c in MergeClues(front) && m[c] == MergeClues(front)[c];
          assert CluedLetter(m[c], c) in front;
        }
      }
    }
  }

  /**
   * The merged map has an entry exactly for the letters that occur, and the
   * entry is the best clue (Absent < Elsewhere < Correct) that letter got.
   */
  lemma MergeCluesIsBest(cs: seq<CluedLetter>)
    ensures forall c :: c in MergeClues(cs) <==> exists k :: 0 <= k < |cs| && cs[k].letter == c
    ensures forall k :: 0 <= k < |cs| ==> Rank(cs[k].clue) <= Rank(MergeClues(cs)[cs[k].letter])
    ensures forall c :: c in MergeClues(cs) ==> CluedLetter(MergeClues(cs)[c], c) in cs
  {
    MergeCluesKeys(cs);
    MergeCluesBound(cs);
    MergeCluesAttained(cs);
  }

  /** One step of the inner loop: merging the j-th letter of a row. */
  lemma MergeStep(done: seq<CluedLetter>, row: seq<CluedLetter>, j: nat, before: map<char, Clue>, after: map<char, Clue>)
    requires j < |row| && before == MergeClues(done + row[..j]) && after == Better(before, row[j])
    ensures after == MergeClues(done + row[..j + 1])
  {
    MergeCluesSnoc(done + row[..j], row[j]);
    assert done + row[..j + 1] == (done + row[..j]) + [row[j]];
  }

  /** One step of the outer loop: the locked-in rows grow by the clue of row n. */
  lemma LockedStep(guesses: seq<string>, target: string, n: nat)
    requires n < |guesses|
    ensures LockedClues(guesses[..n + 1], target) == LockedClues(guesses[..n], target) + ClueOf(guesses[n], target)
  {
    assert guesses[..n + 1][..n] == guesses[..n];
  }

  /** The `letterInfo` loop over the locked-in rows (src/Game.tsx:305-321). */
  method LetterInfo(guesses: seq<string>, target: string) returns (info: map<char, Clue>)
    ensures info == MergeClues(LockedClues(guesses, target))
  {
    info := map[];
    for n := 0 to |guesses|
      invariant info == MergeClues(LockedClues(guesses[..n], target))
    {
      var cluedLetters := MakeClue(guesses[n], target);
      ghost var done := LockedClues(guesses[..n], target);
      assert done + cluedLetters[..0] == done;
      for j := 0 to |cluedLetters|
        invariant info == MergeClues(done + cluedLetters[..j])
      {
        var c := cluedLetters[j];
        ghost var before := info;
        if c.letter !in info || Rank(c.clue) > Rank(info[c.letter]) {
          info := info[c.letter := c.clue];
        }
        MergeStep(done, cluedLetters, j, before, info);
      }
      assert cluedLetters[..|cluedLetters|] == cluedLetters;
      LockedStep(guesses, target, n);
    }
    assert guesses[..|guesses|] == guesses;
  }
}
