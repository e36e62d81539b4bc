/**
 * The worked examples of the help page (src/About.tsx) as facts about the
 * model: the clues of "word" and "dark" against "dart", the allowed-letter
 * strings after each, and the refusal of "walk".
 */
module HelpPage {
  import opened Clues
  import opened Messages
  import opened Allowed
  import opened Board

  /** The leftover letters of "dart" after matching against "word": R matched, D, A and T are left. */
  lemma WordDartLeftover()
    ensures ElusiveFrom("word", "dart", 0) == multiset{'d', 'a', 't'}
  {
    var w, t := "word", "dart";
    assert ElusiveFrom(w, t, 4) == multiset{};
    assert ElusiveFrom(w, t, 3) == multiset{'t'};
    assert ElusiveFrom(w, t, 2) == multiset{'t'};
    assert ElusiveFrom(w, t, 1) == multiset{'a', 't'};
  }

  /** The second pass over "word" with D, A and T left over. */
  lemma WordDartScore(pool: multiset<char>)
    requires pool == multiset{'d', 'a', 't'}
    ensures ScoreFrom("word", "dart", 0, pool) ==
      [CluedLetter(Absent, 'w'), CluedLetter(Absent, 'o'), CluedLetter(Correct, 'r'), CluedLetter(Elsewhere, 'd')]
  {
    var w, t := "word", "dart";
    assert w[0] == 'w' && w[1] == 'o' && w[2] == 'r' && w[3] == 'd';
    assert t[0] == 'd' && t[1] == 'a' && t[2] == 'r' && t[3] == 't';
    assert 'w' !in pool && 'o' !in pool && 'd' in pool;
    assert ClueAt(w, t, 0, pool) == Absent && PoolAfter(w, t, 0, pool) == pool;
    assert ClueAt(w, t, 1, pool) == Absent && PoolAfter(w, t, 1, pool) == pool;
    assert ClueAt(w, t, 2, pool) == Correct && PoolAfter(w, t, 2, pool) == pool;
    assert ClueAt(w, t, 3, pool) == Elsewhere;
    var last := ScoreFrom(w, t, 4, PoolAfter(w, t, 3, pool));
    assert last == [];
    assert ScoreFrom(w, t, 3, pool) == [CluedLetter(Elsewhere, 'd')] + last;
    assert ScoreFrom(w, t, 2, pool) == [CluedLetter(Correct, 'r')] + ScoreFrom(w, t, 3, pool);
    assert ScoreFrom(w, t, 1, pool) == [CluedLetter(Absent, 'o')] + ScoreFrom(w, t, 2, pool);
  }

  /** The first worked example of the help page: "word" against "dart". */
  lemma ClueExampleWord()
    ensures ClueOf("word", "dart") ==
      [CluedLetter(Absent, 'w'), CluedLetter(Absent, 'o'), CluedLetter(Correct, 'r'), CluedLetter(Elsewhere, 'd')]
  {
    WordDartLeftover();
    WordDartScore(ElusiveFrom("word", "dart", 0));
  }

  /** The second worked example: "dark" against "dart". */
  lemma ClueExampleDark()
    ensures ClueOf("dark", "dart") ==
      [CluedLetter(Correct, 'd'), CluedLetter(Correct, 'a'), CluedLetter(Correct, 'r'), CluedLetter(Absent, 'k')]
  {
    var w, t := "dark", "dart";
    var pool := multiset{'t'};
    assert ElusiveFrom(w, t, 3) == multiset{'t'};
    assert ElusiveFrom(w, t, 0) == pool;
    assert ScoreFrom(w, t, 3, pool) == [CluedLetter(Absent, 'k')];
    assert ScoreFrom(w, t, 2, pool) == [CluedLetter(Correct, 'r'), CluedLetter(Absent, 'k')];
    assert ScoreFrom(w, t, 1, pool) == [CluedLetter(Correct, 'a'), CluedLetter(Correct, 'r'), CluedLetter(Absent, 'k')];
  }

  /** Repeated letters: "abab" against "aabb" marks both middle letters Elsewhere. */
  lemma ClueExampleRepeated()
    ensures ClueOf("abab", "aabb") ==
      [CluedLetter(Correct, 'a'), CluedLetter(Elsewhere, 'b'), CluedLetter(Elsewhere, 'a'), CluedLetter(Correct, 'b')]
  {
    var w, t := "abab", "aabb";
    assert w[0] == 'a' && w[1] == 'b' && w[2] == 'a' && w[3] == 'b';
    assert t[0] == 'a' && t[1] == 'a' && t[2] == 'b' && t[3] == 'b';
    var pool := multiset{'a', 'b'};
    assert ElusiveFrom(w, t, 4) == multiset{};
    assert ElusiveFrom(w, t, 3) == multiset{};
    assert ElusiveFrom(w, t, 2) == multiset{'b'};
    assert ElusiveFrom(w, t, 1) == multiset{'a', 'b'};
    assert ElusiveFrom(w, t, 0) == pool;
    var pool1 := multiset{'a'};
    assert pool - multiset{'b'} == pool1;
    assert pool1 - multiset{'a'} == multiset{};
    assert ClueAt(w, t, 0, pool) == Correct && PoolAfter(w, t, 0, pool) == pool;
    assert ClueAt(w, t, 1, pool) == Elsewhere && PoolAfter(w, t, 1, pool) == pool1;
    assert ClueAt(w, t, 2, pool1) == Elsewhere && PoolAfter(w, t, 2, pool1) == multiset{};
    assert ClueAt(w, t, 3, multiset{}) == Correct;
    var last := ScoreFrom(w, t, 4, PoolAfter(w, t, 3, multiset{}));
    assert last == [];
    assert ScoreFrom(w, t, 3, multiset{}) == [CluedLetter(Correct, 'b')] + last;
    assert ScoreFrom(w, t, 2, pool1) == [CluedLetter(Elsewhere, 'a')] + ScoreFrom(w, t, 3, multiset{});
    assert ScoreFrom(w, t, 1, pool) == [CluedLetter(Elsewhere, 'b')] + ScoreFrom(w, t, 2, pool1);
    assert ScoreFrom(w, t, 0, pool) == [CluedLetter(Correct, 'a')] + ScoreFrom(w, t, 1, pool);
  }

  // The allowed strings printed in the help page's worked example.

  /** The alphabet without w. */
  const NoW: string := Alphabet[..22] + Alphabet[23..]
  /** The alphabet without o. */
  const NoO: string := Alphabet[..14] + Alphabet[15..]
  /** The alphabet without d. */
  const NoD: string := Alphabet[..3] + Alphabet[4..]
  /** The alphabet without d and k. */
  const NoDK: string := NoD[..9] + NoD[10..]

  lemma NoWSpelled()
    ensures NoW == "abcdefghijklmnopqrstuvxyz"
  {
    AlphabetSpelled();
  }

  lemma NoOSpelled()
    ensures NoO == "abcdefghijklmnpqrstuvwxyz"
  {
    AlphabetSpelled();
  }

  lemma NoDSpelled()
    ensures NoD == "abcefghijklmnopqrstuvwxyz"
  {
    AlphabetSpelled();
    assert NoD == "abc" + "efghijklmnopqrstuvwxyz";
  }

  lemma NoDKSpelled()
    ensures NoDK == "abcefghijlmnopqrstuvwxyz"
  {
    NoDSpelled();
  }

  /** The strings above are the ones the help page spells out. */
  lemma HelpPageStrings()
    ensures NoW == "abcdefghijklmnopqrstuvxyz"
    ensures NoO == "abcdefghijklmnpqrstuvwxyz"
    ensures NoD == "abcefghijklmnopqrstuvwxyz"
    ensures NoDK == "abcefghijlmnopqrstuvwxyz"
  {
    NoWSpelled();
    NoOSpelled();
    NoDSpelled();
    NoDKSpelled();
  }

  /** A four-letter update, given its four positions. */
  lemma UpdateAllowedFour(allowedLetters: seq<string>, clues: seq<CluedLetter>, r0: string, r1: string, r2: string, r3: string)
    requires |allowedLetters| == 4 && |clues| == 4
    requires Narrow(allowedLetters[0], clues[0]) == r0 && Narrow(allowedLetters[1], clues[1]) == r1
    requires Narrow(allowedLetters[2], clues[2]) == r2 && Narrow(allowedLetters[3], clues[3]) == r3
    ensures UpdateAllowed(allowedLetters, clues) == [r0, r1, r2, r3]
  {
  }

  lemma NarrowAbsentW()
    ensures Narrow(Alphabet, CluedLetter(Absent, 'w')) == NoW
  {
    assert Alphabet[22] == 'w';
    RemovedFromAlphabet(22);
  }

  lemma NarrowAbsentO()
    ensures Narrow(Alphabet, CluedLetter(Absent, 'o')) == NoO
  {
    assert Alphabet[14] == 'o';
    RemovedFromAlphabet(14);
  }

  lemma NarrowElsewhereD()
    ensures Narrow(Alphabet, CluedLetter(Elsewhere, 'd')) == NoD
  {
    assert Alphabet[3] == 'd';
    RemovedFromAlphabet(3);
  }

  lemma NarrowAbsentK()
    ensures Narrow(NoD, CluedLetter(Absent, 'k')) == NoDK
  {
    AlphabetLetters();
    assert NoD[9] == 'k' && 'k' !in NoD[..9];
    RemoveFirstAt(NoD, 'k', 9);
  }

  /** From full sets, "word" against "dart" leaves the strings shown on the help page. */
  lemma AboutAfterWord()
    ensures UpdateAllowed(FullyAllowed(4), ClueOf("word", "dart")) == [NoW, NoO, "r", NoD]
  {
    ClueExampleWord();
    NarrowAbsentW();
    NarrowAbsentO();
    NarrowElsewhereD();
    UpdateAllowedFour(FullyAllowed(4), ClueOf("word", "dart"), NoW, NoO, "r", NoD);
  }

  /** "walk" is then refused: W was already tried first, and the third letter must be R. */
  lemma AboutWalkRefused()
    ensures LetterProblems("walk", [NoW, NoO, "r", NoD]) == [AlreadyBeen(0, 'w'), MustBeOnly(2, "r")]
  {
    var a1 := [NoW, NoO, "r", NoD];
    AlphabetLetters();
    assert Alphabet[22] == 'w' && Alphabet[0] == 'a' && Alphabet[10] == 'k';
    RemovedFromAlphabet(22);
    RemoveFirstNoDup(Alphabet, 'w');
    assert NoO[0] == 'a' && NoD[9] == 'k';
    IsLetterAllowedMeaning('w', NoW);
    IsLetterAllowedMeaning('a', NoO);
    IsLetterAllowedMeaning('l', "r");
    IsLetterAllowedMeaning('k', NoD);
    assert ProblemsUpTo("walk", a1, 1) == [AlreadyBeen(0, 'w')];
    assert ProblemsUpTo("walk", a1, 2) == [AlreadyBeen(0, 'w')];
    assert ProblemsUpTo("walk", a1, 3) == [AlreadyBeen(0, 'w'), MustBeOnly(2, "r")];
  }

  /** After "dark" the strings are those shown on the help page. */
  lemma AboutAfterDark()
    ensures UpdateAllowed([NoW, NoO, "r", NoD], ClueOf("dark", "dart")) == ["d", "a", "r", NoDK]
  {
    ClueExampleDark();
    NarrowAbsentK();
    UpdateAllowedFour([NoW, NoO, "r", NoD], ClueOf("dark", "dart"), "d", "a", "r", NoDK);
  }
}
