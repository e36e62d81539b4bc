/**
 * Model of the game component of src/Game.tsx: the state the component
 * keeps (one field per `useState`), the key handler `onKey`, the start of
 * the next game, giving up and changing the word length. The dictionary,
 * the difficulty and the number of guesses are the component's props; the
 * word `randomTarget` would draw is passed in as a parameter.
 */
module Game {
  import opened Wrappers
  import opened Util
  import opened Messages
  import opened Clues
  import opened Rules
  import opened Allowed
  import opened Board

  datatype GameState = Playing | Won | Lost

  // ---------------------------------------------------------------------
  // The typing buffer

  /** `/^[a-z]$/i.test(key)`: the key is one letter, in either case. */
  predicate IsLetterKey(key: string)
  {
    |key| == 1 && ('a' <= key[0] <= 'z' || 'A' <= key[0] <= 'Z')
  }

  /** `s.slice(0, n)`: the first n characters, or all of s when it is shorter. */
  function Slice(s: string, n: nat): (r: string)
    ensures r <= s
    ensures |r| == if |s| <= n then |s| else n
  {
    if |s| <= n then s else s[..n]
  }

  /** `(guess + key.toLowerCase()).slice(0, wordLength)`. */
  function Typed(guess: string, key: string, wordLength: nat): string
    requires IsLetterKey(key)
  {
    Slice(guess + [ToLower(key[0])], wordLength)
  }

  /** `guess.slice(0, -1)`: the last character dropped; "" stays "". */
  function Erased(guess: string): (r: string)
  {
    if guess == [] then [] else guess[..|guess| - 1]
  }

  /**
   * Typing never makes the buffer longer than the word; while there is room a
   * letter key appends its lowercase letter, and on a full buffer it changes
   * nothing.
   */
  lemma TypedBuffer(guess: string, key: string, wordLength: nat)
    requires IsLetterKey(key) && |guess| <= wordLength
    ensures |Typed(guess, key, wordLength)| <= wordLength
    ensures |guess| < wordLength ==> Typed(guess, key, wordLength) == guess + [ToLower(key[0])]
    ensures |guess| < wordLength ==> IsLower(Typed(guess, key, wordLength)[|guess|])
    ensures |guess| == wordLength ==> Typed(guess, key, wordLength) == guess
  {
    if |guess| == wordLength {
      assert (guess + [ToLower(key[0])])[..wordLength] == guess;
    }
  }

  /** Backspace drops exactly the last character, and does nothing on an empty buffer. */
  lemma ErasedBuffer(guess: string)
    ensures guess == [] ==> Erased(guess) == []
    ensures guess != [] ==> Erased(guess) + [guess[|guess| - 1]] == guess
  {
  }

  // ---------------------------------------------------------------------
  // Enter

  /** What Enter makes of the buffer while the game is on. */
  datatype Verdict = TooShort | NotAWord | NotAllowed(problems: seq<Problem>) | Accepted

  /**
   * The checks of src/Game.tsx:227-246, in their order: the length, the
   * dictionary, then the rule violations against every earlier guess
   * followed by the allowed-letter problems.
   */
  function Judge(dictionary: seq<string>, difficulty: Difficulty, guesses: seq<string>, target: string,
                 allowedLetters: seq<string>, wordLength: nat, guess: string): Verdict
    requires wordLength <= |allowedLetters|
  {
    if |guess| != wordLength then TooShort
    else if guess !in dictionary then NotAWord
    else
      var feedback := Violations(difficulty, guesses, target, guess) + LetterProblems(guess, allowedLetters);
      if |feedback| > 0 then NotAllowed(feedback) else Accepted
  }

  /**
   * Enter accepts exactly the words `countRemainingWords` counts: the number
   * under the current row is the number of words the player may still enter.
   */
  lemma AcceptedIffRemaining(dictionary: seq<string>, difficulty: Difficulty, guesses: seq<string>, target: string,
                             allowedLetters: seq<string>, wordLength: nat, guess: string)
    requires wordLength <= |allowedLetters|
    ensures Judge(dictionary, difficulty, guesses, target, allowedLetters, wordLength, guess) == Accepted <==>
      guess in Remaining(dictionary, wordLength, allowedLetters, difficulty, guesses, target)
  {
    RemainingMeaning(dictionary, wordLength, allowedLetters, difficulty, guesses, target);
  }

  /** A refused word is refused with at least one message, all of them about the rules or the letters. */
  lemma RefusalHasReasons(dictionary: seq<string>, difficulty: Difficulty, guesses: seq<string>, target: string,
                          allowedLetters: seq<string>, wordLength: nat, guess: string)
    requires wordLength <= |allowedLetters|
    ensures var v := Judge(dictionary, difficulty, guesses, target, allowedLetters, wordLength, guess);
      v.NotAllowed? ==>
        |guess| == wordLength && guess in dictionary && |v.problems| > 0 &&
        (Violations(difficulty, guesses, target, guess) != [] || exists i :: 0 <= i < |guess| && guess[i] !in allowedLetters[i])
  {
    var v := Judge(dictionary, difficulty, guesses, target, allowedLetters, wordLength, guess);
    if v.NotAllowed? {
      LetterProblemsMeaning(guess, allowedLetters);
    }
  }

  /** The updater of src/Game.tsx:250-260, position by position over the clue. */
  method ApplyClue(allowedLetters: seq<string>, clues: seq<CluedLetter>) returns (r: seq<string>)
    requires |clues| <= |allowedLetters|
    ensures r == UpdateAllowed(allowedLetters, clues)
  {
    r := allowedLetters;
    for i := 0 to |clues|
      invariant |r| == |allowedLetters|
      invariant forall j :: 0 <= j < |r| ==> r[j] == if j < i then Narrow(allowedLetters[j], clues[j]) else allowedLetters[j]
    {
      var c := clues[i];
      if c.clue == Correct {
        r := r[i := [c.letter]];
      } else {
        r := r[i := RemoveFirst(r[i], c.letter)];
      }
    }
  }

  // ---------------------------------------------------------------------
  // The history

  predicate Fits(guesses: seq<string>, wordLength: nat)
  {
    forall k :: 0 <= k < |guesses| ==> |guesses[k]| <= wordLength
  }

  /** The counts shown under the rows: one before any guess, and one after each. */
  function Counts(dictionary: seq<string>, wordLength: nat, difficulty: Difficulty, guesses: seq<string>, target: string)
    : (r: seq<nat>)
    requires Fits(guesses, wordLength)
    ensures |r| == |guesses| + 1
    decreases |guesses|
  {
    var here := CountRemaining(dictionary, wordLength, AllowedAfter(FullyAllowed(wordLength), guesses, target),
                               difficulty, guesses, target);
    if guesses == [] then [here]
    else
      var front := guesses[..|guesses| - 1];
      assert forall k :: 0 <= k < |front| ==> front[k] == guesses[k];
      Counts(dictionary, wordLength, difficulty, front, target) + [here]
  }

  /** One more guess narrows the allowed letters by its clue and adds one count. */
  lemma HistorySnoc(dictionary: seq<string>, wordLength: nat, difficulty: Difficulty, guesses: seq<string>,
                    guess: string, target: string)
    requires Fits(guesses, wordLength) && |guess| <= wordLength
    ensures Fits(guesses + [guess], wordLength)
    ensures AllowedAfter(FullyAllowed(wordLength), guesses + [guess], target) ==
      UpdateAllowed(AllowedAfter(FullyAllowed(wordLength), guesses, target), ClueOf(guess, target))
    ensures Counts(dictionary, wordLength, difficulty, guesses + [guess], target) ==
      Counts(dictionary, wordLength, difficulty, guesses, target) +
      [CountRemaining(dictionary, wordLength, AllowedAfter(FullyAllowed(wordLength), guesses + [guess], target),
                      difficulty, guesses + [guess], target)]
  {
    assert (guesses + [guess])[..|guesses|] == guesses;
  }

  /** The count shown before the first guess, which `fullyAllowed` and target "" give. */
  lemma InitialCounts(dictionary: seq<string>, wordLength: nat, difficulty: Difficulty, target: string)
    ensures Counts(dictionary, wordLength, difficulty, [], target) ==
      [CountRemaining(dictionary, wordLength, FullyAllowed(wordLength), difficulty, [], "")]
    ensures Counts(dictionary, wordLength, difficulty, [], target) == [|LowerWords(dictionary, wordLength)|]
  {
    CountInitially(dictionary, wordLength, difficulty, target);
    CountInitially(dictionary, wordLength, difficulty, "");
  }

  /** Whatever was guessed, each letter of a lowercase target stays allowed at its position. */
  lemma {:induction false} TargetStaysAllowed(guesses: seq<string>, target: string, wordLength: nat)
    requires Fits(guesses, wordLength) && |target| == wordLength && AllLower(target)
    ensures var allowed := AllowedAfter(FullyAllowed(wordLength), guesses, target);
      forall i :: 0 <= i < |target| ==> target[i] in allowed[i]
    decreases |guesses|
  {
    if guesses == [] {
      FullyAllowedMeaning(wordLength);
    } else {
      var front := guesses[..|guesses| - 1];
      var last := guesses[|guesses| - 1];
      assert guesses == front + [last];
      assert Fits(front, wordLength);
      TargetStaysAllowed(front, target, wordLength);
      HistorySnoc([], wordLength, Normal, front, last, target);
      UpdateKeepsTarget(AllowedAfter(FullyAllowed(wordLength), front, target), last, target);
    }
  }

  /**
   * The target can always be entered: a lowercase dictionary word of the
   * right length passes every rule and every allowed-letter check, whatever
   * the earlier guesses were.
   */
  lemma TargetAlwaysAccepted(dictionary: seq<string>, difficulty: Difficulty, guesses: seq<string>, target: string,
                             wordLength: nat)
    requires Fits(guesses, wordLength) && |target| == wordLength && AllLower(target) && target in dictionary
    ensures Judge(dictionary, difficulty, guesses, target, AllowedAfter(FullyAllowed(wordLength), guesses, target),
                  wordLength, target) == Accepted
  {
    var allowed := AllowedAfter(FullyAllowed(wordLength), guesses, target);
    TargetStaysAllowed(guesses, target, wordLength);
    LetterProblemsMeaning(target, allowed);
    TargetHasNoViolations(difficulty, guesses, target);
  }

  const EndHints: seq<string> := ["Backspace to play this word again.", "Enter for a new word."]

  /**
   * What the component keeps true of its state: the buffer fits the word,
   * the guesses have its length and never exceed the maximum, the allowed
   * letters are those the guesses leave, and there is one count per row so far.
   */
  predicate Consistent(dictionary: seq<string>, difficulty: Difficulty, maxGuesses: nat, wordLength: nat,
                       guesses: seq<string>, target: string, currentGuess: string,
                       allowedLetters: seq<string>, remainingWords: seq<nat>)
  {
    |currentGuess| <= wordLength && |guesses| <= maxGuesses && |allowedLetters| == wordLength
    && (forall k :: 0 <= k < |guesses| ==> |guesses[k]| == wordLength)
    && Replayed(dictionary, difficulty, wordLength, guesses, target, allowedLetters, remainingWords)
  }

  /**
   * The allowed letters and the counts are what replaying the guesses from
   * full sets gives. (Stated for every history equal to `guesses`, so that
   * the replay is only unfolded where a proof names it.)
   */
  predicate Replayed(dictionary: seq<string>, difficulty: Difficulty, wordLength: nat, guesses: seq<string>,
                     target: string, allowedLetters: seq<string>, remainingWords: seq<nat>)
  {
    forall h {:trigger AllowedAfter(FullyAllowed(wordLength), h, target)} :: h == guesses ==>
      Fits(h, wordLength)
      && allowedLetters == AllowedAfter(FullyAllowed(wordLength), h, target)
      && remainingWords == Counts(dictionary, wordLength, difficulty, h, target)
  }

  /** A new game of length n: full sets and the one count of all lowercase words of length n. */
  lemma StartConsistent(dictionary: seq<string>, difficulty: Difficulty, maxGuesses: nat, n: nat, target: string)
    ensures var count := CountRemaining(dictionary, n, FullyAllowed(n), difficulty, [], "");
      count == |LowerWords(dictionary, n)| &&
      Consistent(dictionary, difficulty, maxGuesses, n, [], target, "", FullyAllowed(n), [count])
  {
    InitialCounts(dictionary, n, difficulty, target);
  }

  /** Accepting a full-length guess while guesses remain keeps the state consistent. */
  lemma AcceptConsistent(dictionary: seq<string>, difficulty: Difficulty, maxGuesses: nat, wordLength: nat,
                         guesses: seq<string>, target: string, guess: string,
                         allowedLetters: seq<string>, remainingWords: seq<nat>)
    requires Consistent(dictionary, difficulty, maxGuesses, wordLength, guesses, target, guess, allowedLetters, remainingWords)
    requires |guess| == wordLength && |guesses| < maxGuesses
    ensures var allowed := UpdateAllowed(allowedLetters, ClueOf(guess, target));
      Consistent(dictionary, difficulty, maxGuesses, wordLength, guesses + [guess], target, "", allowed,
                 remainingWords + [CountRemaining(dictionary, wordLength, allowed, difficulty, guesses + [guess], target)])
  {
    assert Fits(guesses, wordLength);
    HistorySnoc(dictionary, wordLength, difficulty, guesses, guess, target);
  }

  /**
   * Consistency pins the state down: one guess more than a consistent state
   * means allowed letters narrowed by exactly that guess's clue, and exactly
   * one new count, that of the new allowed letters and history.
   */
  lemma ReplayStep(dictionary: seq<string>, difficulty: Difficulty, maxGuesses: nat, wordLength: nat,
                   guesses: seq<string>, target: string, guess: string,
                   currentGuess: string, allowedLetters: seq<string>, remainingWords: seq<nat>,
                   currentGuess': string, allowedLetters': seq<string>, remainingWords': seq<nat>)
    requires Consistent(dictionary, difficulty, maxGuesses, wordLength, guesses, target, currentGuess, allowedLetters, remainingWords)
    requires |guess| == wordLength
    requires Consistent(dictionary, difficulty, maxGuesses, wordLength, guesses + [guess], target, currentGuess',
                        allowedLetters', remainingWords')
    ensures allowedLetters' == UpdateAllowed(allowedLetters, ClueOf(guess, target))
    ensures remainingWords' == remainingWords +
      [CountRemaining(dictionary, wordLength, allowedLetters', difficulty, guesses + [guess], target)]
  {
    assert Fits(guesses, wordLength);
    assert (guesses + [guess])[|guesses|] == guess;
    HistorySnoc(dictionary, wordLength, difficulty, guesses, guess, target);
    assert allowedLetters == AllowedAfter(FullyAllowed(wordLength), guesses, target);
    assert allowedLetters' == AllowedAfter(FullyAllowed(wordLength), guesses + [guess], target);
  }

  /**
   * In a consistent state the last count is the number of dictionary words
   * Enter would accept now, and those are exactly the candidates it counts.
   */
  lemma ShownCount(dictionary: seq<string>, difficulty: Difficulty, maxGuesses: nat, wordLength: nat,
                   guesses: seq<string>, target: string, currentGuess: string,
                   allowedLetters: seq<string>, remainingWords: seq<nat>)
    requires Consistent(dictionary, difficulty, maxGuesses, wordLength, guesses, target, currentGuess, allowedLetters, remainingWords)
    ensures |remainingWords| == |guesses| + 1
    ensures remainingWords[|guesses|] == |Remaining(dictionary, wordLength, allowedLetters, difficulty, guesses, target)|
    ensures forall w :: w in Remaining(dictionary, wordLength, allowedLetters, difficulty, guesses, target) <==>
      Judge(dictionary, difficulty, guesses, target, allowedLetters, wordLength, w) == Accepted
  {
    assert Fits(guesses, wordLength);
    var allowed := AllowedAfter(FullyAllowed(wordLength), guesses, target);
    assert allowedLetters == allowed;
    forall w ensures w in Remaining(dictionary, wordLength, allowedLetters, difficulty, guesses, target) <==>
      Judge(dictionary, difficulty, guesses, target, allowedLetters, wordLength, w) == Accepted
    {
      AcceptedIffRemaining(dictionary, difficulty, guesses, target, allowedLetters, wordLength, w);
    }
  }

  /** Before the first guess the one count shown is the number of lowercase words of the length. */
  lemma FirstCount(dictionary: seq<string>, difficulty: Difficulty, maxGuesses: nat, wordLength: nat,
                   target: string, currentGuess: string, allowedLetters: seq<string>, remainingWords: seq<nat>)
    requires Consistent(dictionary, difficulty, maxGuesses, wordLength, [], target, currentGuess, allowedLetters, remainingWords)
    ensures allowedLetters == FullyAllowed(wordLength)
    ensures remainingWords == [|LowerWords(dictionary, wordLength)|]
  {
    assert allowedLetters == AllowedAfter(FullyAllowed(wordLength), [], target);
    InitialCounts(dictionary, wordLength, difficulty, target);
  }

  /** In a consistent state a lowercase target of the word's length that is in the dictionary is always accepted. */
  lemma TargetAcceptedNow(dictionary: seq<string>, difficulty: Difficulty, maxGuesses: nat, wordLength: nat,
                          guesses: seq<string>, target: string, currentGuess: string,
                          allowedLetters: seq<string>, remainingWords: seq<nat>)
    requires Consistent(dictionary, difficulty, maxGuesses, wordLength, guesses, target, currentGuess, allowedLetters, remainingWords)
    requires |target| == wordLength && AllLower(target) && target in dictionary
    ensures Judge(dictionary, difficulty, guesses, target, allowedLetters, wordLength, target) == Accepted
  {
    assert Fits(guesses, wordLength);
    var allowed := AllowedAfter(FullyAllowed(wordLength), guesses, target);
    assert allowedLetters == allowed;
    TargetAlwaysAccepted(dictionary, difficulty, guesses, target, wordLength);
  }

  /**
   * The board after an accepted guess: the updater narrows the allowed
   * letters by the guess's clue and the count for the longer history is
   * appended, which keeps the state consistent.
   */
  method Narrowed(dictionary: seq<string>, difficulty: Difficulty, maxGuesses: nat, wordLength: nat,
                  guesses: seq<string>, target: string, guess: string,
                  allowedLetters: seq<string>, remainingWords: seq<nat>)
    returns (allowed: seq<string>, counts: seq<nat>)
    requires Consistent(dictionary, difficulty, maxGuesses, wordLength, guesses, target, guess, allowedLetters, remainingWords)
    requires |guess| == wordLength && |guesses| < maxGuesses
    ensures Consistent(dictionary, difficulty, maxGuesses, wordLength, guesses + [guess], target, "", allowed, counts)
  {
    var clues := MakeClue(guess, target);
    allowed := ApplyClue(allowedLetters, clues);
    counts := remainingWords + [CountRemaining(dictionary, wordLength, allowed, difficulty, guesses + [guess], target)];
    AcceptConsistent(dictionary, difficulty, maxGuesses, wordLength, guesses, target, guess, allowedLetters, remainingWords);
  }

  /** The board of a new game of length n: full sets and the one count of all lowercase words of length n. */
  method NewBoard(dictionary: seq<string>, difficulty: Difficulty, maxGuesses: nat, n: nat, target: string)
    returns (allowed: seq<string>, counts: seq<nat>)
    ensures Consistent(dictionary, difficulty, maxGuesses, n, [], target, "", allowed, counts)
  {
    allowed := FullyAllowed(n);
    counts := [CountRemaining(dictionary, n, allowed, difficulty, [], "")];
    StartConsistent(dictionary, difficulty, maxGuesses, n, target);
  }

  /** The checks Enter makes, as the handler runs them. */
  method Check(dictionary: seq<string>, difficulty: Difficulty, guesses: seq<string>, target: string,
               allowedLetters: seq<string>, wordLength: nat, guess: string) returns (v: Verdict)
    requires wordLength <= |allowedLetters|
    ensures v == Judge(dictionary, difficulty, guesses, target, allowedLetters, wordLength, guess)
  {
    if |guess| != wordLength {
      return TooShort;
    }
    if guess !in dictionary {
      return NotAWord;
    }
    var violations := CheckForViolations(difficulty, guesses, target, guess);
    var letterProblems := AreAllLettersAllowed(guess, allowedLetters);
    var feedback := violations + letterProblems;
    if |feedback| > 0 {
      return NotAllowed(feedback);
    }
    return Accepted;
  }

  // ---------------------------------------------------------------------
  // The component

  class Game {
    const dictionary: seq<string>
    const difficulty: Difficulty
    const maxGuesses: nat

    var gameState: GameState
    var guesses: seq<string>
    var currentGuess: string
    var challenge: string
    var wordLength: nat
    var gameNumber: int
    var target: string
    var hint: string
    var hint2: seq<string>
    var allowedLetters: seq<string>
    var remainingWords: seq<nat>

    predicate Valid()
      reads this
    {
      Consistent(dictionary, difficulty, maxGuesses, wordLength, guesses, target, currentGuess, allowedLetters, remainingWords)
    }

    /**
     * A game just begun: playing, no guess and an empty buffer. With `Valid()`
     * this means full sets and the count of all words of the length (`FirstCount`).
     */
    predicate Fresh()
      reads this
    {
      gameState == Playing && guesses == [] && currentGuess == ""
    }

    /**
     * The component's first render. `initChallenge` and `challengeError` are
     * what decoding the `c` parameter gave; `randomWord` is the target
     * `randomTarget` draws for the start length.
     */
    constructor (dictionary: seq<string>, difficulty: Difficulty, maxGuesses: nat, initChallenge: string,
                 challengeError: bool, lengthParam: UrlParam, gameParam: UrlParam, randomWord: string)
      ensures Valid() && Fresh()
      ensures this.dictionary == dictionary && this.difficulty == difficulty && this.maxGuesses == maxGuesses
      ensures challenge == initChallenge
      ensures wordLength == if initChallenge != "" then |initChallenge| else ParseUrlLength(lengthParam)
      ensures gameNumber == ParseUrlGameNumber(gameParam)
      ensures target == if initChallenge != "" then initChallenge else randomWord
      ensures hint == if challengeError then "Invalid challenge string, playing random game." else "Make your first guess!"
      ensures hint2 == ["(Click \"?\" for how to play.)"]
    {
      var n: nat := if initChallenge != "" then |initChallenge| else ParseUrlLength(lengthParam);
      this.dictionary := dictionary;
      this.difficulty := difficulty;
      this.maxGuesses := maxGuesses;
      challenge := initChallenge;
      gameNumber := ParseUrlGameNumber(gameParam);
      hint := if challengeError then "Invalid challenge string, playing random game." else "Make your first guess!";
      hint2 := ["(Click \"?\" for how to play.)"];
      new;
      Restart(n, if initChallenge != "" then initChallenge else randomWord);
    }

    /**
     * What starting any game does: length n, target t, no guesses, an empty
     * buffer, full sets and the count of all lowercase words of length n.
     */
    method Restart(n: nat, t: string)
      modifies this
      ensures Valid() && Fresh() && wordLength == n && target == t
      ensures challenge == old(challenge) && gameNumber == old(gameNumber) && hint == old(hint) && hint2 == old(hint2)
    {
      var allowed, counts := NewBoard(dictionary, difficulty, maxGuesses, n, t);
      gameState := Playing;
      wordLength := n;
      target := t;
      guesses := [];
      currentGuess := "";
      allowedLetters := allowed;
      remainingWords := counts;
    }

    /** `startNextGame(newTarget)`; `randomWord` is used only when no target is given. */
    method StartNextGame(newTarget: Option<string>, randomWord: string)
      modifies this
      ensures Valid() && Fresh()
      ensures challenge == "" && wordLength == ClampLength(old(wordLength))
      ensures target == newTarget.GetOr(randomWord)
      ensures hint == "" && hint2 == []
      ensures gameNumber == if newTarget.None? then old(gameNumber) + 1 else old(gameNumber)
    {
      challenge := "";
      Restart(ClampLength(wordLength), newTarget.GetOr(randomWord));
      hint := "";
      hint2 := [];
      if newTarget.None? {
        gameNumber := gameNumber + 1;
      }
    }

    /** `gameOver`: the closing message about the target, the two replay hints, and the final state. */
    method GameOver(state: GameState, scoreMsg: string, end: string)
      modifies this
      ensures hint == scoreMsg + " for " + UpperString(target) + end && hint2 == EndHints && gameState == state
      ensures guesses == old(guesses) && currentGuess == old(currentGuess) && challenge == old(challenge)
      ensures wordLength == old(wordLength) && gameNumber == old(gameNumber) && target == old(target)
      ensures allowedLetters == old(allowedLetters) && remainingWords == old(remainingWords)
    {
      hint := scoreMsg + " for " + UpperString(target) + end;
      hint2 := EndHints;
      gameState := state;
    }

    /**
     * The state change of an accepted guess (src/Game.tsx:248-273): the allowed
     * letters are narrowed by its clue, its count is added, and the guess is
     * recorded; `Valid()` then pins the new allowed letters and counts to the
     * replay of the longer history.
     */
    method Record()
      requires Valid() && |guesses| < maxGuesses && |currentGuess| == wordLength
      modifies this
      ensures Valid()
      ensures guesses == old(guesses) + [old(currentGuess)] && currentGuess == ""
      ensures gameState == old(gameState) && hint == old(hint) && hint2 == old(hint2)
      ensures challenge == old(challenge) && wordLength == old(wordLength) && gameNumber == old(gameNumber)
      ensures target == old(target)
    {
      var guess := currentGuess;
      var allowed, counts := Narrowed(dictionary, difficulty, maxGuesses, wordLength, guesses, target, guess,
                                      allowedLetters, remainingWords);
      allowedLetters := allowed;
      remainingWords := counts;
      guesses := guesses + [guess];
      currentGuess := "";
    }

    /** An accepted guess (src/Game.tsx:248-287): recorded, then the game is won or goes on. */
    method Accept()
      requires Valid() && gameState == Playing && |guesses| < maxGuesses && |currentGuess| == wordLength
      modifies this
      ensures Valid()
      ensures guesses == old(guesses) + [old(currentGuess)] && currentGuess == ""
      ensures challenge == old(challenge) && wordLength == old(wordLength) && gameNumber == old(gameNumber)
      ensures target == old(target)
      ensures old(currentGuess) == target ==>
        gameState == Won && hint2 == EndHints
        && hint == "You scored " + NatToString(|guesses|) + " for " + UpperString(target) + "!"
      ensures old(currentGuess) != target && |guesses| == maxGuesses ==>
        gameState == Won && hint2 == EndHints
        && hint == "Congrats! Your score is OVER " + NatToString(maxGuesses) + " for " + UpperString(target) + "!!!"
      ensures old(currentGuess) != target && |guesses| < maxGuesses ==>
        gameState == Playing && hint == "" && hint2 == []
    {
      var guess := currentGuess;
      Record();
      if guess == target {
        GameOver(Won, "You scored " + NatToString(|guesses|), "!");
      } else if |guesses| == maxGuesses {
        GameOver(Won, "Congrats! Your score is OVER " + NatToString(maxGuesses), "!!!");
      } else {
        hint := "";
        hint2 := [];
      }
    }

    /** Enter while the game is on and guesses remain (src/Game.tsx:227-287). */
    method Submit() returns (v: Verdict)
      requires Valid() && gameState == Playing && |guesses| < maxGuesses
      modifies this
      ensures Valid()
      ensures v == Judge(dictionary, difficulty, old(guesses), old(target), old(allowedLetters), old(wordLength), old(currentGuess))
      ensures challenge == old(challenge) && wordLength == old(wordLength) && gameNumber == old(gameNumber)
      ensures target == old(target)
      ensures !v.Accepted? ==>
        guesses == old(guesses) && currentGuess == old(currentGuess) && allowedLetters == old(allowedLetters)
        && remainingWords == old(remainingWords) && gameState == Playing
        && hint == (if v.TooShort? then "Too short" else if v.NotAWord? then "Not a valid word" else "Word not allowed")
        && hint2 == (if v.NotAllowed? then Texts(v.problems) else [])
      ensures v.Accepted? ==> guesses == old(guesses) + [old(currentGuess)] && currentGuess == ""
      ensures v.Accepted? && old(currentGuess) == target ==>
        gameState == Won && hint2 == EndHints
        && hint == "You scored " + NatToString(|guesses|) + " for " + UpperString(target) + "!"
      ensures v.Accepted? && old(currentGuess) != target && |guesses| == maxGuesses ==>
        gameState == Won && hint2 == EndHints
        && hint == "Congrats! Your score is OVER " + NatToString(maxGuesses) + " for " + UpperString(target) + "!!!"
      ensures v.Accepted? && old(currentGuess) != target && |guesses| < maxGuesses ==>
        gameState == Playing && hint == "" && hint2 == []
    {
      v := Check(dictionary, difficulty, guesses, target, allowedLetters, wordLength, currentGuess);
      match v
      case TooShort =>
        hint := "Too short";
        hint2 := [];
      case NotAWord =>
        hint := "Not a valid word";
        hint2 := [];
      case NotAllowed(feedback) =>
        hint := "Word not allowed";
        hint2 := Texts(feedback);
      case Accepted =>
        Accept();
    }

    /**
     * `onKey`. After a game is over Enter starts a new random game and
     * Backspace replays the same target; other keys do nothing then. While
     * playing, nothing happens once the guesses are used up; otherwise a
     * letter is typed, Backspace erases, and Enter submits.
     */
    method OnKey(key: string, randomWord: string)
      requires Valid()
      modifies this
      ensures Valid()
      ensures old(gameState) != Playing && key == "Enter" ==>
        Fresh() && challenge == "" && wordLength == ClampLength(old(wordLength)) && target == randomWord
        && gameNumber == old(gameNumber) + 1 && hint == "" && hint2 == []
      ensures old(gameState) != Playing && key == "Backspace" ==>
        Fresh() && challenge == "" && wordLength == ClampLength(old(wordLength)) && target == old(target)
        && gameNumber == old(gameNumber) && hint == "" && hint2 == []
      ensures old(gameState) != Playing && key != "Enter" && key != "Backspace" ==> unchanged(this)
      ensures old(gameState) == Playing && |old(guesses)| == maxGuesses ==> unchanged(this)
      ensures old(gameState) == Playing && !IsLetterKey(key) && key != "Backspace" && key != "Enter" ==> unchanged(this)
      ensures old(gameState) == Playing && |old(guesses)| < maxGuesses && (IsLetterKey(key) || key == "Backspace") ==>
        currentGuess == (if IsLetterKey(key) then Typed(old(currentGuess), key, wordLength) else Erased(old(currentGuess)))
        && hint == "" && hint2 == [] && gameState == Playing
        && guesses == old(guesses) && allowedLetters == old(allowedLetters) && remainingWords == old(remainingWords)
        && challenge == old(challenge) && wordLength == old(wordLength) && gameNumber == old(gameNumber)
        && target == old(target)
      ensures old(gameState) == Playing && |old(guesses)| < maxGuesses && !IsLetterKey(key) && key == "Enter" ==>
        challenge == old(challenge) && wordLength == old(wordLength) && gameNumber == old(gameNumber)
        && target == old(target)
      ensures old(gameState) == Playing && |old(guesses)| < maxGuesses && !IsLetterKey(key) && key == "Enter" ==>
        var v := Judge(dictionary, difficulty, old(guesses), old(target), old(allowedLetters), old(wordLength), old(currentGuess));
        (!v.Accepted? ==>
          guesses == old(guesses) && currentGuess == old(currentGuess) && allowedLetters == old(allowedLetters)
          && remainingWords == old(remainingWords) && gameState == Playing
          && hint == (if v.TooShort? then "Too short" else if v.NotAWord? then "Not a valid word" else "Word not allowed")
          && hint2 == (if v.NotAllowed? then Texts(v.problems) else []))
        && (v.Accepted? ==> guesses == old(guesses) + [old(currentGuess)] && currentGuess == "")
        && (v.Accepted? && old(currentGuess) == old(target) ==>
          gameState == Won && hint2 == EndHints
          && hint == "You scored " + NatToString(|guesses|) + " for " + UpperString(old(target)) + "!")
        && (v.Accepted? && old(currentGuess) != old(target) && |guesses| == maxGuesses ==>
          gameState == Won && hint2 == EndHints
          && hint == "Congrats! Your score is OVER " + NatToString(maxGuesses) + " for " + UpperString(old(target)) + "!!!")
        && (v.Accepted? && old(currentGuess) != old(target) && |guesses| < maxGuesses ==>
          gameState == Playing && hint == "" && hint2 == [])
    {
      if gameState != Playing {
        if key == "Enter" {
          StartNextGame(None, randomWord);
        } else if key == "Backspace" {
          StartNextGame(Some(target), randomWord);
        }
        return;
      }
      if |guesses| == maxGuesses {
        return;
      }
      if IsLetterKey(key) {
        TypedBuffer(currentGuess, key, wordLength);
        currentGuess := Typed(currentGuess, key, wordLength);
        hint := "";
        hint2 := [];
      } else if key == "Backspace" {
        currentGuess := Erased(currentGuess);
        hint := "";
        hint2 := [];
      } else if key == "Enter" {
        var _ := Submit();
      }
    }

    /** The "Give up" button, which is enabled only while playing after at least one guess. */
    method GiveUp()
      requires Valid()
      modifies this
      ensures Valid()
      ensures old(gameState) == Playing && |old(guesses)| > 0 ==>
        gameState == Lost && hint2 == EndHints
        && hint == "Your score would have been at least " + NatToString(|guesses|) + " for " + UpperString(target) + "."
        && guesses == old(guesses) && currentGuess == old(currentGuess) && allowedLetters == old(allowedLetters)
        && remainingWords == old(remainingWords) && challenge == old(challenge) && wordLength == old(wordLength)
        && gameNumber == old(gameNumber) && target == old(target)
      ensures !(old(gameState) == Playing && |old(guesses)| > 0) ==> unchanged(this)
    {
      if gameState == Playing && |guesses| > 0 {
        GameOver(Lost, "Your score would have been at least " + NatToString(|guesses|), ".");
      }
    }

    /**
     * The length slider. It is disabled during a game that has a guess, a
     * typed letter or a challenge; otherwise it starts game 1 of the chosen
     * length with `randomWord` as the target.
     */
    method ChangeLength(length: nat, randomWord: string)
      requires Valid() && MinLength <= length <= MaxLength
      modifies this
      ensures Valid()
      ensures old(gameState) == Playing && (|old(guesses)| > 0 || old(currentGuess) != "" || old(challenge) != "") ==>
        unchanged(this)
      ensures !(old(gameState) == Playing && (|old(guesses)| > 0 || old(currentGuess) != "" || old(challenge) != "")) ==>
        Fresh() && wordLength == length && target == randomWord && gameNumber == 1 && challenge == old(challenge)
        && hint == NatToString(length) + " letters" && hint2 == []
    {
      if gameState == Playing && (|guesses| > 0 || currentGuess != "" || challenge != "") {
        return;
      }
      gameNumber := 1;
      Restart(length, randomWord);
      hint := NatToString(length) + " letters";
      hint2 := [];
    }
  }
}
