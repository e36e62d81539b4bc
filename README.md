# dawdlin: rule engine and game state, in Dafny

dawdlin is a Wordle variant whose aim is to take as many guesses as possible.
Every guess is clued against a hidden target word, letter by letter. A letter is
Correct when it is in the right place, Elsewhere for a leftover copy of a target
letter, and Absent otherwise. The clues then restrict what may be played next:

- per-position "allowed letters" shrink after every guess;
- in Hard and Ultra Hard mode, every new guess must stay consistent with the
  clues of all earlier guesses.

Under each row the game shows how many dictionary words could still be entered.
The game ends when the target is found, when the player gives up, or when the
guess limit is reached.

This project models the core of that program:

- `clues.dfy` (src/clue.ts `clue`, `clueWord`, `clueClass`, `describeClue`): the
  two-pass scorer. It is a specification on multisets (`ClueOf`) with the
  source's array algorithm (`MakeClue`) proved equal to it.
- `rules.dfy` (src/clue.ts `violation`, `checkForViolations`): the Hard and
  Ultra Hard checks. They are a specification (`FirstViolation`, `Violations`)
  plus the source's loops proved against it.
- `allowed.dfy` (src/clue.ts `isLetterAllowed`, `areAllLettersAllowed`): the
  allowed-letter check, with its loop.
- `messages.dfy`: the messages of those checks as a datatype, with the text the
  source's template strings build.
- `board.dfy` (src/Game.tsx): `fullyAllowed`, the allowed-letter updater, the
  remaining-word count, the URL and length clamps, and the keyboard's
  best-clue-per-letter map (`letterInfo`).
- `game.dfy` (src/Game.tsx): the game component. It is a class with one field
  per piece of React state, keeps a replay invariant (`Consistent`), and has
  methods for the key handler, the start of the next game, giving up and the
  length slider.
- `util.dfy` (src/util.ts): `ordinal`, `englishNumbers`, the date arithmetic of
  `describeSeed`, and the JavaScript string and number operations the rest
  needs.
- `help_page.dfy` (src/About.tsx): the help page's worked example as facts
  about the model.

The external inputs are parameters:

- the dictionary;
- the difficulty and the guess limit (component props);
- the word `randomTarget` would draw;
- the decoded challenge word and its error flag;
- the `l` and `g` URL parameters.

Two reading choices follow the code:

- **Count after a guess.** The two state updaters for an accepted guess run in
  hook order. The allowed-letter updater rewrites the array in place first, so
  the count appended for the new row is taken with the narrowed letters and the
  longer history. `Narrowed` and `ReplayStep` state this.
- **Length check before dictionary check.** Enter checks the length first, then
  the dictionary, then the rule violations followed by the allowed-letter
  problems. The messages come in that order.

## Model

| member | source | states |
|---|---|---|
| Util.IndexOf | src/clue.ts:25 | `indexOf` gives -1 exactly when the element is absent, and otherwise its first index |
| Util.SplitPieces | src/clue.ts:75 | `split` on one character gives one more piece than there are separators, the pieces hold no separator, and joining them gives the string back |
| Util.SplitJoin | src/clue.ts:75 | splitting the join of separator-free pieces gives the pieces back |
| Util.ToUpper | src/clue.ts:76 | `toUpperCase` on ASCII: a-z become A-Z by code point, other ASCII characters are kept |
| Util.UpperString | src/clue.ts:146 | a string upper-cased character by character |
| Util.ToLower | src/Game.tsx:218 | `toLowerCase` on ASCII: A-Z become a-z by code point, other ASCII characters are kept |
| Util.NatToStringValue | src/util.ts:73 | the decimal form that prefixes an ordinal reads back as the number |
| Util.NatToStringDigits | src/util.ts:73 | the decimal form is digits only, with no leading zero |
| Util.OrdinalSuffixRule | src/util.ts:72-74 | the table-and-bit-trick suffix equals the English rule for every n (11th-13th, 111th-113th, otherwise st/nd/rd by the last digit, else th) |
| Util.Ordinal | src/util.ts:72-74 | `ordinal(n)` is the decimal form of n followed by its English suffix |
| Util.OrdinalExamplesSmall | src/util.ts:72-74 | 1st, 2nd, 3rd, 4th |
| Util.OrdinalExamplesTeens | src/util.ts:72-74 | 11th, 12th, 13th and 21st |
| Util.OrdinalExamplesLarge | src/util.ts:72-74 | 111th, 112th and 122nd |
| Util.EnglishNumber | src/util.ts:76-77 | entry k of `englishNumbers` is entry k of the table that `Util.EnglishNumbersSplit` derives from the source's list; past the table it renders as "undefined" |
| Util.EnglishNumbersSplit | src/util.ts:76-77 | splitting "zero one two three four five six seven eight nine ten eleven" at spaces gives exactly the twelve words of the table, in order |
| Util.JsRem | src/util.ts:81-83 | JavaScript's `%` truncates toward zero: it agrees with the mathematical remainder on non-negative operands and stays strictly between -b and b |
| Util.JsRemZero | src/util.ts:83 | a JavaScript remainder by 4, 16 or 25 is zero exactly when the divisor divides the number, negative years included |
| Util.LeapRules | src/util.ts:83 | `year % (year % 25 ? 4 : 16) === 0` is the Gregorian leap-year rule for every integer year |
| Util.DescribeSeedBranches | src/util.ts:79-101 | the date branch is taken exactly for a valid calendar date of 2000-2100 read as YYYYMMDD, which then reassembles to the seed; otherwise the text is "seed N" |
| Util.DescribeDate | src/util.ts:79-101 | every valid date of 2000-2100 written as YYYYMMDD is described as that date |
| Messages.Text | src/clue.ts:76-101 | the message text of every problem is non-empty |
| Messages.Texts | src/Game.tsx:244 | the hint lines are the problems' texts, one per problem and in order |
| Clues.ClueNamesDistinct | src/clue.ts:35-53 | different clue kinds get different words and different CSS classes |
| Clues.DescribeClue | src/clue.ts:55-59 | the spoken description is empty exactly when the clue is |
| Clues.ClueShape | src/clue.ts:14-33 | one entry per guess letter, in order, carrying that letter; an entry is Correct exactly when the target has the same letter at that position |
| Clues.SelfClueCorrect | src/clue.ts:23-24 | a word clued against itself is all Correct |
| Clues.ClueCountBound | src/clue.ts:25-28 | no letter is credited (Correct or Elsewhere) more often than it occurs in the target |
| Clues.ClueCountWithinWord | src/clue.ts:72-74 | the credited copies of a letter never exceed its copies in the clued word |
| Clues.ElsewhereLeftToRight | src/clue.ts:21-32 | a non-matching position is Elsewhere exactly when fewer Elsewhere marks on its letter come before it than the target has unmatched copies of that letter |
| Clues.CollectElusive | src/clue.ts:15-20 | the first pass collects exactly the multiset of target letters the guess does not match in place |
| Clues.MakeClue | src/clue.ts:14-33 | the two-pass array algorithm, which overwrites used-up copies with "", computes exactly `ClueOf` |
| Rules.GuessCount | src/clue.ts:75 | `guess.split(letter).length - 1` is the number of copies of the letter in the guess |
| Rules.FirstViolationIsFirst | src/clue.ts:61-107 | Normal never objects; otherwise there is no violation exactly when every clue position passes its four checks, and a violation is the one of the first failing position |
| Rules.RuleCounts | src/clue.ts:72-101 | a "must contain N" problem has fewer than N copies with N at most the clue length; an "exactly N" problem is Ultra Hard with more than N copies; "can't contain" follows an Absent mark on a letter the guess uses; with eleven letters or fewer the number word is always defined |
| Rules.Violation | src/clue.ts:61-107 | the loop with its position counter returns exactly the first violation |
| Rules.CheckForViolations | src/clue.ts:109-123 | the loop returns exactly the per-guess violations, in history order |
| Rules.ViolationsPerGuess | src/clue.ts:109-123 | at most one problem per earlier guess; none under Normal; none at all exactly when no earlier guess's clue is contradicted |
| Rules.ViolationsExtend | src/clue.ts:116-121 | one more earlier guess appends its violation, if any, at the end |
| Rules.AbsentMeansExhausted | src/clue.ts:97-102 | after an Absent mark on a letter its credited count equals its copies in the target, which is what makes the "exactly N" rule sound |
| Rules.TargetPassesRules | src/clue.ts:61-107 | the target never violates the rules any guess's clue imposes, at any difficulty |
| Rules.TargetHasNoViolations | src/clue.ts:109-123 | guessing the target gives no violation, whatever the history |
| Rules.RepeatPassesHard | src/clue.ts:80-90 | in Hard mode, repeating an earlier guess never contradicts its clue |
| Rules.RepeatFailsUltraHard | src/clue.ts:92-95 | in Ultra Hard mode, repeating an earlier guess is refused at its first non-Correct position with "can't be" |
| Allowed.IndexOfFromMeaning | src/clue.ts:130 | `indexOf` on strings gives -1 exactly when there is no occurrence, and otherwise the first one |
| Allowed.IsLetterAllowedMeaning | src/clue.ts:126-131 | a letter is allowed exactly when it is in the allowed string; the empty string is always allowed |
| Allowed.AreAllLettersAllowed | src/clue.ts:133-153 | the loop returns exactly `LetterProblems` |
| Allowed.LetterProblemsMeaning | src/clue.ts:133-153 | one message per position whose letter is not allowed, in position order ("must be X" for a one-letter string, "has already been L" otherwise); none exactly when every letter is allowed |
| Board.AlphabetLetters | src/Game.tsx:62 | the alphabet string holds each lowercase letter exactly once |
| Board.AlphabetSpelled | src/Game.tsx:62 | the alphabet is "abcdefghijklmnopqrstuvwxyz" |
| Board.FullyAllowed | src/Game.tsx:61-63 | one allowed string per position |
| Board.FullyAllowedMeaning | src/Game.tsx:61-63 | every position allows exactly the lowercase letters, each once |
| Board.RemoveFirstMeaning | src/Game.tsx:256 | `replace(letter, '')` leaves the string alone when the letter is absent and otherwise removes exactly one copy |
| Board.RemoveFirstNoDup | src/Game.tsx:256 | on a string without repeats the letter is gone altogether and no repeat appears |
| Board.UpdateAllowed | src/Game.tsx:250-260 | the updater keeps the number of positions |
| Board.UpdateAllowedPositions | src/Game.tsx:250-260 | a green position becomes exactly the guessed letter, any other guessed position loses the guessed letter, positions past the guess are unchanged |
| Board.UpdateAllowedIdempotent | src/Game.tsx:250-260 | the update keeps strings free of repeats, and applying the same clue twice changes nothing more |
| Board.UpdateAllowedShrinks | src/Game.tsx:250-260 | for a guess that passed the letter check every allowed string only shrinks |
| Board.UpdateKeepsTarget | src/Game.tsx:250-260 | the target's letter at a position, once allowed, stays allowed |
| Board.UpdateKeepsSingleton | src/Game.tsx:250-260 | a position settled to one letter of the target stays settled |
| Board.AllowedAfter | src/Game.tsx:250-260 | replaying the updater over a history keeps the number of positions |
| Board.Remaining | src/Game.tsx:44-59 | no more words are kept than the dictionary holds |
| Board.RemainingCounts | src/Game.tsx:44-59 | each candidate is kept exactly as many times as the dictionary lists it, and a word that is not a candidate is not kept at all |
| Board.RemainingMeaning | src/Game.tsx:44-59 | a word is kept exactly when it is a dictionary word of the length with every letter allowed and no rule broken |
| Board.RemainingInitially | src/Game.tsx:143-144 | before any guess the candidates are the lowercase dictionary words of the length, whatever the target |
| Board.CountInitially | src/Game.tsx:143-144 | the first count is the number of lowercase dictionary words of the length |
| Board.ParseUrlLength | src/Game.tsx:95-100 | the start length is always 4-11: the `l` parameter when it is a number in range, else 5 |
| Board.ParseUrlGameNumber | src/Game.tsx:102-107 | the game number is always 1-1000: the `g` parameter when it is a number in range, else 1 |
| Board.ClampLength | src/Game.tsx:152-153 | the next game's length is always 4-11: the current length when in range, else 5 |
| Board.LockedCluesMembers | src/Game.tsx:309-314 | the letters merged are exactly those of the clues of the locked-in rows |
| Board.MergeCluesIsBest | src/Game.tsx:305-321 | the keyboard map has an entry exactly for the letters that occur, and each entry is the best clue (Absent < Elsewhere < Correct) that letter got |
| Board.LetterInfo | src/Game.tsx:305-321 | the nested loop computes exactly the merged map of the locked-in rows' clues |
| HelpPage.ClueExampleWord | src/About.tsx:31-36 | "word" against "dart" is W absent, O absent, R correct, D elsewhere |
| HelpPage.ClueExampleDark | src/About.tsx:130-135 | "dark" against "dart" is D, A, R correct and K absent |
| HelpPage.ClueExampleRepeated | src/clue.ts:25-28 | "abab" against "aabb": each leftover copy is used once, so both middle letters are Elsewhere |
| HelpPage.HelpPageStrings | src/About.tsx:98-103 | the allowed strings spelled out on the help page are the alphabet minus w, minus o and minus d (and minus d and k) |
| HelpPage.AboutAfterWord | src/About.tsx:98-103 | from full sets, "word" against "dart" leaves the four allowed strings the help page shows |
| HelpPage.AboutWalkRefused | src/About.tsx:106-110 | "walk" is then refused twice: W was already tried first, and the third letter must be R |
| HelpPage.AboutAfterDark | src/About.tsx:143-148 | after "dark" the allowed strings are "d", "a", "r" and the alphabet minus d and k |
| Game.Slice | src/Game.tsx:218 | `slice(0, n)` is a prefix of length min(length, n) |
| Game.TypedBuffer | src/Game.tsx:216-219 | a letter key never makes the buffer longer than the word: with room it appends the lowercase letter, on a full buffer it changes nothing |
| Game.ErasedBuffer | src/Game.tsx:223-224 | Backspace drops exactly the last character and leaves an empty buffer empty |
| Game.AcceptedIffRemaining | src/Game.tsx:227-246 | Enter accepts a word exactly when `countRemainingWords` counts it |
| Game.RefusalHasReasons | src/Game.tsx:238-245 | a word refused as "not allowed" has the right length, is in the dictionary and carries at least one message, caused by a rule or a position letter |
| Game.ApplyClue | src/Game.tsx:250-260 | the position-by-position update computes exactly `UpdateAllowed` |
| Game.Counts | src/Game.tsx:261-271 | one count per row: one before any guess and one after each |
| Game.HistorySnoc | src/Game.tsx:250-273 | one more guess narrows the replayed letters by its clue and appends exactly one count |
| Game.InitialCounts | src/Game.tsx:143-144 | the first count is the one `fullyAllowed` with target "" gives, the number of lowercase words of the length |
| Game.TargetStaysAllowed | src/Game.tsx:250-260 | whatever was guessed, each letter of a lowercase target stays allowed at its position |
| Game.TargetAlwaysAccepted | src/Game.tsx:227-246 | a lowercase dictionary target of the right length is always accepted by Enter, whatever the history |
| Game.StartConsistent | src/Game.tsx:156-160 | a fresh board of length n is consistent and its count is the number of lowercase words of length n |
| Game.AcceptConsistent | src/Game.tsx:248-274 | accepting a full-length guess while guesses remain keeps the state consistent |
| Game.ReplayStep | src/Game.tsx:250-271 | between two consistent states one guess apart, the allowed letters are narrowed by exactly that guess's clue and exactly one count is appended, taken with the new letters and history |
| Game.ShownCount | src/Game.tsx:261-271 | in a consistent state there is one count per row, the last is the number of remaining words, and those are exactly the words Enter would accept |
| Game.FirstCount | src/Game.tsx:141-144 | with no guess, a consistent state has full sets and the one count of all lowercase words of the length |
| Game.TargetAcceptedNow | src/Game.tsx:227-246 | in a consistent state the target, a lowercase dictionary word of the length, is accepted |
| Game.Narrowed | src/Game.tsx:248-274 | the board after an accepted guess is consistent with the longer history and an empty buffer |
| Game.NewBoard | src/Game.tsx:156-160 | a new board is consistent with no guess and an empty buffer |
| Game.Check | src/Game.tsx:227-246 | the checks, run through the loops, give exactly the verdict `Judge` states |
| Game.Game.constructor | src/Game.tsx:109-144 | the first render: playing, no guess, a consistent board; the length is the challenge's or the clamped `l` parameter, the target the challenge or the drawn word, the game number the clamped `g` parameter, and the opening hints |
| Game.Game.Restart | src/Game.tsx:154-163 | any new game: playing, the given length and target, no guess, an empty buffer and a consistent board |
| Game.Game.StartNextGame | src/Game.tsx:146-165 | the challenge is cleared, the length clamped, the target the given one or the drawn word, the hints cleared; the game number grows by one only for a drawn word |
| Game.Game.GameOver | src/Game.tsx:200-204 | the closing hint names the upper-cased target, the two replay hints are shown and the state is set; the board is unchanged |
| Game.Game.Record | src/Game.tsx:248-274 | an accepted guess is appended, the buffer emptied, and the state stays consistent |
| Game.Game.Accept | src/Game.tsx:248-287 | after recording: a guess equal to the target wins with "You scored N"; reaching the limit wins with "Congrats! Your score is OVER M"; otherwise play goes on with the hints cleared |
| Game.Game.Submit | src/Game.tsx:227-287 | the verdict is `Judge` on the old state; every refusal leaves the board, history and buffer unchanged with the matching hint ("Too short", "Not a valid word", "Word not allowed" plus one line per problem); acceptance appends one guess and sets the state and hints |
| Game.Game.OnKey | src/Game.tsx:206-288 | the key handler keeps the state consistent. After a game, Enter starts a drawn game and Backspace replays the target; other keys do nothing. While playing, nothing happens once the guesses are used up; a letter types, Backspace erases and Enter submits. Enter leaves the target, length, challenge and game number alone. A refusal leaves the history, buffer, allowed letters and count unchanged and shows the refusal hint with its problems. An acceptance appends one guess and shows the score on the target, the "OVER" message at the limit, and clears the hints otherwise |
| Game.Game.GiveUp | src/Game.tsx:374-384 | enabled only while playing with a guess: it loses with "Your score would have been at least N for TARGET."; otherwise nothing changes |
| Game.Game.ChangeLength | src/Game.tsx:348-372 | disabled during a game with a guess, a letter typed or a challenge; otherwise it starts game 1 of the chosen length with the drawn word and the hint "N letters" |

## Left out

- Rendering, focus, sharing, clipboard and the React row layout are not modelled. Neither are the keyboard listener's Ctrl/Meta filtering and `preventDefault`.
- The screen-reader announcement (`speak`) is left out. `DescribeClue` models its text.
- `randomTarget`, `pick`, `resetRng` and the seeded random generator are left out. The drawn word is a parameter, so the RNG skip-ahead to the game number is not modelled.
- Base64 decoding of the `c` challenge parameter and its dictionary check are left out. The decoded word and the error flag are constructor parameters.
- URL reading and `history.replaceState` are left out. Query parameters come in as `UrlParam` values: missing or empty, not a number, or a whole number. A fractional `l` or `g` value, which the source would accept when in range, is not modelled.
- `describeSeed` renders a date through the locale (`toLocaleDateString`). The model returns the year, month and day instead of the text.
- The source keeps the dictionary grouped by length (`dictionaryByLength`). The model filters the whole dictionary by length, which counts the same words. For a challenge word longer than eleven letters the source's table has no entry and counting throws. The model counts anyway.
- `Allowed.AreAllLettersAllowed`: requires the guess to be no longer than the allowed list, because reading past the list throws in the source.
- The in-place mutation of the `allowedLetters` array inside the updater is modelled as a value update, so aliasing between renders is not captured.
- The `clue === undefined` break in the `letterInfo` loop cannot happen, because `clue` always sets a clue. It is not modelled.
- `Messages.Text`: the contract states only that each message is non-empty. The exact wording is the body itself, which follows the source's template strings.
- `Util.ToUpper`, `Util.ToLower`: JavaScript's case mapping of non-ASCII characters is not modelled. Only a-z reaches `toUpperCase` (src/clue.ts:57, 76, 143, 146; src/Game.tsx:201) and only single keys that pass the a-z test reach `toLowerCase` (src/Game.tsx:216-218). The challenge word lowercased at src/Game.tsx:85 is a constructor parameter.
- `Game.Game.ChangeLength`: requires a length of 4-11, the range the slider allows.
- `Game.Game.Record`, `Game.Game.Accept`, `Game.Game.Submit` and `Game.Game.OnKey`: the new allowed letters and counts are stated through `Valid()`, the replay invariant, not restated per method. `Game.ReplayStep` derives the exact update from two valid states.
