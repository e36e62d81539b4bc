/**
 * The messages the rule checks of src/clue.ts produce, as values, together
 * with the text the source builds for each.
 */
module Messages {
  import opened Util

  datatype Problem =
    /** Hard: a green letter left its position. */
    | MustBe(pos: nat, letter: char)
    /** Hard: fewer copies of a clued letter than the clue showed. */
    | MustContain(letter: char, count: nat)
    /** Ultra Hard: a non-green letter put back where it was tried. */
    | CantBe(pos: nat, letter: char)
    /** Ultra Hard: a letter known to be absent is used. */
    | CantContain(letter: char)
    /** Ultra Hard: the number of copies is known exactly and differs. */
    | MustContainExactly(letter: char, count: nat)
    /** Allowed letters: the position is settled to a single letter string. */
    | MustBeOnly(pos: nat, allowed: string)
    /** Allowed letters: the letter was already ruled out at the position. */
    | AlreadyBeen(pos: nat, letter: char)

  function Glyph(letter: char): string { [ToUpper(letter)] }

  /** `glyph + (clueCount !== 1 ? "s" : "")`. */
  function Glyphs(letter: char, count: nat): string
  {
    Glyph(letter) + (if count != 1 then "s" else "")
  }

  /** The user-facing text of a problem, as the template strings of src/clue.ts build it. */
  function Text(p: Problem): (t: string)
    ensures |t| > 0
  {
    match p
    case MustBe(pos, letter) => Ordinal(pos + 1) + " letter must be " + Glyph(letter)
    case MustContain(letter, count) =>
      var atLeastN := if count > 1 then "at least " + EnglishNumber(count) + " " else "";
      "Guess must contain " + atLeastN + Glyphs(letter, count)
    case CantBe(pos, letter) => Ordinal(pos + 1) + " letter can't be " + Glyph(letter)
    case CantContain(letter) => "Guess can't contain " + Glyph(letter)
    case MustContainExactly(letter, count) =>
      "Guess must contain exactly " + EnglishNumber(count) + " " + Glyphs(letter, count)
    case MustBeOnly(pos, allowed) => Ordinal(pos + 1) + " letter must be " + UpperString(allowed)
    case AlreadyBeen(pos, letter) => Ordinal(pos + 1) + " letter has already been " + Glyph(letter)
  }

  function Texts(ps: seq<Problem>): (ts: seq<string>)
    ensures |ts| == |ps| && forall k :: 0 <= k < |ps| ==> ts[k] == Text(ps[k])
  {
    if ps == [] then [] else [Text(ps[0])] + Texts(ps[1..])
  }
}
