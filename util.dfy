/**
 * Model of src/util.ts: the difficulty levels, the English ordinal and
 * number words used in messages, and the arithmetic part of `describeSeed`
 * (the guess limit reaches the game as its `maxGuesses` parameter). The JavaScript string helpers the rest of the model needs
 * (`split`, `indexOf`, number-to-string, `toUpperCase`) live here too.
 */
module Util {
  import opened Wrappers

  datatype Difficulty = Normal | Hard | UltraHard

  // ---------------------------------------------------------------------
  // Sequences and strings

  /** Number of occurrences of `x` in `s`. */
  function Count<T(==)>(s: seq<T>, x: T): (n: nat)
    ensures n <= |s|
  {
    if s == [] then 0 else (if s[0] == x then 1 else 0) + Count(s[1..], x)
  }

  lemma {:induction false} CountIsMultiplicity<T>(s: seq<T>, x: T)
    ensures Count(s, x) == multiset(s)[x]
  {
    if s != [] {
      CountIsMultiplicity(s[1..], x);
      assert s == [s[0]] + s[1..];
    }
  }

  /** `Array.prototype.indexOf`: the first index holding `x`, or -1. */
  function IndexOf<T(==)>(s: seq<T>, x: T): (r: int)
    ensures r == -1 <==> x !in s
    ensures r != -1 ==> 0 <= r < |s| && s[r] == x && x !in s[..r]
  {
    IndexFromMeaning(s, x, 0);
    var r := IndexFrom(s, x, 0);
    assert r != -1 ==> forall y :: y in s[..r] ==> y != x by {
      if r != -1 {
        forall y | y in s[..r] ensures y != x
        {
          var i :| 0 <= i < r && s[..r][i] == y;
        }
      }
    }
    r
  }

  /** The scan behind `IndexOf`, from index `from` on. */
  function IndexFrom<T(==)>(s: seq<T>, x: T, from: nat): int
    decreases |s| - from
  {
    if from >= |s| then -1
    else if s[from] == x then from
    else IndexFrom(s, x, from + 1)
  }

  /** The scan finds the first index at or after `from` holding `x`, or gives -1 when there is none. */
  lemma {:induction false} IndexFromMeaning<T>(s: seq<T>, x: T, from: nat)
    ensures var r := IndexFrom(s, x, from);
      r == -1 <==> forall i :: from <= i < |s| ==> s[i] != x
    ensures var r := IndexFrom(s, x, from);
      r != -1 ==> from <= r < |s| && s[r] == x && forall i :: from <= i < r ==> s[i] != x
    decreases |s| - from
  {
    if from < |s| && s[from] != x {
      IndexFromMeaning(s, x, from + 1);
    }
  }

  /**
   * `String.prototype.split` with a one-character separator: the pieces
   * between separators, so `n` separators give `n + 1` pieces (possibly empty).
   */
  function Split(s: string, sep: char): (parts: seq<string>)
  {
    SplitAfter(s, sep, "")
  }

  /** Splitting `s` when `piece` has already been read since the last separator. */
  function SplitAfter(s: string, sep: char, piece: string): (parts: seq<string>)
    ensures |parts| >= 1
    decreases |s|
  {
    if s == [] then [piece]
    else if s[0] == sep then [piece] + SplitAfter(s[1..], sep, "")
    else SplitAfter(s[1..], sep, piece + [s[0]])
  }

  /** `Array.prototype.join` with a one-character separator. */
  function Join(parts: seq<string>, sep: char): string
  {
    if parts == [] then ""
    else if |parts| == 1 then parts[0]
    else parts[0] + [sep] + Join(parts[1..], sep)
  }

  lemma {:induction false} SplitAfterCount(s: string, sep: char, piece: string)
    ensures |SplitAfter(s, sep, piece)| == Count(s, sep) + 1
    decreases |s|
  {
    if s != [] {
      if s[0] == sep {
        SplitAfterCount(s[1..], sep, "");
      } else {
        SplitAfterCount(s[1..], sep, piece + [s[0]]);
      }
    }
  }

  lemma {:induction false} SplitAfterFree(s: string, sep: char, piece: string)
    requires sep !in piece
    ensures forall p :: p in SplitAfter(s, sep, piece) ==> sep !in p
    decreases |s|
  {
    if s != [] {
      if s[0] == sep {
        SplitAfterFree(s[1..], sep, "");
      } else {
        SplitAfterFree(s[1..], sep, piece + [s[0]]);
      }
    }
  }

  lemma JoinCons(a: string, rest: seq<string>, sep: char)
    requires |rest| >= 1
    ensures Join([a] + rest, sep) == a + [sep] + Join(rest, sep)
  {
    assert ([a] + rest)[0] == a;
    assert ([a] + rest)[1..] == rest;
  }

  lemma {:induction false} SplitAfterJoin(s: string, sep: char, piece: string)
    ensures Join(SplitAfter(s, sep, piece), sep) == piece + s
    decreases |s|
  {
    if s == [] {
      assert piece + s == piece;
    } else {
      var tail := s[1..];
      if s[0] == sep {
        var rest := SplitAfter(tail, sep, "");
        assert SplitAfter(s, sep, piece) == [piece] + rest;
        assert Join(rest, sep) == tail by {
          SplitAfterJoin(tail, sep, "");
          assert "" + tail == tail;
        }
        JoinCons(piece, rest, sep);
        assert piece + [sep] + tail == piece + s by {
          assert s == [sep] + tail;
        }
      } else {
        assert SplitAfter(s, sep, piece) == SplitAfter(tail, sep, piece + [s[0]]);
        SplitAfterJoin(tail, sep, piece + [s[0]]);
        assert piece + [s[0]] + tail == piece + s by {
          assert s == [s[0]] + tail;
        }
      }
    }
  }

  /**
   * `s.split(sep)` has one piece more than `s` has separators, no piece
   * contains the separator, and joining the pieces gives `s` back.
   */
  lemma SplitPieces(s: string, sep: char)
    ensures |Split(s, sep)| == Count(s, sep) + 1
    ensures forall p :: p in Split(s, sep) ==> sep !in p
    ensures Join(Split(s, sep), sep) == s
  {
    SplitAfterCount(s, sep, "");
    SplitAfterFree(s, sep, "");
    SplitAfterJoin(s, sep, "");
    assert "" + s == s;
  }

  lemma {:induction false} SplitAfterPiece(p: string, rest: string, sep: char, piece: string)
    requires sep !in p
    ensures SplitAfter(p + rest, sep, piece) == SplitAfter(rest, sep, piece + p)
    decreases |p|
  {
    if p == [] {
      assert p + rest == rest && piece + p == piece;
    } else {
      assert (p + rest)[0] == p[0] && p[0] != sep;
      assert (p + rest)[1..] == p[1..] + rest;
      SplitAfterPiece(p[1..], rest, sep, piece + [p[0]]);
      assert piece + [p[0]] + p[1..] == piece + p;
    }
  }

  /** Joining pieces free of the separator and splitting again gives the pieces back. */
  lemma {:induction false} SplitJoin(parts: seq<string>, sep: char)
    requires |parts| >= 1
    requires forall p :: p in parts ==> sep !in p
    ensures Split(Join(parts, sep), sep) == parts
  {
    if |parts| == 1 {
      SplitAfterPiece(parts[0], "", sep, "");
      assert parts[0] + "" == parts[0];
    } else {
      var rest := Join(parts[1..], sep);
      assert Join(parts, sep) == parts[0] + ([sep] + rest);
      SplitAfterPiece(parts[0], [sep] + rest, sep, "");
      assert "" + parts[0] == parts[0];
      assert ([sep] + rest)[0] == sep && ([sep] + rest)[1..] == rest;
      assert SplitAfter([sep] + rest, sep, parts[0]) == [parts[0]] + Split(rest, sep);
      SplitJoin(parts[1..], sep);
      assert parts == [parts[0]] + parts[1..];
    }
  }

  /** JavaScript's `toUpperCase` on the letters a-z; other characters are kept. */
  function ToUpper(c: char): (u: char)
    ensures 'a' <= c <= 'z' ==> 'A' <= u <= 'Z' && u as int == c as int - 32
    ensures !('a' <= c <= 'z') ==> u == c
  {
    if 'a' <= c <= 'z' then (c as int - 32) as char else c
  }

  function UpperString(s: string): (u: string)
    ensures |u| == |s| && forall i :: 0 <= i < |s| ==> u[i] == ToUpper(s[i])
  {
    if s == [] then [] else [ToUpper(s[0])] + UpperString(s[1..])
  }

  /** JavaScript's `toLowerCase` on the letters A-Z; other characters are kept. */
  function ToLower(c: char): (l: char)
    ensures 'A' <= c <= 'Z' ==> 'a' <= l <= 'z' && l as int == c as int + 32
    ensures !('A' <= c <= 'Z') ==> l == c
  {
    if 'A' <= c <= 'Z' then (c as int + 32) as char else c
  }

  // ---------------------------------------------------------------------
  // Numbers as text

  function Digit(d: nat): char
    requires d < 10
  {
    "0123456789"[d]
  }

  /** The decimal form of a natural number, as JavaScript prints it. */
  function NatToString(n: nat): (s: string)
    ensures |s| >= 1
  {
    if n < 10 then [Digit(n)] else NatToString(n / 10) + [Digit(n % 10)]
  }

  /** The decimal form is made of digits and has no leading zero. */
  lemma {:induction false} NatToStringDigits(n: nat)
    ensures var s := NatToString(n);
      (forall k :: 0 <= k < |s| ==> '0' <= s[k] <= '9') && (s[0] == '0' ==> n == 0)
  {
    if n >= 10 {
      NatToStringDigits(n / 10);
    }
  }

  /** The value of a string of decimal digits. */
  function DigitsValue(s: string): int
  {
    if s == [] then 0
    else DigitsValue(s[..|s| - 1]) * 10 + (s[|s| - 1] as int - '0' as int)
  }

  /** Reading back the decimal form gives the number. */
  lemma {:induction false} NatToStringValue(n: nat)
    ensures DigitsValue(NatToString(n)) == n
  {
    if n >= 10 {
      NatToStringValue(n / 10);
      var s := NatToString(n);
      assert s[..|s| - 1] == NatToString(n / 10);
    }
  }

  function IntToString(n: int): string
  {
    if n < 0 then "-" + NatToString(-n) else NatToString(n)
  }

  /** The table index of `ordinal`: `(n % 100 >> 3) ^ 1 && n % 10`, where `&&` gives 0 when its left side is 0. */
  function OrdinalIndex(n: nat): nat
  {
    var flag := ((n % 100 / 8) as bv8) ^ 1;
    if flag == 0 then 0 else n % 10
  }

  /** The suffix `ordinal` picks: the table entry at the index, or "th" where it is undefined. */
  function OrdinalSuffix(n: nat): string
  {
    var index := OrdinalIndex(n);
    var table := [None, Some("st"), Some("nd"), Some("rd")];
    (if index < |table| then table[index] else None).GetOr("th")
  }

  /** The English rule: 11th, 12th, 13th, otherwise 1st, 2nd, 3rd by the last digit, else th. */
  function EnglishSuffix(n: nat): string
  {
    if 11 <= n % 100 <= 13 then "th"
    else if n % 10 == 1 then "st"
    else if n % 10 == 2 then "nd"
    else if n % 10 == 3 then "rd"
    else "th"
  }

  lemma FlagZero(x: nat)
    requires x < 13
    ensures ((x as bv8) ^ 1 == 0) <==> x == 1
  {
    if x == 0 { assert (0 as bv8) ^ 1 == 1; }
    else if x == 1 { assert (1 as bv8) ^ 1 == 0; }
    else {
      var b := x as bv8;
      assert b & 0xFE != 0;
      assert ((b ^ 1) & 0xFE) == (b & 0xFE);
    }
  }

  /** The index is 0 for 8..15 modulo 100 and the last digit otherwise. */
  lemma OrdinalIndexValue(n: nat)
    ensures OrdinalIndex(n) == if 8 <= n % 100 <= 15 then 0 else n % 10
  {
    FlagZero(n % 100 / 8);
    assert (n % 100 / 8 == 1) <==> 8 <= n % 100 <= 15;
  }

  lemma LastDigit(n: nat)
    ensures n % 10 == (n % 100) % 10
  {
    var q, m := n / 100, n % 100;
    var a, b := m / 10, m % 10;
    assert m == 10 * a + b && 0 <= b < 10;
    assert n == 10 * (10 * q + a) + b;
  }

  /** The bit trick of `ordinal` agrees with the English rule for every n. */
  lemma OrdinalSuffixRule(n: nat)
    ensures OrdinalSuffix(n) == EnglishSuffix(n)
  {
    OrdinalIndexValue(n);
    LastDigit(n);
    var m, d := n % 100, n % 10;
    if 8 <= m <= 15 {
      assert OrdinalSuffix(n) == "th";
      if !(11 <= m <= 13) {
        assert d == 8 || d == 9 || d == 0 || d == 4 || d == 5;
      }
    } else {
      assert OrdinalIndex(n) == d && !(11 <= m <= 13);
    }
  }

  /** `ordinal(n)`: the decimal form followed by the suffix. */
  function Ordinal(n: nat): (s: string)
    ensures s == NatToString(n) + EnglishSuffix(n)
  {
    OrdinalSuffixRule(n);
    NatToString(n) + OrdinalSuffix(n)
  }

  lemma OrdinalExamplesSmall()
    ensures Ordinal(1) == "1st" && Ordinal(2) == "2nd" && Ordinal(3) == "3rd" && Ordinal(4) == "4th"
  {
  }

  lemma OrdinalExamplesTeens()
    ensures Ordinal(11) == "11th" && Ordinal(12) == "12th" && Ordinal(13) == "13th" && Ordinal(21) == "21st"
  {
    assert NatToString(11) == "11" && NatToString(12) == "12";
    assert NatToString(13) == "13" && NatToString(21) == "21";
  }

  lemma OrdinalExamplesLarge()
    ensures Ordinal(111) == "111th" && Ordinal(112) == "112th" && Ordinal(122) == "122nd"
  {
    assert NatToString(111) == "111" && NatToString(112) == "112" && NatToString(122) == "122";
  }

  // ---------------------------------------------------------------------
  // englishNumbers

  /**
   * The table `englishNumbers`: entry k is the English word for k, for k = 0..11.
   * (The source writes it as one space-separated string that it splits.)
   */
  const EnglishNumbers: seq<string> :=
    ["zero", "one", "two", "three", "four", "five", "six", "seven", "eight", "nine", "ten", "eleven"]

  /**
   * The space-separated list the source splits to build `englishNumbers`,
   * "zero one two three four five six seven eight nine ten eleven", written
   * here in four pieces.
   */
  const EnglishNumbersSource: string := "zero one two " + ("three four five " + ("six seven eight " + "nine ten eleven"))

  /** Splitting at a first separator that follows a separator-free word. */
  lemma SplitWord(w: string, rest: string, sep: char)
    requires sep !in w
    ensures Split(w + [sep] + rest, sep) == [w] + Split(rest, sep)
  {
    assert w + [sep] + rest == w + ([sep] + rest);
    SplitAfterPiece(w, [sep] + rest, sep, "");
    assert "" + w == w;
    assert ([sep] + rest)[0] == sep && ([sep] + rest)[1..] == rest;
  }

  /** A chunk of three separator-free words, each followed by the separator, then the rest. */
  lemma SplitThreeWords(w0: string, w1: string, w2: string, chunk: string, rest: string, sep: char)
    requires sep !in w0 && sep !in w1 && sep !in w2
    requires chunk == w0 + [sep] + w1 + [sep] + w2 + [sep]
    ensures Split(chunk + rest, sep) == [w0, w1, w2] + Split(rest, sep)
  {
    assert chunk + rest == w0 + [sep] + (w1 + [sep] + (w2 + [sep] + rest));
    SplitWord(w2, rest, sep);
    SplitWord(w1, w2 + [sep] + rest, sep);
    SplitWord(w0, w1 + [sep] + (w2 + [sep] + rest), sep);
  }

  lemma SplitLastThree()
    ensures Split("nine ten eleven", ' ') == ["nine", "ten", "eleven"]
  {
    assert "nine ten eleven" == "nine" + " " + ("ten" + " " + "eleven");
    SplitWord("ten", "eleven", ' ');
    SplitWord("nine", "ten" + " " + "eleven", ' ');
    SplitAfterPiece("eleven", "", ' ', "");
    assert "eleven" + "" == "eleven" && "" + "eleven" == "eleven";
  }

  lemma SplitLastSix()
    ensures Split("six seven eight " + "nine ten eleven", ' ') == ["six", "seven", "eight", "nine", "ten", "eleven"]
  {
    SplitThreeWords("six", "seven", "eight", "six seven eight ", "nine ten eleven", ' ');
    SplitLastThree();
  }

  lemma SplitLastNine()
    ensures Split("three four five " + ("six seven eight " + "nine ten eleven"), ' ') ==
      ["three", "four", "five", "six", "seven", "eight", "nine", "ten", "eleven"]
  {
    SplitThreeWords("three", "four", "five", "three four five ", "six seven eight " + "nine ten eleven", ' ');
    SplitLastSix();
  }

  /** Splitting the source's list at spaces gives exactly the table. */
  lemma EnglishNumbersSplit()
    ensures Split(EnglishNumbersSource, ' ') == EnglishNumbers
  {
    SplitThreeWords("zero", "one", "two", "zero one two ", "three four five " + ("six seven eight " + "nine ten eleven"), ' ');
    SplitLastNine();
  }

  /** `englishNumbers[k]` inside a template string: the word, or "undefined" past the end of the table. */
  function EnglishNumber(k: nat): (w: string)
    ensures k < 12 ==> w == EnglishNumbers[k]
    ensures k >= 12 ==> w == "undefined"
  {
    if k < |EnglishNumbers| then EnglishNumbers[k] else "undefined"
  }

  // ---------------------------------------------------------------------
  // describeSeed

  /** A multiple of one of the divisors the leap-year test uses leaves no remainder. */
  lemma DivisibleWhenMultiple(k: int, m: int)
    requires m == 4 || m == 16 || m == 25 || m == 100 || m == 400
    ensures (m * k) % m == 0
  {
    if m == 4 { assert (4 * k) % 4 == 0; }
    else if m == 16 { assert (16 * k) % 16 == 0; }
    else if m == 25 { assert (25 * k) % 25 == 0; }
    else if m == 100 { assert (100 * k) % 100 == 0; }
    else { assert (400 * k) % 400 == 0; }
  }

  /** JavaScript's `%`: the remainder truncated toward zero (its sign follows `a`). */
  function JsRem(a: int, b: int): (r: int)
    requires b > 0
    ensures a >= 0 ==> r == a % b
    ensures -b < r < b
  {
    if a >= 0 then a % b else -((-a) % b)
  }

  /** A JavaScript remainder is zero exactly when `b` divides `a`. */
  lemma JsRemZero(a: int, b: int)
    requires b == 4 || b == 16 || b == 25
    ensures JsRem(a, b) == 0 <==> a % b == 0
  {
    if a < 0 {
      if (-a) % b == 0 {
        assert a == b * (-((-a) / b));
        DivisibleWhenMultiple(-((-a) / b), b);
      }
      if a % b == 0 {
        assert -a == b * (-(a / b));
        DivisibleWhenMultiple(-(a / b), b);
      }
    }
  }

  /** The leap-year test of `describeSeed`: `year % (year % 25 ? 4 : 16) === 0`. */
  predicate CompactLeap(year: int)
  {
    JsRem(year, if JsRem(year, 25) != 0 then 4 else 16) == 0
  }

  /** The Gregorian rule: divisible by 4, and not by 100 unless by 400. */
  predicate GregorianLeap(year: int)
  {
    year % 4 == 0 && (year % 100 != 0 || year % 400 == 0)
  }

  /** 25 and 16 are coprime, as are 25 and 4. */
  lemma Coprime(y: int)
    ensures (y % 25 == 0 && y % 16 == 0) <==> y % 400 == 0
    ensures (y % 25 == 0 && y % 4 == 0) <==> y % 100 == 0
    ensures y % 16 == 0 ==> y % 4 == 0
  {
    if y % 25 == 0 && y % 16 == 0 {
      var p, q := y / 16, y / 25;
      assert y == 16 * p && y == 25 * q;
      var t := 2 * p - 3 * q;
      assert q == 8 * t;
      var u := p - 12 * t;
      assert t == 2 * u;
      assert y == 400 * u;
      DivisibleWhenMultiple(u, 400);
    }
    if y % 400 == 0 {
      var k := y / 400;
      assert y == 25 * (16 * k) && y == 16 * (25 * k);
      DivisibleWhenMultiple(16 * k, 25);
      DivisibleWhenMultiple(25 * k, 16);
    }
    if y % 25 == 0 && y % 4 == 0 {
      var p, q := y / 4, y / 25;
      assert y == 4 * p && y == 25 * q;
      var u := p - 6 * q;
      assert q == 4 * u;
      assert y == 100 * u;
      DivisibleWhenMultiple(u, 100);
    }
    if y % 100 == 0 {
      var k := y / 100;
      assert y == 25 * (4 * k) && y == 4 * (25 * k);
      DivisibleWhenMultiple(4 * k, 25);
      DivisibleWhenMultiple(25 * k, 4);
    }
    if y % 16 == 0 {
      assert y == 4 * (4 * (y / 16));
      DivisibleWhenMultiple(4 * (y / 16), 4);
    }
  }

  /** The compact formula is the Gregorian rule, for every integer year. */
  lemma LeapRules(year: int)
    ensures CompactLeap(year) == GregorianLeap(year)
  {
    JsRemZero(year, 25);
    JsRemZero(year, 4);
    JsRemZero(year, 16);
    Coprime(year);
  }

  /** `days[month]`, with February at 28 or 29. */
  function MonthDays(month: int, leap: bool): int
    requires 0 <= month <= 12
  {
    [0, 31, if leap then 29 else 28, 31, 30, 31, 30, 31, 31, 30, 31, 30, 31][month]
  }

  /** What `describeSeed` produces: a calendar date (rendered by the locale) or the text "seed N". */
  datatype SeedDescription = CalendarDate(year: int, month: int, day: int) | SeedLabel(text: string)

  function SeedYear(seed: int): int { seed / 10000 }
  function SeedMonth(seed: int): int { JsRem(seed / 100, 100) }
  function SeedDay(seed: int): int { JsRem(seed, 100) }

  function DescribeSeed(seed: int): SeedDescription
  {
    var year := SeedYear(seed);
    var month := SeedMonth(seed);
    var day := SeedDay(seed);
    var isLeap := CompactLeap(year);
    if 2000 <= year <= 2100 && 1 <= month <= 12 && 1 <= day <= MonthDays(month, isLeap) then
      CalendarDate(year, month, day)
    else
      SeedLabel("seed " + IntToString(seed))
  }

  /** The length of a month in the Gregorian calendar, written the usual way. */
  function GregorianMonthLength(year: int, month: int): int
  {
    if month == 2 then (if GregorianLeap(year) then 29 else 28)
    else if month == 4 || month == 6 || month == 9 || month == 11 then 30
    else 31
  }

  /** A day of the years 2000 to 2100, the range `describeSeed` renders as a date. */
  predicate IsRenderedDate(year: int, month: int, day: int)
  {
    2000 <= year <= 2100 && 1 <= month <= 12 && 1 <= day <= GregorianMonthLength(year, month)
  }

  /** The date branch is taken exactly for the valid dates of 2000..2100, and the seed is YYYYMMDD. */
  lemma DescribeSeedBranches(seed: int)
    ensures DescribeSeed(seed).CalendarDate? <==> IsRenderedDate(SeedYear(seed), SeedMonth(seed), SeedDay(seed))
    ensures DescribeSeed(seed).CalendarDate? ==>
      DescribeSeed(seed) == CalendarDate(SeedYear(seed), SeedMonth(seed), SeedDay(seed)) &&
      seed == SeedYear(seed) * 10000 + SeedMonth(seed) * 100 + SeedDay(seed)
    ensures DescribeSeed(seed).SeedLabel? ==> DescribeSeed(seed).text == "seed " + IntToString(seed)
  {
    LeapRules(SeedYear(seed));
    if SeedYear(seed) >= 2000 {
      var y, m, d := seed / 10000, seed / 100 % 100, seed % 100;
      assert seed == (seed / 100) * 100 + d;
      assert seed / 100 == (seed / 100 / 100) * 100 + m;
      assert seed / 100 / 100 == y;
    }
  }

  /** Every valid date of 2000..2100, written as YYYYMMDD, is rendered as that date. */
  lemma DescribeDate(year: int, month: int, day: int)
    requires IsRenderedDate(year, month, day)
    ensures DescribeSeed(year * 10000 + month * 100 + day) == CalendarDate(year, month, day)
  {
    var seed := year * 10000 + month * 100 + day;
    assert seed == (year * 100 + month) * 100 + day;
    assert seed / 100 == year * 100 + month;
    assert seed % 100 == day;
    assert (year * 100 + month) / 100 == year;
    assert seed / 10000 == (seed / 100) / 100;
    DescribeSeedBranches(seed);
  }
}
