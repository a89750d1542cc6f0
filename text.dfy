/** The Python `str` operations the pipeline relies on: `strip`, `lower`,
    `startswith`/`endswith`, `replace` of one character, `split`/`join` on one
    separator character, decimal printing of integers (`str(n)`,
    `f"{n:02d}"`) and the parsers behind `int(...)` and `float(...)`. */
module Text {
  import opened Wrappers

  /** The characters Python's `str.strip()` removes, restricted to ASCII. */
  predicate IsSpace(c: char) {
    c == ' ' || c == '\t' || c == '\n' || c == '\r' || c == '\U{0B}' || c == '\U{0C}'
    || ('\U{1C}' <= c <= '\U{1F}')
  }

  predicate IsDigit(c: char) {
    '0' <= c <= '9'
  }

  predicate AllDigits(s: string) {
    forall i | 0 <= i < |s| :: IsDigit(s[i])
  }

  predicate StartsWith(s: string, prefix: string) {
    |prefix| <= |s| && s[..|prefix|] == prefix
  }

  predicate EndsWith(s: string, suffix: string) {
    |suffix| <= |s| && s[|s| - |suffix|..] == suffix
  }

  // ---------------------------------------------------------------------
  // strip

  /** The index of the first character at or after `i` that is not a space
      (`|s|` when there is none). */
  function SkipSpaces(s: string, i: nat): (k: nat)
    requires i <= |s|
    ensures i <= k <= |s| && (k < |s| ==> !IsSpace(s[k]))
    decreases |s| - i
  {
    if i < |s| && IsSpace(s[i]) then SkipSpaces(s, i + 1) else i
  }

  /** The end of `s[..j]` once its trailing spaces are dropped, never going
      below `lo`. */
  function SkipSpacesBack(s: string, lo: nat, j: nat): (k: nat)
    requires lo <= j <= |s|
    ensures lo <= k <= j && (lo < k ==> !IsSpace(s[k - 1]))
    decreases j
  {
    if lo < j && IsSpace(s[j - 1]) then SkipSpacesBack(s, lo, j - 1) else j
  }

  /** `s.strip()`: what lies between the leading and the trailing spaces. */
  function Trim(s: string): (r: string)
    ensures r != [] ==> !IsSpace(r[0]) && !IsSpace(r[|r| - 1])
  {
    var a := SkipSpaces(s, 0);
    s[a..SkipSpacesBack(s, a, |s|)]
  }

  /** What `strip()` removes is spaces, and all of them: the result sits in
      `s` with only spaces before and after it. */
  lemma {:induction false} TrimRemovesSpaces(s: string)
    ensures var a := SkipSpaces(s, 0);
      a + |Trim(s)| <= |s| && s[a..a + |Trim(s)|] == Trim(s)
      && (forall k | 0 <= k < a :: IsSpace(s[k]))
      && (forall k | a + |Trim(s)| <= k < |s| :: IsSpace(s[k]))
  {
    SkippedAreSpaces(s, 0);
    SkippedBackAreSpaces(s, SkipSpaces(s, 0), |s|);
  }

  lemma {:induction false} SkippedAreSpaces(s: string, i: nat)
    requires i <= |s|
    ensures forall k | i <= k < SkipSpaces(s, i) :: IsSpace(s[k])
    decreases |s| - i
  {
    if i < |s| && IsSpace(s[i]) {
      SkippedAreSpaces(s, i + 1);
    }
  }

  lemma {:induction false} SkippedBackAreSpaces(s: string, lo: nat, j: nat)
    requires lo <= j <= |s|
    ensures forall k | SkipSpacesBack(s, lo, j) <= k < j :: IsSpace(s[k])
    decreases j
  {
    if lo < j && IsSpace(s[j - 1]) {
      SkippedBackAreSpaces(s, lo, j - 1);
    }
  }

  /** A string with no space at either end is its own `strip()`. */
  lemma TrimUnpadded(s: string)
    requires s != [] ==> !IsSpace(s[0]) && !IsSpace(s[|s| - 1])
    ensures Trim(s) == s
  {
    assert SkipSpaces(s, 0) == 0;
    assert SkipSpacesBack(s, 0, |s|) == |s|;
  }

  /** `strip()` is idempotent. */
  lemma TrimIdempotent(s: string)
    ensures Trim(Trim(s)) == Trim(s)
  {
    TrimUnpadded(Trim(s));
  }

  // ---------------------------------------------------------------------
  // lower

  function LowerChar(c: char): char {
    if 'A' <= c <= 'Z' then (c as int + 32) as char else c
  }

  /** `s.lower()` on ASCII letters. */
  function Lower(s: string): (r: string)
    ensures |r| == |s|
    ensures forall i | 0 <= i < |s| :: r[i] == LowerChar(s[i])
  {
    seq(|s|, i requires 0 <= i < |s| => LowerChar(s[i]))
  }

  /** `name.lower().endswith(('.png', '.jpg', '.jpeg'))`, the image filter
      of the manual-input tool and of the sharpening pass. */
  predicate IsImageFile(name: string) {
    var l := Lower(name);
    EndsWith(l, ".png") || EndsWith(l, ".jpg") || EndsWith(l, ".jpeg")
  }

  /** `s.lower() == "x"`, letter by letter. */
  predicate LowerIsX(s: string) {
    |s| == 1 && LowerChar(s[0]) == 'x'
  }

  /** `s.lower() == "nan"`, letter by letter. */
  predicate LowerIsNan(s: string) {
    |s| == 3 && LowerChar(s[0]) == 'n' && LowerChar(s[1]) == 'a' && LowerChar(s[2]) == 'n'
  }

  /** The two letter-by-letter tests are the comparisons of the lower-cased
      text, and "x" lower-cases to "x" exactly for "x" and "X". */
  lemma LowerMarkers(s: string)
    ensures LowerIsX(s) <==> Lower(s) == "x"
    ensures LowerIsNan(s) <==> Lower(s) == "nan"
    ensures LowerIsX(s) <==> s == "x" || s == "X"
  {
    if Lower(s) == "x" {
      assert |s| == 1 && Lower(s)[0] == LowerChar(s[0]);
    }
    if Lower(s) == "nan" {
      assert |s| == 3 && Lower(s)[0] == LowerChar(s[0]) && Lower(s)[1] == LowerChar(s[1]) && Lower(s)[2] == LowerChar(s[2]);
    }
    if LowerIsX(s) {
      assert Lower(s) == [LowerChar(s[0])];
    }
    if LowerIsNan(s) {
      assert Lower(s) == [LowerChar(s[0]), LowerChar(s[1]), LowerChar(s[2])];
    }
  }

  // ---------------------------------------------------------------------
  // replace, split, join

  /** `s.replace(target, replacement)` for one-character `target` and `replacement`. */
  function ReplaceChar(s: string, target: char, replacement: char): (r: string)
    ensures |r| == |s|
  {
    seq(|s|, i requires 0 <= i < |s| => if s[i] == target then replacement else s[i])
  }

  /** After replacing every `target` by another character, no `target` is left and
      every other character is where it was. */
  lemma ReplaceCharRemoves(s: string, target: char, replacement: char)
    requires target != replacement
    ensures target !in ReplaceChar(s, target, replacement)
    ensures forall i | 0 <= i < |s| && s[i] != target :: ReplaceChar(s, target, replacement)[i] == s[i]
  {
  }

  /** `s.split(sep)`: the pieces between occurrences of `sep`, always at
      least one (`"".split(sep) == [""]`). */
  function Split(s: string, sep: char): (r: seq<string>)
    ensures |r| >= 1
  {
    if s == [] then [""]
    else if s[0] == sep then [""] + Split(s[1..], sep)
    else
      var rest := Split(s[1..], sep);
      [[s[0]] + rest[0]] + rest[1..]
  }

  /** `sep.join(parts)`. */
  function Join(parts: seq<string>, sep: char): string {
    if |parts| == 0 then ""
    else if |parts| == 1 then parts[0]
    else parts[0] + [sep] + Join(parts[1..], sep)
  }

  /** Joining the pieces of a split gives back the string. */
  lemma {:induction false} JoinSplit(s: string, sep: char)
    ensures Join(Split(s, sep), sep) == s
  {
    if s == [] {
    } else if s[0] == sep {
      JoinSplit(s[1..], sep);
      assert [sep] + s[1..] == s;
    } else {
      var rest := Split(s[1..], sep);
      JoinSplit(s[1..], sep);
      if |rest| == 1 {
        assert [s[0]] + s[1..] == s;
      } else {
        assert Join(rest, sep) == rest[0] + [sep] + Join(rest[1..], sep);
        assert s == [s[0]] + s[1..];
      }
    }
  }

  lemma {:induction false} SplitNoSep(p: string, sep: char)
    requires sep !in p
    ensures Split(p, sep) == [p]
  {
    if p != [] {
      SplitNoSep(p[1..], sep);
      assert [p[0]] + p[1..] == p;
    }
  }

  lemma {:induction false} SplitAtSep(p: string, t: string, sep: char)
    requires sep !in p
    ensures Split(p + [sep] + t, sep) == [p] + Split(t, sep)
  {
    if p == [] {
      assert p + [sep] + t == [sep] + t;
      assert ([sep] + t)[1..] == t;
    } else {
      var s := p + [sep] + t;
      assert s[0] == p[0] && s[1..] == p[1..] + [sep] + t;
      SplitAtSep(p[1..], t, sep);
      assert [p[0]] + p[1..] == p;
    }
  }

  /** Splitting a join of pieces that do not contain the separator gives the
      pieces back. */
  lemma {:induction false} SplitJoin(parts: seq<string>, sep: char)
    requires |parts| >= 1
    requires forall i | 0 <= i < |parts| :: sep !in parts[i]
    ensures Split(Join(parts, sep), sep) == parts
  {
    if |parts| == 1 {
      SplitNoSep(parts[0], sep);
    } else {
      SplitJoin(parts[1..], sep);
      SplitAtSep(parts[0], Join(parts[1..], sep), sep);
      assert [parts[0]] + parts[1..] == parts;
    }
  }

  /** `parts[-1]`. */
  function Last<T>(parts: seq<T>): T
    requires |parts| >= 1
  {
    parts[|parts| - 1]
  }

  /** Whatever precedes the last separator, the last piece of a split is the
      text after it. */
  lemma {:induction false} SplitLast(p: string, t: string, sep: char)
    requires sep !in t
    ensures |Split(p + [sep] + t, sep)| >= 2 && Last(Split(p + [sep] + t, sep)) == t
  {
    var s := p + [sep] + t;
    if p == [] {
      assert s == [sep] + t && s[1..] == t;
      SplitNoSep(t, sep);
    } else {
      assert s[0] == p[0] && s[1..] == p[1..] + [sep] + t;
      SplitLast(p[1..], t, sep);
    }
  }

  /** A character that is neither the separator nor in any piece is not in
      their join. */
  lemma {:induction false} JoinAvoids(parts: seq<string>, sep: char, c: char)
    requires c != sep
    requires forall i | 0 <= i < |parts| :: c !in parts[i]
    ensures c !in Join(parts, sep)
  {
    if |parts| > 1 {
      JoinAvoids(parts[1..], sep, c);
    }
  }

  /** `s.replace(pat, "")`: every occurrence of `pat`, taken left to right
      without overlap, removed. */
  function RemoveAll(s: string, pat: string): (r: string)
    requires pat != []
    ensures |r| <= |s|
  {
    if s == [] then []
    else if StartsWith(s, pat) then RemoveAll(s[|pat|..], pat)
    else [s[0]] + RemoveAll(s[1..], pat)
  }

  /** Removing a suffix that starts with a character the stem does not
      contain gives back the stem. */
  lemma {:induction false} RemoveSuffix(stem: string, pat: string)
    requires pat != [] && pat[0] !in stem
    ensures RemoveAll(stem + pat, pat) == stem
  {
    var s := stem + pat;
    if stem == [] {
      assert s == pat && s[|pat|..] == [];
    } else {
      assert s[0] == stem[0] && s[1..] == stem[1..] + pat;
      assert s[0] == stem[0] != pat[0];
      RemoveSuffix(stem[1..], pat);
    }
  }

  // ---------------------------------------------------------------------
  // decimal integers

  function DigitChar(d: nat): (c: char)
    requires d < 10
    ensures IsDigit(c)
  {
    (48 + d) as char
  }

  function DigitValue(c: char): nat
    requires IsDigit(c)
  {
    c as int - 48
  }

  /** `str(n)` for a natural number: no sign, no leading zero. */
  function NatToString(n: nat): (r: string)
    ensures r != [] && AllDigits(r)
    ensures |r| > 1 ==> r[0] != '0'
  {
    if n < 10 then [DigitChar(n)] else NatToString(n / 10) + [DigitChar(n % 10)]
  }

  /** `str(i)` for an integer. */
  function IntToString(i: int): (r: string)
    ensures r != [] && !IsSpace(r[0]) && !IsSpace(r[|r| - 1])
  {
    if i < 0 then "-" + NatToString(-i) else NatToString(i)
  }

  /** The value of a string of decimal digits. */
  function DigitsValue(s: string): nat
    requires AllDigits(s)
  {
    if s == [] then 0 else DigitsValue(s[..|s| - 1]) * 10 + DigitValue(s[|s| - 1])
  }

  /** A non-empty run of decimal digits, as `int()` reads it (leading zeros
      allowed). */
  function ParseNat(s: string): Option<nat> {
    if s != [] && AllDigits(s) then Some(DigitsValue(s)) else None
  }

  lemma {:induction false} ParseNatToString(n: nat)
    ensures ParseNat(NatToString(n)) == Some(n)
  {
    var s := NatToString(n);
    if n < 10 {
      assert s[..|s| - 1] == [] && DigitValue(s[0]) == n;
      assert DigitsValue(s) == DigitsValue(s[..0]) * 10 + DigitValue(s[0]);
    } else {
      ParseNatToString(n / 10);
      assert s[..|s| - 1] == NatToString(n / 10);
      assert DigitValue(s[|s| - 1]) == n % 10;
    }
  }

  /** Python's `int(s)`: surrounding spaces, an optional sign, then digits.
      Digit-group underscores are not accepted here. */
  function ParseInt(s: string): Option<int> {
    var t := Trim(s);
    if t == [] then None
    else if t[0] == '-' then
      match ParseNat(t[1..])
      case Some(n) => Some(-(n as int))
      case None => None
    else if t[0] == '+' then
      match ParseNat(t[1..])
      case Some(n) => Some(n)
      case None => None
    else
      match ParseNat(t)
      case Some(n) => Some(n)
      case None => None
  }

  /** `int(str(n))` for a natural number. */
  lemma NatRoundTrip(n: nat)
    ensures ParseInt(NatToString(n)) == Some(n)
  {
    IntRoundTrip(n);
  }

  /** `int(str(i)) == i`. */
  lemma IntRoundTrip(i: int)
    ensures ParseInt(IntToString(i)) == Some(i)
  {
    var s := IntToString(i);
    TrimUnpadded(s);
    if i < 0 {
      assert s[1..] == NatToString(-i);
      ParseNatToString(-i);
    } else {
      ParseNatToString(i);
    }
  }

  /** Only strings with a digit in them read as integers. */
  lemma ParseIntNeedsDigit(s: string)
    requires ParseInt(s).Some?
    ensures exists i | 0 <= i < |s| :: IsDigit(s[i])
  {
    var t := Trim(s);
    var a := SkipSpaces(s, 0);
    assert t == s[a..a + |t|];
    if t[0] == '-' || t[0] == '+' {
      assert IsDigit(t[1]) && s[a + 1] == t[1];
    } else {
      assert IsDigit(t[0]) && s[a] == t[0];
    }
  }

  /** `f"{n:02d}"`: at least two characters, zero-padded (the sign counts
      towards the width, so negative numbers are never padded). */
  function Pad2(n: int): string {
    if 0 <= n < 10 then "0" + NatToString(n) else IntToString(n)
  }

  /** The two-digit rendering of 1..99 is exactly two digits and reads back. */
  lemma Pad2RoundTrip(n: int)
    requires 0 <= n < 100
    ensures |Pad2(n)| == 2 && AllDigits(Pad2(n))
    ensures ParseInt(Pad2(n)) == Some(n)
  {
    var s := Pad2(n);
    if n < 10 {
      assert s == [DigitChar(0), DigitChar(n)];
      TrimUnpadded(s);
      assert s[..|s| - 1] == [DigitChar(0)];
      assert s[..|s| - 1][..0] == [];
      assert DigitValue(s[0]) == 0 && DigitValue(s[1]) == n;
      assert DigitsValue(s[..1]) == DigitsValue(s[..1][..0]) * 10 + DigitValue(s[0]);
      assert DigitsValue(s) == DigitsValue(s[..1]) * 10 + DigitValue(s[1]);
    } else {
      assert NatToString(n) == NatToString(n / 10) + [DigitChar(n % 10)];
      IntRoundTrip(n);
    }
  }

  // ---------------------------------------------------------------------
  // decimal numbers, as float() reads them

  function Pow10(e: nat): (r: nat)
    ensures r >= 1
  {
    if e == 0 then 1 else 10 * Pow10(e - 1)
  }

  /** The index of the first occurrence of a character satisfying `p`. */
  function FirstIndex(s: string, c1: char, c2: char): (r: Option<nat>)
    ensures r.Some? ==> r.value < |s| && (s[r.value] == c1 || s[r.value] == c2)
    ensures r.Some? ==> forall k | 0 <= k < r.value :: s[k] != c1 && s[k] != c2
    ensures r.None? ==> forall k | 0 <= k < |s| :: s[k] != c1 && s[k] != c2
  {
    if s == [] then None
    else if s[0] == c1 || s[0] == c2 then Some(0)
    else match FirstIndex(s[1..], c1, c2)
      case Some(k) => Some(k + 1)
      case None => None
  }

  /** An unsigned mantissa: digits, optionally with one point, and at least
      one digit ("5", "5.", ".5", "5.25"). */
  function ParseMantissa(s: string): Option<real> {
    match FirstIndex(s, '.', '.')
    case None =>
      if s != [] && AllDigits(s) then Some(DigitsValue(s) as real) else None
    case Some(p) =>
      var whole, frac := s[..p], s[p + 1..];
      if AllDigits(whole) && AllDigits(frac) && |whole| + |frac| >= 1 then
        Some(DigitsValue(whole) as real + DigitsValue(frac) as real / Pow10(|frac|) as real)
      else None
  }

  /** An exponent: an optional sign and at least one digit. */
  function ParseExponent(s: string): Option<int> {
    if s != [] && (s[0] == '-' || s[0] == '+') then
      match ParseNat(s[1..])
      case Some(n) => Some(if s[0] == '-' then -(n as int) else n)
      case None => None
    else
      match ParseNat(s)
      case Some(n) => Some(n)
      case None => None
  }

  function Scale(m: real, e: int): real {
    if e >= 0 then m * Pow10(e) as real else m / Pow10(-e) as real
  }

  /** An unsigned decimal number with an optional exponent. */
  function ParseUnsignedDecimal(s: string): Option<real> {
    match FirstIndex(s, 'e', 'E')
    case None => ParseMantissa(s)
    case Some(p) =>
      match (ParseMantissa(s[..p]), ParseExponent(s[p + 1..]))
      case (Some(m), Some(e)) => Some(Scale(m, e))
      case _ => None
  }

  /** Python's `float(s)` on decimal text: surrounding spaces, an optional
      sign, a mantissa and an optional exponent. The spellings of infinity
      and not-a-number and digit-group underscores are not accepted here. */
  function ParseDecimal(s: string): Option<real> {
    var t := Trim(s);
    if t != [] && (t[0] == '-' || t[0] == '+') then
      match ParseUnsignedDecimal(t[1..])
      case Some(v) => Some(if t[0] == '-' then -v else v)
      case None => None
    else ParseUnsignedDecimal(t)
  }

  lemma DigitsHaveNoMarks(s: string)
    requires AllDigits(s)
    ensures FirstIndex(s, '.', '.') == None && FirstIndex(s, 'e', 'E') == None
  {
  }

  /** `float(str(i)) == i`: every integer's text reads as that number. */
  lemma DecimalOfInt(i: int)
    ensures ParseDecimal(IntToString(i)) == Some(i as real)
  {
    var s := IntToString(i);
    TrimUnpadded(s);
    if i < 0 {
      assert s[1..] == NatToString(-i);
      DigitsHaveNoMarks(NatToString(-i));
      ParseNatToString(-i);
    } else {
      DigitsHaveNoMarks(s);
      ParseNatToString(i);
    }
  }
}
