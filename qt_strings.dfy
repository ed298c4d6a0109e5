/**
  The few QString / QByteArray operations the core relies on, stated over `string`
  (a sequence of characters): searching (indexOf, lastIndexOf, contains, startsWith,
  endsWith), sectioning (section(sep, 0, 0) and section(sep, 1)), mid, number() and
  toInt(), and C++'s truncating integer division.
*/
module QtStrings {
  import opened Wrappers

  /** `pat` occurs in `s` starting at index `i`. */
  predicate OccursAt(s: string, pat: string, i: nat) {
    i + |pat| <= |s| && s[i..i + |pat|] == pat
  }

  /** The first occurrence of `pat` in `s` at index `from` or later. */
  function IndexFrom(s: string, pat: string, from: nat): (r: Option<nat>)
    ensures r.Some? ==> from <= r.value && OccursAt(s, pat, r.value)
    ensures r.Some? ==> forall j :: from <= j < r.value ==> !OccursAt(s, pat, j)
    ensures r.None? ==> forall j :: from <= j ==> !OccursAt(s, pat, j)
    decreases |s| - from
  {
    if from + |pat| > |s| then None
    else if s[from..from + |pat|] == pat then Some(from)
    else IndexFrom(s, pat, from + 1)
  }

  /** indexOf: the first occurrence of `pat` in `s`, or None for Qt's -1. */
  function IndexOf(s: string, pat: string): (r: Option<nat>)
    ensures r.Some? ==> OccursAt(s, pat, r.value) && forall j :: 0 <= j < r.value ==> !OccursAt(s, pat, j)
    ensures r.None? <==> forall j :: 0 <= j ==> !OccursAt(s, pat, j)
  {
    IndexFrom(s, pat, 0)
  }

  /** The last occurrence of `pat` in `s` at an index below `k`. */
  function LastBelow(s: string, pat: string, k: nat): (r: Option<nat>)
    ensures r.Some? ==> r.value < k && OccursAt(s, pat, r.value)
    ensures r.Some? ==> forall j :: r.value < j < k ==> !OccursAt(s, pat, j)
    ensures r.None? ==> forall j :: 0 <= j < k ==> !OccursAt(s, pat, j)
    decreases k
  {
    if k == 0 then None
    else if OccursAt(s, pat, k - 1) then Some(k - 1)
    else LastBelow(s, pat, k - 1)
  }

  /** lastIndexOf: the last occurrence of `pat` in `s`, or None for Qt's -1. */
  function LastIndexOf(s: string, pat: string): (r: Option<nat>)
    ensures r.Some? ==> OccursAt(s, pat, r.value) && forall j :: r.value < j ==> !OccursAt(s, pat, j)
    ensures r.None? <==> forall j :: 0 <= j ==> !OccursAt(s, pat, j)
  {
    LastBelow(s, pat, |s| + 1)
  }

  predicate Contains(s: string, pat: string) {
    IndexOf(s, pat).Some?
  }

  predicate StartsWith(s: string, prefix: string) {
    |prefix| <= |s| && s[..|prefix|] == prefix
  }

  predicate EndsWith(s: string, suffix: string) {
    |suffix| <= |s| && s[|s| - |suffix|..] == suffix
  }

  /** section(sep, 0, 0): the text before the first `sep`, or all of `s` when `sep` does not occur. */
  function SectionFirst(s: string, sep: string): (r: string)
    ensures |r| <= |s|
    ensures |sep| > 0 ==> !Contains(r, sep)
    ensures !Contains(s, sep) ==> r == s
    ensures Contains(s, sep) ==> r == s[..IndexOf(s, sep).value]
  {
    match IndexOf(s, sep)
    case None => s
    case Some(i) =>
      assert |sep| > 0 ==> forall j: nat :: OccursAt(s[..i], sep, j) ==> OccursAt(s, sep, j) && j < i by {
        forall j: nat | |sep| > 0 && OccursAt(s[..i], sep, j) ensures OccursAt(s, sep, j) && j < i {
          assert s[..i][j..j + |sep|] == s[j..j + |sep|];
        }
      }
      s[..i]
  }

  /** section(sep, 1): the text after the first `sep`, or "" when `sep` does not occur. */
  function SectionRest(s: string, sep: string): (r: string)
    ensures !Contains(s, sep) ==> r == ""
    ensures Contains(s, sep) ==> |r| + |sep| <= |s| && s[|s| - |r|..] == r
    ensures Contains(s, sep) ==> r == s[IndexOf(s, sep).value + |sep|..]
  {
    match IndexOf(s, sep)
    case None => ""
    case Some(i) => s[i + |sep|..]
  }

  /** Where `sep` occurs, the two sections and `sep` between them give back `s`. */
  lemma SectionSplit(s: string, sep: string)
    requires Contains(s, sep)
    ensures SectionFirst(s, sep) + sep + SectionRest(s, sep) == s
  {
    var i := IndexOf(s, sep).value;
    assert s[..i] + s[i..i + |sep|] + s[i + |sep|..] == s;
  }

  /** For a one-character separator absent from `a`, sectioning `a + [c] + b` gives back `a` and `b`. */
  lemma {:induction false} SectionOfJoin(a: string, c: char, b: string)
    requires c !in a
    ensures SectionFirst(a + [c] + b, [c]) == a
    ensures SectionRest(a + [c] + b, [c]) == b
  {
    var s := a + [c] + b;
    assert OccursAt(s, [c], |a|) by { assert s[|a|..|a| + 1] == [c]; }
    forall j: nat | j < |a| ensures !OccursAt(s, [c], j) {
      assert s[j..j + 1] == [a[j]];
    }
    var r := IndexOf(s, [c]);
    assert r.Some? && r.value == |a|;
    assert s[..|a|] == a;
    assert s[|a| + 1..] == b;
  }

  /** The string a C `const char *` denotes: the characters before the first NUL, or all of them. */
  function CString(s: string): (r: string)
    ensures '\0' !in r
    ensures StartsWith(s, r)
    ensures '\0' !in s ==> r == s
    ensures |r| < |s| ==> s[|r|] == '\0'
  {
    CStringFrom(s, 0)
  }

  /** The characters of `s` from `i` up to the first NUL at `i` or later. */
  function CStringFrom(s: string, i: nat): (r: string)
    requires i <= |s|
    ensures '\0' !in r
    ensures i + |r| <= |s| && r == s[i..i + |r|]
    ensures '\0' !in s[i..] ==> r == s[i..]
    ensures i + |r| < |s| ==> s[i + |r|] == '\0'
    decreases |s| - i
  {
    if i == |s| || s[i] == '\0' then []
    else
      var rest := CStringFrom(s, i + 1);
      assert s[i..i + 1 + |rest|] == [s[i]] + s[i + 1..i + 1 + |rest|];
      assert '\0' !in s[i..] ==> '\0' !in s[i + 1..] by {
        assert s[i..] == [s[i]] + s[i + 1..];
      }
      [s[i]] + rest
  }

  /** Whitespace as the C library's isspace sees it. */
  predicate IsSpace(c: char) {
    c == ' ' || c == '\t' || c == '\n' || c == '\r' || c as int == 11 || c as int == 12
  }

  predicate IsDigit(c: char) {
    '0' <= c <= '9'
  }

  predicate AllDigits(s: string) {
    forall i :: 0 <= i < |s| ==> IsDigit(s[i])
  }

  function DigitChar(d: nat): (c: char)
    requires d < 10
    ensures IsDigit(c) && c as int - '0' as int == d
  {
    ('0' as int + d) as char
  }

  /** The value of a decimal digit string, most significant digit first. */
  function DigitsValue(ds: string): nat
    requires AllDigits(ds)
  {
    if |ds| == 0 then 0
    else DigitsValue(ds[..|ds| - 1]) * 10 + (ds[|ds| - 1] as int - '0' as int)
  }

  /** QString::number for a non-negative int: its decimal digits, with no leading zero. */
  function NatToString(n: nat): (r: string)
    ensures |r| >= 1 && AllDigits(r)
    ensures |r| == 1 <==> n < 10
    ensures n < 100 ==> |r| <= 2
    ensures |r| > 1 ==> r[0] != '0'
    decreases n
  {
    if n < 10 then [DigitChar(n)] else NatToString(n / 10) + [DigitChar(n % 10)]
  }

  /** QString::number(int): a minus sign and the digits of the magnitude for a negative value. */
  function IntToString(i: int): (r: string)
  {
    if i < 0 then "-" + NatToString(-i) else NatToString(i)
  }

  /** Reading back the digits that NatToString writes gives the number. */
  lemma {:induction false} DigitsOfNat(n: nat)
    ensures DigitsValue(NatToString(n)) == n
    decreases n
  {
    if n >= 10 {
      var r := NatToString(n);
      assert r[..|r| - 1] == NatToString(n / 10);
      DigitsOfNat(n / 10);
    }
  }

  function TrimStart(s: string): (r: string)
    ensures |r| <= |s|
    ensures r == [] || !IsSpace(r[0])
  {
    if |s| > 0 && IsSpace(s[0]) then TrimStart(s[1..]) else s
  }

  function TrimEnd(s: string): (r: string)
    ensures |r| <= |s|
    ensures r == [] || !IsSpace(r[|r| - 1])
  {
    if |s| > 0 && IsSpace(s[|s| - 1]) then TrimEnd(s[..|s| - 1]) else s
  }

  /**
    QByteArray::toInt() in base 10: surrounding whitespace is skipped, one optional sign is
    allowed, and the rest must be decimal digits; anything else converts to 0.
  */
  function ParseInt(s: string): int {
    ParseTrimmed(TrimEnd(TrimStart(s)))
  }

  /** The sign and digits check of toInt(), once the whitespace is gone. */
  function ParseTrimmed(t: string): int {
    if |t| > 0 && AllDigits(t) then DigitsValue(t)
    else if |t| > 1 && t[0] == '+' && AllDigits(t[1..]) then DigitsValue(t[1..])
    else if |t| > 1 && t[0] == '-' && AllDigits(t[1..]) then -(DigitsValue(t[1..]) as int)
    else 0
  }

  /** number() writes no surrounding whitespace. */
  lemma IntToStringUntrimmed(i: int)
    ensures TrimEnd(TrimStart(IntToString(i))) == IntToString(i)
  {
    var r := IntToString(i);
    assert !IsSpace(r[0]) by { assert r[0] == '-' || IsDigit(r[0]); }
    assert TrimStart(r) == r;
    assert !IsSpace(r[|r| - 1]) by { assert IsDigit(r[|r| - 1]); }
  }

  /** toInt() reads back what number() writes. */
  lemma ParseIntOfIntToString(i: int)
    ensures ParseInt(IntToString(i)) == i
  {
    IntToStringUntrimmed(i);
    ParseTrimmedOfIntToString(i);
  }

  lemma ParseTrimmedOfIntToString(i: int)
    ensures ParseTrimmed(IntToString(i)) == i
  {
    var r := IntToString(i);
    if i < 0 {
      var d := NatToString(-i);
      assert r[0] == '-' && r[1..] == d;
      assert !AllDigits(r) by { assert !IsDigit(r[0]); }
      DigitsOfNat(-i);
    } else {
      DigitsOfNat(i);
    }
  }

  /** QByteArray::mid(pos, len): at most `len` characters from `pos`; empty when `pos` is past the end. */
  function Mid(s: string, pos: nat, len: nat): (r: string)
    ensures |r| <= len
    ensures pos + len <= |s| ==> r == s[pos..pos + len]
    ensures pos >= |s| ==> r == []
    ensures pos < |s| < pos + len ==> r == s[pos..]
  {
    if pos >= |s| then [] else if pos + len <= |s| then s[pos..pos + len] else s[pos..]
  }

  function Abs(i: int): nat {
    if i < 0 then -i else i
  }

  /** C++ `/` on int: the quotient truncated toward zero. */
  function TruncDiv(a: int, b: int): int
    requires b != 0
  {
    if (a >= 0) == (b > 0) then Abs(a) / Abs(b) else -(Abs(a) / Abs(b))
  }

  /** C++ `%` on int: the remainder that goes with TruncDiv. */
  function TruncMod(a: int, b: int): int
    requires b != 0
  {
    a - b * TruncDiv(a, b)
  }

  /** Negating one factor negates the product. */
  lemma MulNegate(x: int, y: int)
    ensures (-x) * y == -(x * y) && x * (-y) == -(x * y)
  {
  }

  /** The remainder is the Euclidean remainder of the magnitudes, with the sign of the dividend. */
  lemma TruncModOfMagnitudes(a: int, b: int)
    requires b != 0
    ensures TruncMod(a, b) == if a >= 0 then Abs(a) % Abs(b) else -(Abs(a) % Abs(b))
  {
    var q := Abs(a) / Abs(b);
    var m := Abs(a) % Abs(b);
    assert Abs(a) == Abs(b) * q + m;
    MulNegate(Abs(b), q);
    if a >= 0 && b > 0 {
      assert b * TruncDiv(a, b) == Abs(b) * q;
    } else if a >= 0 {
      MulNegate(Abs(b), -q);
      assert b * TruncDiv(a, b) == Abs(b) * q;
    } else if b > 0 {
      assert b * TruncDiv(a, b) == -(Abs(b) * q);
    } else {
      assert b * TruncDiv(a, b) == -(Abs(b) * q);
    }
  }

  /** The remainder is smaller than the divisor and has the sign of the dividend; on
      non-negative operands both agree with Dafny's Euclidean operators. */
  lemma TruncDivMod(a: int, b: int)
    requires b != 0
    ensures Abs(TruncMod(a, b)) < Abs(b)
    ensures a >= 0 ==> TruncMod(a, b) >= 0
    ensures a <= 0 ==> TruncMod(a, b) <= 0
    ensures a >= 0 && b > 0 ==> TruncDiv(a, b) == a / b && TruncMod(a, b) == a % b
  {
    TruncModOfMagnitudes(a, b);
    assert 0 <= Abs(a) % Abs(b) < Abs(b);
  }
}
