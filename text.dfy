/** The pieces of Python's string handling that the scripts rely on:
    `str.isspace`, `rstrip`/`lstrip`/`strip`, integer formatting with the
    `0{width}d` format specification, and splitting at a separator. Strings are
    sequences of Dafny characters, that is of Unicode scalar values; a Python
    `str` can also hold lone surrogate code points, which are not modelled. */
module Text {
  import opened Json

  /** Python's `str.isspace` for a single character: the Unicode characters
      whose bidirectional class is WS, B or S, or whose category is Zs. */
  predicate IsSpace(c: char) {
    || ('\t' <= c <= '\r')
    || ('\U{1c}' <= c <= ' ')
    || c == '\U{85}' || c == '\U{a0}' || c == '\U{1680}'
    || ('\U{2000}' <= c <= '\U{200a}')
    || c == '\U{2028}' || c == '\U{2029}' || c == '\U{202f}'
    || c == '\U{205f}' || c == '\U{3000}'
  }

  /** `s.rstrip()`: the longest prefix of `s` that does not end in whitespace
      and leaves only whitespace behind it. */
  function Rstrip(s: string): (r: string)
    ensures |r| <= |s| && r == s[..|r|]
    ensures r == [] || !IsSpace(r[|r| - 1])
    ensures forall i :: |r| <= i < |s| ==> IsSpace(s[i])
  {
    if |s| > 0 && IsSpace(s[|s| - 1]) then Rstrip(s[..|s| - 1]) else s
  }

  /** `s.lstrip()`: the longest suffix of `s` that does not start with
      whitespace and leaves only whitespace before it. */
  function Lstrip(s: string): (r: string)
    ensures |r| <= |s| && r == s[|s| - |r|..]
    ensures r == [] || !IsSpace(r[0])
    ensures forall i :: 0 <= i < |s| - |r| ==> IsSpace(s[i])
  {
    if |s| > 0 && IsSpace(s[0]) then Lstrip(s[1..]) else s
  }

  /** `s` neither starts nor ends with whitespace. */
  predicate Unpadded(s: string) {
    s == [] || (!IsSpace(s[0]) && !IsSpace(s[|s| - 1]))
  }

  /** `r` is the slice of `s` at offset `a` and everything of `s` outside it
      is whitespace. */
  predicate TrimmedAt(s: string, r: string, a: int) {
    && 0 <= a <= |s| - |r| && r == s[a..a + |r|]
    && (forall i :: 0 <= i < a ==> IsSpace(s[i]))
    && (forall i :: a + |r| <= i < |s| ==> IsSpace(s[i]))
  }

  /** `s.strip()`: the slice of `s` that neither starts nor ends with
      whitespace and leaves only whitespace on either side of it. */
  function Strip(s: string): (r: string)
    ensures |r| <= |s|
    ensures Unpadded(r)
    ensures exists a :: TrimmedAt(s, r, a)
  {
    StripSlice(s);
    Lstrip(Rstrip(s))
  }

  /** Where `s.strip()` lies in `s`: it starts where `lstrip` stopped
      removing whitespace from the front of `rstrip`'s result. */
  lemma StripSlice(s: string)
    ensures var t := Rstrip(s);
      var r := Lstrip(t);
      TrimmedAt(s, r, |t| - |r|)
  {
    TrimmedInside(s, Rstrip(s), Lstrip(Rstrip(s)));
  }

  /** Whitespace trimmed from the end of `s`, giving `t`, and then from the
      front of `t`, giving `r`, leaves `r` as a slice of `s` with only
      whitespace around it. */
  lemma TrimmedInside(s: string, t: string, r: string)
    requires |t| <= |s| && t == s[..|t|] && forall i :: |t| <= i < |s| ==> IsSpace(s[i])
    requires |r| <= |t| && r == t[|t| - |r|..] && forall i :: 0 <= i < |t| - |r| ==> IsSpace(t[i])
    ensures TrimmedAt(s, r, |t| - |r|)
  {
    var a := |t| - |r|;
    assert r == s[a..a + |r|] by {
      assert t[a..] == s[a..|t|];
    }
    forall i | 0 <= i < a
      ensures IsSpace(s[i])
    {
      assert s[i] == t[i];
    }
  }


  /** A text without whitespace at either end is its own strip. */
  lemma StripTrimmed(s: string)
    requires Unpadded(s)
    ensures Strip(s) == s
  {
    assert Rstrip(s) == s;
  }

  predicate IsDigit(c: char) {
    '0' <= c <= '9'
  }

  predicate AllDigits(s: string) {
    forall i :: 0 <= i < |s| ==> IsDigit(s[i])
  }

  function DigitChar(d: nat): (c: char)
    requires d < 10
    ensures IsDigit(c) && c as int - '0' as int == d
  {
    (d + '0' as int) as char
  }

  /** `str(n)` for a natural number: its decimal digits, most significant
      first, without leading zeros. */
  function Decimal(n: nat): (s: string)
    ensures 1 <= |s| && AllDigits(s)
    ensures n < 10 ==> |s| == 1
    ensures 10 <= n < 100 ==> |s| == 2
    ensures |s| == 1 ==> n < 10
  {
    if n < 10 then [DigitChar(n)] else Decimal(n / 10) + [DigitChar(n % 10)]
  }

  /** The number a string of decimal digits denotes (the reference reading of
      digit strings, used to state what the formatting functions produce). */
  function ParseDecimal(s: string): nat
    requires AllDigits(s)
  {
    if s == [] then 0 else ParseDecimal(s[..|s| - 1]) * 10 + (s[|s| - 1] as int - '0' as int)
  }

  lemma {:induction false} DecimalRoundTrip(n: nat)
    ensures ParseDecimal(Decimal(n)) == n
  {
    var s := Decimal(n);
    if n >= 10 {
      DecimalRoundTrip(n / 10);
      assert s[..|s| - 1] == Decimal(n / 10);
    }
  }

  function Zeros(k: nat): (s: string)
    ensures |s| == k && forall i :: 0 <= i < k ==> s[i] == '0'
  {
    if k == 0 then [] else Zeros(k - 1) + ['0']
  }

  lemma {:induction false} ParseZeros(k: nat)
    ensures AllDigits(Zeros(k)) && ParseDecimal(Zeros(k)) == 0
  {
    if k > 0 {
      ParseZeros(k - 1);
      assert Zeros(k)[..k - 1] == Zeros(k - 1);
    }
  }

  /** Leading zeros do not change the number a digit string denotes. */
  lemma {:induction false} ParseLeadingZeros(k: nat, s: string)
    requires AllDigits(s)
    ensures AllDigits(Zeros(k) + s)
    ensures ParseDecimal(Zeros(k) + s) == ParseDecimal(s)
  {
    var t := Zeros(k) + s;
    if s == [] {
      assert t == Zeros(k);
      ParseZeros(k);
    } else {
      ParseLeadingZeros(k, s[..|s| - 1]);
      assert t[..|t| - 1] == Zeros(k) + s[..|s| - 1];
    }
  }

  /** `s` left-padded with zeros to at least `width` characters. */
  function ZeroPad(s: string, width: nat): (r: string)
    ensures |r| == if |s| >= width then |s| else width
    ensures r == Zeros(|r| - |s|) + s
  {
    if |s| >= width then s else Zeros(width - |s|) + s
  }

  /** The length of a text of `length` characters padded to at least
      `width`. */
  function PaddedLength(length: nat, width: nat): nat {
    if length >= width then length else width
  }

  /** The decimal digits of `m`, zero-padded to at least `width` characters:
      a digit string that reads back as `m`. */
  function PaddedDigits(m: nat, width: nat): (r: string)
    ensures AllDigits(r) && ParseDecimal(r) == m
    ensures |r| == PaddedLength(|Decimal(m)|, width)
  {
    var digits := ZeroPad(Decimal(m), width);
    DecimalRoundTrip(m);
    ParseLeadingZeros(|digits| - |Decimal(m)|, Decimal(m));
    digits
  }

  /** Python's `format(n, "0{width}d")`: the decimal digits of `|n|`, a minus
      sign in front when `n` is negative, and zeros between the sign and the
      digits until the whole text, sign included, is `width` characters long.
      Digits that do not fit are never cut. */
  function FormatInt(n: int, width: nat): (r: string)
    ensures n >= 0 ==> AllDigits(r) && ParseDecimal(r) == n
    ensures n >= 0 ==> |r| == PaddedLength(|Decimal(n)|, width)
    ensures n < 0 ==> |r| >= 2 && r[0] == '-'
    ensures n < 0 ==> AllDigits(r[1..]) && ParseDecimal(r[1..]) == -n
    ensures n < 0 ==> |r| == PaddedLength(|Decimal(-n)| + 1, width)
  {
    if n < 0 then
      var m: nat := -n;
      var r := Negated(m, width);
      assert AllDigits(r[1..]) && ParseDecimal(r[1..]) == m;
      r
    else
      var r := PaddedDigits(n, width);
      assert AllDigits(r) && ParseDecimal(r) == n;
      r
  }

  /** The formatted text is never shorter than the width, nor empty. */
  lemma FormatIntWidth(n: int, width: nat)
    ensures |FormatInt(n, width)| >= width && |FormatInt(n, width)| >= 1
  {
    if n >= 0 {
      assert |Decimal(n)| >= 1;
    } else {
      assert |Decimal(-n)| >= 1;
    }
  }

  /** A number below 100 zero-padded to two characters takes exactly two. */
  lemma TwoDigits(n: int)
    requires 0 <= n < 100
    ensures |FormatInt(n, 2)| == 2
  {
    assert |Decimal(n)| <= 2;
  }

  /** A natural number is formatted as its decimal digits zero-padded to the
      width. */
  lemma PaddedFormat(n: nat, width: nat)
    ensures FormatInt(n, width) == ZeroPad(Decimal(n), width)
  {
    assert FormatInt(n, width) == PaddedDigits(n, width);
  }

  /** A minus sign and the digits of `m`, zero-padded so that the whole text
      has at least `width` characters. */
  function Negated(m: nat, width: nat): (r: string)
    ensures |r| >= 2 && r[0] == '-'
    ensures AllDigits(r[1..]) && ParseDecimal(r[1..]) == m
    ensures |r| == PaddedLength(|Decimal(m)| + 1, width)
  {
    var inner := if width > 0 then width - 1 else 0;
    var digits := PaddedDigits(m, inner);
    SignedLength(|Decimal(m)|, width);
    var r := ['-'] + digits;
    assert r[1..] == digits;
    r
  }

  /** A sign takes one of the `width` places the digits would otherwise
      fill. */
  lemma SignedLength(length: nat, width: nat)
    requires length >= 1
    ensures PaddedLength(length + 1, width) == PaddedLength(length, if width > 0 then width - 1 else 0) + 1
    ensures PaddedLength(length, if width > 0 then width - 1 else 0) >= 1
  {
  }

  /** Splits `s` at the first occurrence of `c`. */
  function SplitAt(s: string, c: char): (r: Option<(string, string)>)
    ensures r.Some? ==> c !in r.value.0 && s == r.value.0 + [c] + r.value.1
    ensures r.None? ==> c !in s
  {
    if s == [] then None
    else if s[0] == c then Some(([], s[1..]))
    else match SplitAt(s[1..], c)
      case None => None
      case Some(p) => Some(([s[0]] + p.0, p.1))
  }

  /** Splitting at `c` finds exactly the first `c`. */
  lemma {:induction false} SplitAtFirst(a: string, c: char, b: string)
    requires c !in a
    ensures SplitAt(a + [c] + b, c) == Some((a, b))
  {
    if a != [] {
      SplitAtFirst(a[1..], c, b);
      var s := a + [c] + b;
      assert s[0] == a[0] && s[0] != c;
      assert s[1..] == a[1..] + [c] + b;
      assert [a[0]] + a[1..] == a;
    } else {
      assert a + [c] + b == [c] + b;
    }
  }

  /** Python's `s.split(sep)` for a one-character separator. */
  function Split(s: string, sep: char): (r: seq<string>)
    ensures |r| >= 1
    ensures forall i :: 0 <= i < |r| ==> sep !in r[i]
    decreases |s|
  {
    match SplitAt(s, sep)
    case None => [s]
    case Some(p) => [p.0] + Split(p.1, sep)
  }

  lemma SplitNoSeparator(s: string, sep: char)
    requires sep !in s
    ensures Split(s, sep) == [s]
  {
  }

  /** Splitting after joining separator-free parts gives the parts back. */
  lemma {:induction false} SplitJoin3(a: string, b: string, c: string, sep: char)
    requires sep !in a && sep !in b && sep !in c
    ensures Split(a + [sep] + b + [sep] + c, sep) == [a, b, c]
  {
    var s := a + [sep] + b + [sep] + c;
    assert s == a + [sep] + (b + [sep] + c);
    SplitAtFirst(a, sep, b + [sep] + c);
    SplitAtFirst(b, sep, c);
    SplitNoSeparator(c, sep);
  }
}
