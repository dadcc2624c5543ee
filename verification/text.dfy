/**
 The text pieces the exporter is built from: printf's "%u" and "%0Nd"
 conversions of non-negative values, joining with a separator, and the
 inverses used to read an exported line back.
 */
module Text {
  import opened Words

  predicate IsDigit(c: char)
  {
    '0' <= c <= '9'
  }

  predicate AllDigits(s: string)
  {
    forall i :: 0 <= i < |s| ==> IsDigit(s[i])
  }

  function DigitChar(d: nat): (c: char)
    requires d < 10
    ensures IsDigit(c) && c as int - '0' as int == d
  {
    ('0' as int + d) as char
  }

  /** The decimal text printf's "%u" produces for `n`: no sign, no leading zero. */
  function Decimal(n: nat): (s: string)
    ensures |s| >= 1 && AllDigits(s)
    ensures |s| > 1 ==> s[0] != '0'
    decreases n
  {
    if n < 10 then [DigitChar(n)] else Decimal(n / 10) + [DigitChar(n % 10)]
  }

  /** Reads a run of decimal digits; leading zeros contribute nothing. */
  function ParseDecimal(s: string): nat
    requires AllDigits(s)
    decreases |s|
  {
    if |s| == 0 then 0
    else ParseDecimal(s[..|s| - 1]) * 10 + (s[|s| - 1] as int - '0' as int)
  }

  lemma {:induction false} DecimalRoundTrip(n: nat)
    ensures ParseDecimal(Decimal(n)) == n
    decreases n
  {
    if n >= 10 {
      DecimalRoundTrip(n / 10);
      var s := Decimal(n);
      assert s[..|s| - 1] == Decimal(n / 10);
    }
  }

  function Repeat(c: char, n: nat): (s: string)
    ensures |s| == n && forall i :: 0 <= i < n ==> s[i] == c
  {
    seq(n, _ => c)
  }

  lemma {:induction false} LeadingZeros(z: nat, s: string)
    requires AllDigits(s)
    ensures AllDigits(Repeat('0', z) + s)
    ensures ParseDecimal(Repeat('0', z) + s) == ParseDecimal(s)
    decreases |s|
  {
    var t := Repeat('0', z) + s;
    if |s| == 0 {
      assert t == Repeat('0', z);
      ZerosParseToZero(z);
    } else {
      LeadingZeros(z, s[..|s| - 1]);
      assert t[..|t| - 1] == Repeat('0', z) + s[..|s| - 1];
    }
  }

  lemma {:induction false} ZerosParseToZero(z: nat)
    ensures ParseDecimal(Repeat('0', z)) == 0
  {
    if z > 0 {
      ZerosParseToZero(z - 1);
      assert Repeat('0', z)[..z - 1] == Repeat('0', z - 1);
    }
  }

  /** printf's "%0<width>d" for a non-negative value: zeros on the left up to
      `width` characters; a longer number is printed in full. */
  function PadDecimal(n: nat, width: nat): string
  {
    var d := Decimal(n);
    if |d| < width then Repeat('0', width - |d|) + d else d
  }

  /** The padded text is exactly `width` digits when the number fits, and reads
      back as the number. */
  lemma PadDecimalRoundTrip(n: nat, width: nat)
    ensures AllDigits(PadDecimal(n, width))
    ensures |Decimal(n)| <= width ==> |PadDecimal(n, width)| == width
    ensures ParseDecimal(PadDecimal(n, width)) == n
  {
    var d := Decimal(n);
    DecimalRoundTrip(n);
    if |d| < width {
      LeadingZeros(width - |d|, d);
    }
  }

  /** A number below 10^w has at most w digits. */
  lemma {:induction false} DecimalLength(n: nat, w: nat)
    requires w >= 1 && n < Pow10(w)
    ensures |Decimal(n)| <= w
    decreases w
  {
    if n >= 10 && w > 1 {
      DecimalLength(n / 10, w - 1);
    }
  }

  function Pow10(w: nat): (p: nat)
    ensures p >= 1
  {
    if w == 0 then 1 else 10 * Pow10(w - 1)
  }

  /** Index of the first `c` in `s`, or |s| when there is none. */
  function IndexOf(s: string, c: char): (i: nat)
    ensures i <= |s|
    ensures forall j :: 0 <= j < i ==> s[j] != c
    ensures i < |s| ==> s[i] == c
  {
    if |s| == 0 || s[0] == c then 0 else 1 + IndexOf(s[1..], c)
  }

  /** Index of the last `c` in `s`, if any. */
  function LastIndexOf(s: string, c: char): (r: Option<nat>)
    ensures r.Some? ==> r.value < |s| && s[r.value] == c &&
                        forall j :: r.value < j < |s| ==> s[j] != c
    ensures r.None? ==> forall j :: 0 <= j < |s| ==> s[j] != c
  {
    if |s| == 0 then None
    else if s[|s| - 1] == c then Some(|s| - 1)
    else LastIndexOf(s[..|s| - 1], c)
  }

  lemma {:induction false} LastIndexOfBefore(a: string, c: char, b: string)
    requires Free(b, c)
    ensures LastIndexOf(a + [c] + b, c) == Some(|a|)
    decreases |b|
  {
    var s := a + [c] + b;
    if |b| > 0 {
      LastIndexOfBefore(a, c, b[..|b| - 1]);
      assert s[..|s| - 1] == a + [c] + b[..|b| - 1];
    } else {
      assert s == a + [c];
    }
  }

  /** The elements of `xs` with `sep` between neighbours and none at the end. */
  function Join(xs: seq<string>, sep: char): string
  {
    if |xs| == 0 then ""
    else if |xs| == 1 then xs[0]
    else xs[0] + [sep] + Join(xs[1..], sep)
  }

  /** Cuts `s` at every `sep`; the empty text has no fields. */
  function Split(s: string, sep: char): seq<string>
  {
    if |s| == 0 then [] else Fields(s, sep)
  }

  function Fields(s: string, sep: char): seq<string>
    decreases |s|
  {
    var i := IndexOf(s, sep);
    if i == |s| then [s] else [s[..i]] + Fields(s[i + 1..], sep)
  }

  predicate Free(x: string, sep: char)
  {
    forall i :: 0 <= i < |x| ==> x[i] != sep
  }

  lemma {:induction false} FieldsOfJoin(xs: seq<string>, sep: char)
    requires |xs| >= 1
    requires forall i :: 0 <= i < |xs| ==> Free(xs[i], sep)
    ensures Fields(Join(xs, sep), sep) == xs
    decreases |xs|
  {
    if |xs| == 1 {
      assert IndexOf(xs[0], sep) == |xs[0]|;
    } else {
      var s := Join(xs, sep);
      var x := xs[0];
      assert s == x + [sep] + Join(xs[1..], sep);
      assert s[|x|] == sep;
      assert forall j :: 0 <= j < |x| ==> s[j] == x[j];
      assert IndexOf(s, sep) == |x|;
      assert s[..|x|] == x;
      assert s[|x| + 1..] == Join(xs[1..], sep);
      FieldsOfJoin(xs[1..], sep);
      assert [x] + xs[1..] == xs;
    }
  }

  /** Splitting a join gives the pieces back, provided none of them is empty or
      holds the separator. */
  lemma SplitOfJoin(xs: seq<string>, sep: char)
    requires forall i :: 0 <= i < |xs| ==> |xs[i]| > 0 && Free(xs[i], sep)
    ensures Split(Join(xs, sep), sep) == xs
  {
    if |xs| > 0 {
      FieldsOfJoin(xs, sep);
      assert |Join(xs, sep)| > 0 by {
        if |xs| > 1 {
          assert Join(xs, sep) == xs[0] + [sep] + Join(xs[1..], sep);
        }
      }
    }
  }
}
