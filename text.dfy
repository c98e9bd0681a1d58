/** String helpers the core relies on: ASCII upper-casing (`strings.ToUpper`),
    substring search (`LIKE '%s%'`), joining with a separator
    (the hand-written `joinErrors`), the lexicographic order used by
    `ORDER BY` on text columns, and zero-padded decimals (`%05d` and the
    date layout "20060102"). Strings are sequences of
    characters; only ASCII case mapping is modelled. */
module Text {

  // ---------------------------------------------------------------- case

  function UpperChar(c: char): char
  {
    if 'a' <= c <= 'z' then (c as int - 32) as char else c
  }

  /** ASCII `strings.ToUpper`. */
  function Upper(s: string): (r: string)
    ensures |r| == |s|
    ensures forall i :: 0 <= i < |s| ==> r[i] == UpperChar(s[i])
  {
    seq(|s|, i requires 0 <= i < |s| => UpperChar(s[i]))
  }

  // ----------------------------------------------------------- substring

  predicate OccursAt(s: string, sub: string, i: int)
  {
    0 <= i <= |s| - |sub| && s[i..i + |sub|] == sub
  }

  /** `sub` occurs somewhere in `s`. */
  predicate Contains(s: string, sub: string)
  {
    exists i | 0 <= i <= |s| - |sub| :: OccursAt(s, sub, i)
  }

  // ---------------------------------------------------------------- join

  /** The elements of `xs` with `sep` between consecutive ones. */
  function Joined(xs: seq<string>, sep: string): string
  {
    if |xs| == 0 then ""
    else if |xs| == 1 then xs[0]
    else Joined(xs[..|xs| - 1], sep) + sep + xs[|xs| - 1]
  }

  function TotalLength(xs: seq<string>): nat
  {
    if xs == [] then 0 else TotalLength(xs[..|xs| - 1]) + |xs[|xs| - 1]|
  }

  // ---------------------------------------------------- lexicographic order

  /** Strict lexicographic order on character codes. */
  predicate StrLess(a: string, b: string)
  {
    if a == [] then b != []
    else b != [] && (a[0] < b[0] || (a[0] == b[0] && StrLess(a[1..], b[1..])))
  }

  lemma {:induction false} StrLessIrreflexive(a: string)
    ensures !StrLess(a, a)
  {
    if a != [] {
      StrLessIrreflexive(a[1..]);
    }
  }

  lemma {:induction false} StrLessTransitive(a: string, b: string, c: string)
    requires StrLess(a, b) && StrLess(b, c)
    ensures StrLess(a, c)
  {
    if a != [] && a[0] == b[0] && b[0] == c[0] {
      StrLessTransitive(a[1..], b[1..], c[1..]);
    }
  }

  lemma {:induction false} StrLessTotal(a: string, b: string)
    ensures a == b || StrLess(a, b) || StrLess(b, a)
  {
    if a != [] && b != [] && a[0] == b[0] {
      StrLessTotal(a[1..], b[1..]);
      if a[1..] == b[1..] {
        assert a == [a[0]] + a[1..] && b == [b[0]] + b[1..];
      }
    }
  }

  // ------------------------------------------------------------- decimals

  function Pow10(n: nat): (r: nat)
    ensures r >= 1
  {
    if n == 0 then 1 else 10 * Pow10(n - 1)
  }

  function DigitChar(d: nat): char
    requires d < 10
  {
    ('0' as int + d) as char
  }

  predicate IsDigit(c: char)
  {
    '0' <= c <= '9'
  }

  /** The value of a string of decimal digits. */
  function DecimalValue(s: string): nat
    requires forall i :: 0 <= i < |s| ==> IsDigit(s[i])
  {
    if s == [] then 0
    else
      assert IsDigit(s[|s| - 1]);
      10 * DecimalValue(s[..|s| - 1]) + (s[|s| - 1] as int - '0' as int)
  }

  /** `n` in decimal, left-padded with zeros to exactly `width` digits
      (Go's `%0<width>d` for a value that fits). */
  function PadDecimal(n: nat, width: nat): string
    requires n < Pow10(width)
  {
    if width == 0 then ""
    else PadDecimal(n / 10, width - 1) + [DigitChar(n % 10)]
  }

  lemma {:induction false} PadDecimalFacts(n: nat, width: nat)
    requires n < Pow10(width)
    ensures |PadDecimal(n, width)| == width
    ensures forall i :: 0 <= i < width ==> IsDigit(PadDecimal(n, width)[i])
    ensures DecimalValue(PadDecimal(n, width)) == n
  {
    if width > 0 {
      PadDecimalFacts(n / 10, width - 1);
      var s := PadDecimal(n, width);
      assert s[..|s| - 1] == PadDecimal(n / 10, width - 1);
    }
  }
}
