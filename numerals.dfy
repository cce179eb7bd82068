/**
 * Integer text forms as Python writes them: `str(n)` (decimal) and the format
 * specification `'0{width}x'` (lower-case hexadecimal, sign-aware zero padding),
 * together with the parsers that invert them.
 */
module Numerals {
  import opened Wrappers

  /** An octet, as Python's `bytes` holds them. */
  newtype byte = b: int | 0 <= b < 256

  /** The lower-case digit character for a digit value below 16. */
  function DigitChar(d: nat): (c: char)
    requires d < 16
  {
    if d < 10 then ('0' as int + d) as char else ('a' as int + d - 10) as char
  }

  /** The value of a lower-case digit character, or -1 for any other character. */
  function DigitValue(c: char): (v: int)
    ensures -1 <= v < 16
    ensures v >= 0 ==> DigitChar(v) == c
  {
    if '0' <= c <= '9' then c as int - '0' as int
    else if 'a' <= c <= 'f' then c as int - 'a' as int + 10
    else -1
  }

  lemma DigitValueOfChar(d: nat)
    requires d < 16
    ensures DigitValue(DigitChar(d)) == d
  {
  }

  predicate IsDigits(s: string, base: nat) {
    forall i :: 0 <= i < |s| ==> 0 <= DigitValue(s[i]) < base
  }

  lemma DigitsAppend(a: string, b: string, base: nat)
    requires IsDigits(a, base) && IsDigits(b, base)
    ensures IsDigits(a + b, base)
  {
    forall i | 0 <= i < |a + b| ensures 0 <= DigitValue((a + b)[i]) < base {
      if i < |a| { assert (a + b)[i] == a[i]; } else { assert (a + b)[i] == b[i - |a|]; }
    }
  }

  /** A digit string holds no character outside its digit set. */
  lemma DigitsExclude(s: string, base: nat, c: char)
    requires IsDigits(s, base) && DigitValue(c) < 0
    ensures c !in s
  {
  }

  lemma DivModBounds(n: nat, base: nat)
    requires 2 <= base <= n
    ensures 1 <= n / base < n && n % base < base
    ensures n == (n / base) * base + n % base
  {
  }

  /** Canonical digits of n in the given base: no leading zero, "0" for zero. */
  function NatToDigits(n: nat, base: nat): (s: string)
    requires 2 <= base <= 16
    ensures |s| >= 1 && IsDigits(s, base)
    ensures n > 0 ==> s[0] != '0'
    decreases n
  {
    if n < base then [DigitChar(n)]
    else
      var q, d := n / base, n % base;
      assert q >= 1 && q < n && d < base by { DivModBounds(n, base); }
      NatToDigits(q, base) + [DigitChar(d)]
  }

  /** The number a digit string denotes, most significant digit first. */
  function DigitsToNat(s: string, base: nat): nat
    requires 2 <= base <= 16 && IsDigits(s, base)
  {
    if s == [] then 0
    else DigitsToNat(s[..|s| - 1], base) * base + DigitValue(s[|s| - 1])
  }

  lemma {:induction false} DigitsRoundTrip(n: nat, base: nat)
    requires 2 <= base <= 16
    ensures DigitsToNat(NatToDigits(n, base), base) == n
    decreases n
  {
    if n >= base {
      DivModBounds(n, base);
      var s := NatToDigits(n / base, base);
      var t := NatToDigits(n, base);
      assert t == s + [DigitChar(n % base)];
      assert t[..|t| - 1] == s;
      DigitValueOfChar(n % base);
      DigitsRoundTrip(n / base, base);
      assert DigitsToNat(t, base) == DigitsToNat(s, base) * base + n % base;
    } else {
      DigitValueOfChar(n);
    }
  }

  function Zeros(k: nat): (s: string)
    ensures |s| == k && forall i :: 0 <= i < k ==> s[i] == '0'
  {
    seq(k, _ => '0')
  }

  /** Left-pads with '0' up to the given width; never truncates. */
  function ZeroPad(s: string, width: nat): (r: string)
    ensures |r| == if |s| >= width then |s| else width
  {
    if |s| >= width then s else Zeros(width - |s|) + s
  }

  lemma {:induction false} LeadingZeros(k: nat, s: string, base: nat)
    requires 2 <= base <= 16 && IsDigits(s, base)
    ensures IsDigits(Zeros(k) + s, base)
    ensures DigitsToNat(Zeros(k) + s, base) == DigitsToNat(s, base)
    decreases |s|, k
  {
    var z := Zeros(k) + s;
    assert forall i :: 0 <= i < |z| ==> 0 <= DigitValue(z[i]) < base by {
      forall i | 0 <= i < |z| ensures 0 <= DigitValue(z[i]) < base {
        if i < k { assert z[i] == '0'; } else { assert z[i] == s[i - k]; }
      }
    }
    if s == [] {
      if k > 0 {
        assert z[..|z| - 1] == Zeros(k - 1) + [];
        assert z[|z| - 1] == '0';
        LeadingZeros(k - 1, [], base);
      } else {
        assert z == [];
      }
    } else {
      assert z[..|z| - 1] == Zeros(k) + s[..|s| - 1];
      assert z[|z| - 1] == s[|s| - 1];
      LeadingZeros(k, s[..|s| - 1], base);
    }
  }

  /** Python's `str(n)` for an int. */
  function Decimal(n: int): (s: string)
    ensures |s| >= 1
  {
    if n < 0 then "-" + NatToDigits(-n, 10) else NatToDigits(n, 10)
  }

  /** Python's `format(n, '0{width}x')`: the sign counts towards the width. */
  function FormatHex(n: int, width: nat): (s: string)
    ensures |s| >= width
  {
    if n < 0 then "-" + ZeroPad(NatToDigits(-n, 16), if width > 0 then width - 1 else 0)
    else ZeroPad(NatToDigits(n, 16), width)
  }

  /** A non-empty digit string in the given base, read as a natural number. */
  function ParseNat(s: string, base: nat): (r: Option<nat>)
    requires 2 <= base <= 16
    ensures r.Some? <==> s != [] && IsDigits(s, base)
  {
    if s != [] && IsDigits(s, base) then Some(DigitsToNat(s, base)) else None
  }

  /** An optional '-' followed by a non-empty digit string, read as an integer. */
  function ParseInt(s: string, base: nat): (r: Option<int>)
    requires 2 <= base <= 16
    ensures r.Some? ==> |s| >= 1
  {
    if |s| > 0 && s[0] == '-' then
      var v :- ParseNat(s[1..], base);
      var neg: int := 0 - v as int;
      Some(neg)
    else
      var v :- ParseNat(s, base);
      Some(v)
  }

  lemma DecimalRoundTrip(n: int)
    ensures ParseInt(Decimal(n), 10) == Some(n)
  {
    var f := Decimal(n);
    if n < 0 {
      var d := NatToDigits(-n, 10);
      DigitsRoundTrip(-n, 10);
      assert f[1..] == d;
      ParseIntSigned(f, 10, -n);
    } else {
      var d := NatToDigits(n, 10);
      DigitsRoundTrip(n, 10);
      assert d[0] != '-' by { assert DigitValue(d[0]) >= 0; }
      ParseIntUnsigned(f, 10, n);
    }
  }

  lemma PaddedDigitsRoundTrip(m: nat, width: nat)
    ensures var p := ZeroPad(NatToDigits(m, 16), width);
      |p| >= 1 && p[0] != '-' && ParseNat(p, 16) == Some(m)
  {
    var d := NatToDigits(m, 16);
    var k: nat := if |d| >= width then 0 else width - |d|;
    assert ZeroPad(d, width) == Zeros(k) + d;
    LeadingZeros(k, d, 16);
    DigitsRoundTrip(m, 16);
    var p := ZeroPad(d, width);
    assert p[0] != '-' by { assert DigitValue(p[0]) >= 0; }
  }

  lemma ParseIntSigned(s: string, base: nat, v: nat)
    requires 2 <= base <= 16
    requires |s| > 0 && s[0] == '-' && ParseNat(s[1..], base) == Some(v)
    ensures ParseInt(s, base) == Some(-(v as int))
  {
  }

  lemma ParseIntUnsigned(s: string, base: nat, v: nat)
    requires 2 <= base <= 16
    requires |s| > 0 && s[0] != '-' && ParseNat(s, base) == Some(v)
    ensures ParseInt(s, base) == Some(v)
  {
  }

  lemma FormatHexRoundTrip(n: int, width: nat)
    ensures ParseInt(FormatHex(n, width), 16) == Some(n)
  {
    if n < 0 {
      NegativeHexRoundTrip(n, width);
    } else {
      PaddedDigitsRoundTrip(n, width);
      ParseIntUnsigned(FormatHex(n, width), 16, n);
    }
  }

  lemma NegativeHexRoundTrip(n: int, width: nat)
    requires n < 0
    ensures ParseInt(FormatHex(n, width), 16) == Some(n)
  {
    var m: nat := -n;
    var w: nat := if width > 0 then width - 1 else 0;
    var p := ZeroPad(NatToDigits(m, 16), w);
    var f := FormatHex(n, width);
    PaddedDigitsRoundTrip(m, w);
    assert ParseNat(p, 16) == Some(m);
    assert f[0] == '-' && f[1..] == p by {
      assert f == "-" + p;
    }
    assert ParseNat(f[1..], 16) == Some(m);
    ParseIntSigned(f, 16, m);
  }

  /** The digits FormatHex writes for a non-negative value are lower-case hexadecimal. */
  lemma FormatHexDigits(n: nat, width: nat)
    ensures IsDigits(FormatHex(n, width), 16)
  {
    var d := NatToDigits(n, 16);
    var k: nat := if |d| >= width then 0 else width - |d|;
    assert ZeroPad(d, width) == Zeros(k) + d;
    LeadingZeros(k, d, 16);
  }

}
