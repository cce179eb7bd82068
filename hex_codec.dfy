/**
 * Python's `bytes.hex()`: two lower-case hexadecimal digits per byte, high
 * nibble first; and its inverse on lower-case hexadecimal text.
 */
module HexCodec {
  import opened Wrappers
  import opened Numerals

  function ByteHex(b: byte): (s: string)
    ensures |s| == 2 && IsDigits(s, 16)
  {
    [DigitChar(b as int / 16), DigitChar(b as int % 16)]
  }

  /** `bytes.hex()`. */
  function Hex(bs: seq<byte>): (s: string)
    ensures |s| == 2 * |bs|
    ensures IsDigits(s, 16)
  {
    if bs == [] then [] else ByteHex(bs[0]) + Hex(bs[1..])
  }

  /** Reads lower-case hexadecimal text back into bytes; None on odd length or a non-digit. */
  function UnHex(s: string): (r: Option<seq<byte>>)
    ensures r.Some? ==> |s| == 2 * |r.value|
  {
    if s == [] then Some([])
    else if |s| == 1 then None
    else
      var hi, lo := DigitValue(s[0]), DigitValue(s[1]);
      if hi < 0 || lo < 0 then None
      else
        var rest :- UnHex(s[2..]);
        Some([(hi * 16 + lo) as byte] + rest)
  }

  /** Hex text holds digits only, so it never contains a field separator. */
  lemma HexHasNo(bs: seq<byte>, c: char)
    requires DigitValue(c) < 0
    ensures c !in Hex(bs)
  {
  }

  lemma NibbleSplit(hi: int, lo: int)
    requires 0 <= hi < 16 && 0 <= lo < 16
    ensures 0 <= hi * 16 + lo < 256
    ensures (hi * 16 + lo) / 16 == hi && (hi * 16 + lo) % 16 == lo
  {
  }

  lemma ByteNibbles(b: byte)
    ensures 0 <= b as int / 16 < 16 && 0 <= b as int % 16 < 16
    ensures (b as int / 16) * 16 + b as int % 16 == b as int
  {
  }

  lemma {:induction false} HexRoundTrip(bs: seq<byte>)
    ensures UnHex(Hex(bs)) == Some(bs)
  {
    if bs != [] {
      var b := bs[0];
      var hi, lo := b as int / 16, b as int % 16;
      ByteNibbles(b);
      var t := Hex(bs[1..]);
      var s := Hex(bs);
      assert s == [DigitChar(hi), DigitChar(lo)] + t;
      assert s[2..] == t;
      DigitValueOfChar(hi);
      DigitValueOfChar(lo);
      HexRoundTrip(bs[1..]);
      UnHexStep(s, b, bs[1..]);
      assert [b] + bs[1..] == bs;
    }
  }

  lemma UnHexStep(s: string, b: byte, rest: seq<byte>)
    requires |s| >= 2 && DigitValue(s[0]) == b as int / 16 && DigitValue(s[1]) == b as int % 16
    requires UnHex(s[2..]) == Some(rest)
    ensures UnHex(s) == Some([b] + rest)
  {
    ByteNibbles(b);
  }

  /** UnHex accepts every lower-case hexadecimal text of even length. */
  lemma {:induction false} UnHexTotal(s: string)
    requires IsDigits(s, 16) && |s| % 2 == 0
    ensures UnHex(s).Some?
    decreases |s|
  {
    if s != [] {
      assert IsDigits(s[2..], 16) by {
        forall i | 0 <= i < |s[2..]| ensures 0 <= DigitValue(s[2..][i]) < 16 {
          assert s[2..][i] == s[i + 2];
        }
      }
      UnHexTotal(s[2..]);
      assert DigitValue(s[0]) >= 0 && DigitValue(s[1]) >= 0;
    }
  }

  /** Every text UnHex accepts is the hex of what it decodes to, so Hex is onto lower-case hex of even length. */
  lemma {:induction false} UnHexRoundTrip(s: string)
    requires UnHex(s).Some?
    ensures Hex(UnHex(s).value) == s
    decreases |s|
  {
    if s != [] {
      var hi, lo := DigitValue(s[0]), DigitValue(s[1]);
      var b := (hi * 16 + lo) as byte;
      var rest := UnHex(s[2..]).value;
      assert Hex(UnHex(s).value) == ByteHex(b) + Hex(rest) by {
        assert UnHex(s).value == [b] + rest;
        assert ([b] + rest)[1..] == rest;
      }
      assert ByteHex(b) == s[..2] by {
        NibbleSplit(hi, lo);
      }
      UnHexRoundTrip(s[2..]);
      assert s == s[..2] + s[2..];
    }
  }

}
