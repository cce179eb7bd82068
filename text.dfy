/**
 * Text helpers: Python's `str.encode()` (UTF-8), which the scripts use, and
 * `Split`, a one-character splitter the model's parsers use to state round
 * trips; the scripts themselves never split a string.
 */
module Text {
  import opened Wrappers
  import opened Numerals

  /** UTF-8 encoding of one Unicode scalar value. */
  function Utf8Char(c: char): (bs: seq<byte>)
    ensures 1 <= |bs| <= 4
    ensures |bs| == 1 <==> c as int < 128
    ensures |bs| == 1 ==> bs[0] as int == c as int
  {
    var n := c as int;
    if n < 0x80 then [n as byte]
    else if n < 0x800 then [(0xC0 + n / 0x40) as byte, (0x80 + n % 0x40) as byte]
    else if n < 0x1_0000 then
      [(0xE0 + n / 0x1000) as byte, (0x80 + (n / 0x40) % 0x40) as byte, (0x80 + n % 0x40) as byte]
    else
      [(0xF0 + n / 0x4_0000) as byte, (0x80 + (n / 0x1000) % 0x40) as byte,
       (0x80 + (n / 0x40) % 0x40) as byte, (0x80 + n % 0x40) as byte]
  }

  /** `str.encode()`, whose default codec is UTF-8. */
  function Utf8(s: string): (bs: seq<byte>)
    ensures |bs| >= |s|
  {
    if s == [] then [] else Utf8Char(s[0]) + Utf8(s[1..])
  }

  lemma {:induction false} Utf8Append(a: string, b: string)
    ensures Utf8(a + b) == Utf8(a) + Utf8(b)
  {
    if a != [] {
      assert (a + b)[1..] == a[1..] + b;
      Utf8Append(a[1..], b);
    } else {
      assert a + b == b;
    }
  }

  predicate IsAscii(s: string) {
    forall i :: 0 <= i < |s| ==> s[i] as int < 128
  }

  /** Reads bytes below 128 as the ASCII characters they encode. */
  function AsciiDecode(bs: seq<byte>): (r: Option<string>)
    ensures r.Some? ==> |r.value| == |bs| && IsAscii(r.value)
  {
    if bs == [] then Some([])
    else if bs[0] as int >= 128 then None
    else
      var rest :- AsciiDecode(bs[1..]);
      Some([bs[0] as int as char] + rest)
  }

  /** On ASCII text the UTF-8 encoding is one byte per character, and ASCII decoding recovers it. */
  lemma {:induction false} AsciiRoundTrip(s: string)
    requires IsAscii(s)
    ensures |Utf8(s)| == |s|
    ensures AsciiDecode(Utf8(s)) == Some(s)
  {
    if s != [] {
      AsciiRoundTrip(s[1..]);
      var bs := Utf8(s);
      assert bs == [s[0] as int as byte] + Utf8(s[1..]);
      assert bs[1..] == Utf8(s[1..]);
      assert bs[0] as int as char == s[0];
      assert [s[0]] + s[1..] == s;
    }
  }

  /** The pieces between separators, empty ones included (as Python's `s.split(sep)` would give). */
  function Split(s: string, sep: char): (fields: seq<string>)
    ensures |fields| >= 1
    ensures forall i :: 0 <= i < |fields| ==> sep !in fields[i]
  {
    if s == [] then [[]]
    else
      var rest := Split(s[1..], sep);
      if s[0] == sep then [[]] + rest else [[s[0]] + rest[0]] + rest[1..]
  }

  lemma {:induction false} SplitField(a: string, sep: char)
    requires sep !in a
    ensures Split(a, sep) == [a]
  {
    if a != [] {
      SplitField(a[1..], sep);
      assert [a[0]] + a[1..] == a;
    }
  }

  /** Appending a separator and a separator-free field adds exactly that field to the split. */
  lemma {:induction false} SplitAppendField(s: string, b: string, sep: char)
    requires sep !in b
    ensures Split(s + [sep] + b, sep) == Split(s, sep) + [b]
  {
    if s == [] {
      assert s + [sep] + b == [sep] + b;
      assert ([sep] + b)[1..] == b;
      SplitField(b, sep);
    } else {
      assert (s + [sep] + b)[1..] == s[1..] + [sep] + b;
      SplitAppendField(s[1..], b, sep);
    }
  }

  lemma SplitThree(a: string, b: string, c: string, sep: char)
    requires sep !in a && sep !in b && sep !in c
    ensures Split(a + [sep] + b + [sep] + c, sep) == [a, b, c]
  {
    SplitField(a, sep);
    SplitAppendField(a, b, sep);
    SplitAppendField(a + [sep] + b, c, sep);
  }

  /** Eight separator-free fields joined by the separator split back into those fields. */
  lemma SplitEight(f0: string, f1: string, f2: string, f3: string, f4: string, f5: string, f6: string, f7: string,
                   sep: char)
    requires sep !in f0 && sep !in f1 && sep !in f2 && sep !in f3
    requires sep !in f4 && sep !in f5 && sep !in f6 && sep !in f7
    ensures Split(f0 + [sep] + f1 + [sep] + f2 + [sep] + f3 + [sep] + f4 + [sep] + f5 + [sep] + f6 + [sep] + f7, sep)
      == [f0, f1, f2, f3, f4, f5, f6, f7]
  {
    var s2 := f0 + [sep] + f1 + [sep] + f2;
    SplitThree(f0, f1, f2, sep);
    var s4 := s2 + [sep] + f3 + [sep] + f4;
    assert Split(s4, sep) == [f0, f1, f2, f3, f4] by {
      SplitAppendField(s2, f3, sep);
      SplitAppendField(s2 + [sep] + f3, f4, sep);
    }
    var s6 := s4 + [sep] + f5 + [sep] + f6;
    assert Split(s6, sep) == [f0, f1, f2, f3, f4, f5, f6] by {
      SplitAppendField(s4, f5, sep);
      SplitAppendField(s4 + [sep] + f5, f6, sep);
    }
    SplitAppendField(s6, f7, sep);
  }

  /** The first three bytes of the encoding of text that starts with three ASCII characters. */
  lemma Utf8AsciiHead(s: string)
    requires |s| >= 3 && s[0] as int < 128 && s[1] as int < 128 && s[2] as int < 128
    ensures |Utf8(s)| >= 3
    ensures Utf8(s)[..3] == [s[0] as int as byte, s[1] as int as byte, s[2] as int as byte]
  {
    assert Utf8(s) == [s[0] as int as byte] + Utf8(s[1..]);
    assert Utf8(s[1..]) == [s[1] as int as byte] + Utf8(s[2..]);
    assert Utf8(s[2..]) == [s[2] as int as byte] + Utf8(s[3..]);
  }

  lemma AsciiAppend(a: string, b: string)
    requires IsAscii(a) && IsAscii(b)
    ensures IsAscii(a + b)
  {
    assert forall i :: 0 <= i < |a + b| ==> (a + b)[i] as int < 128 by {
      forall i | 0 <= i < |a + b| ensures (a + b)[i] as int < 128 {
        if i < |a| { assert (a + b)[i] == a[i]; } else { assert (a + b)[i] == b[i - |a|]; }
      }
    }
  }
}
