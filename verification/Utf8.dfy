/** UTF-8 as section 3 of RFC 3629 defines it, on Unicode scalar values. */
module Utf8 {
  import opened Sequences

  type Byte = b: int | 0 <= b < 256

  function EncodeChar(c: char): (bytes: seq<Byte>)
    ensures |bytes| > 0
    ensures c as int < 0x80 ==> bytes == [c as int]
    ensures c as int >= 0x80 ==> |bytes| >= 2 && forall i :: 0 <= i < |bytes| ==> bytes[i] >= 0x80
  {
    var v := c as int;
    if v < 0x80 then [v]
    else if v < 0x800 then [0xC0 + v / 64, 0x80 + v % 64]
    else if v < 0x1_0000 then [0xE0 + v / 4096, 0x80 + v / 64 % 64, 0x80 + v % 64]
    else [0xF0 + v / 26_2144, 0x80 + v / 4096 % 64, 0x80 + v / 64 % 64, 0x80 + v % 64]
  }

  function Encode(s: string): seq<Byte> {
    if s == [] then [] else EncodeChar(s[0]) + Encode(s[1..])
  }

  lemma {:induction false} EncodeConcat(a: string, b: string)
    ensures Encode(a + b) == Encode(a) + Encode(b)
  {
    if a == [] {
      Unit(b);
      Unit(Encode(b));
    } else {
      EncodeConcat(a[1..], b);
      TailOfConcat(a, b);
      Assoc(EncodeChar(a[0]), Encode(a[1..]), Encode(b));
    }
  }

  predicate IsAscii(s: string) {
    forall i :: 0 <= i < |s| ==> s[i] as int < 0x80
  }

  function CodePoints(s: string): seq<Byte>
    requires IsAscii(s)
  {
    seq(|s|, i requires 0 <= i < |s| => s[i] as int)
  }

  /** On ASCII text the encoding is the code points themselves. */
  lemma {:induction false} EncodeAscii(s: string)
    requires IsAscii(s)
    ensures Encode(s) == CodePoints(s)
  {
    if s != [] {
      EncodeAscii(s[1..]);
      assert CodePoints(s) == [s[0] as int] + CodePoints(s[1..]);
    }
  }

  /** The code point at the front of some encoded text, and how many bytes it takes. */
  function FirstCode(bytes: seq<Byte>): (int, nat)
    requires bytes != []
  {
    var b := bytes[0];
    if b < 0x80 || |bytes| < 2 then (b, 1)
    else if b < 0xE0 then ((b - 0xC0) * 64 + bytes[1] - 0x80, 2)
    else if b < 0xF0 || |bytes| < 4 then
      (if |bytes| < 3 then (b, 1) else ((b - 0xE0) * 4096 + (bytes[1] - 0x80) * 64 + bytes[2] - 0x80, 3))
    else ((b - 0xF0) * 26_2144 + (bytes[1] - 0x80) * 4096 + (bytes[2] - 0x80) * 64 + bytes[3] - 0x80, 4)
  }

  lemma FirstOfThree(v: nat, all: seq<Byte>)
    requires 0x800 <= v < 0x1_0000 && |all| >= 3
    requires all[0] == 0xE0 + v / 4096 && all[1] == 0x80 + v / 64 % 64 && all[2] == 0x80 + v % 64
    ensures FirstCode(all) == (v, 3)
  {
    assert v / 64 == v / 4096 * 64 + v / 64 % 64;
  }

  lemma FirstOfFour(v: nat, all: seq<Byte>)
    requires 0x1_0000 <= v < 0x11_0000 && |all| >= 4
    requires all[0] == 0xF0 + v / 26_2144 && all[1] == 0x80 + v / 4096 % 64
    requires all[2] == 0x80 + v / 64 % 64 && all[3] == 0x80 + v % 64
    ensures FirstCode(all) == (v, 4)
  {
    assert v / 4096 == v / 26_2144 * 64 + v / 4096 % 64;
    assert v / 64 == v / 4096 * 64 + v / 64 % 64;
  }

  lemma FirstCodeOf(c: char, rest: seq<Byte>)
    ensures FirstCode(EncodeChar(c) + rest) == (c as int, |EncodeChar(c)|)
  {
    var all, v := EncodeChar(c) + rest, c as int;
    if v < 0x80 {
      assert all[0] == v;
    } else if v < 0x800 {
      assert all[0] == 0xC0 + v / 64 && all[1] == 0x80 + v % 64;
    } else if v < 0x1_0000 {
      FirstOfThree(v, all);
    } else {
      FirstOfFour(v, all);
    }
  }

  /** Different texts have different encodings. */
  lemma {:induction false} EncodeInjective(a: string, b: string)
    requires Encode(a) == Encode(b)
    ensures a == b
  {
    if a == "" || b == "" {
    } else {
      FirstCodeOf(a[0], Encode(a[1..]));
      FirstCodeOf(b[0], Encode(b[1..]));
      var n := |EncodeChar(a[0])|;
      assert Encode(a)[n..] == Encode(a[1..]) && Encode(b)[n..] == Encode(b[1..]);
      EncodeInjective(a[1..], b[1..]);
      assert a == [a[0]] + a[1..] && b == [b[0]] + b[1..];
    }
  }

  /** The six bits of a continuation byte. */
  predicate Continues(b: Byte, bits: int) {
    0x80 <= b < 0xC0 && b == 0x80 + bits
  }

  lemma ThreeBytes(v: nat)
    requires v < 0x1_0000
    ensures v == v / 4096 * 4096 + v / 64 % 64 * 64 + v % 64
  {
    assert v / 64 == v / 4096 * 64 + v / 64 % 64;
  }

  lemma FourBytes(v: nat)
    requires v < 0x11_0000
    ensures v == v / 26_2144 * 26_2144 + v / 4096 % 64 * 4096 + v / 64 % 64 * 64 + v % 64
  {
    assert v / 4096 == v / 26_2144 * 64 + v / 4096 % 64;
    assert v / 64 == v / 4096 * 64 + v / 64 % 64;
  }

  /** The table of section 3 of RFC 3629: the leading byte tells the length, and the code point's bits
      follow each other over the bytes. */
  lemma EncodeTable(c: char) returns (x: nat, y: nat, z: nat)
    ensures var v, bytes := c as int, EncodeChar(c);
      if v < 0x80 then bytes == [v]
      else if v < 0x800 then |bytes| == 2 && bytes[0] < 0xE0 && Continues(bytes[1], x) && v == (bytes[0] - 0xC0) * 0x40 + x
      else if v < 0x1_0000 then
        && |bytes| == 3 && bytes[0] < 0xF0 && Continues(bytes[1], y) && Continues(bytes[2], x)
        && v == (bytes[0] - 0xE0) * 0x1000 + y * 0x40 + x
      else
        && |bytes| == 4 && Continues(bytes[1], z) && Continues(bytes[2], y) && Continues(bytes[3], x)
        && v == (bytes[0] - 0xF0) * 0x4_0000 + z * 0x1000 + y * 0x40 + x
  {
    var v := c as int;
    x, y, z := v % 64, v / 64 % 64, v / 4096 % 64;
    if v < 0x1_0000 {
      ThreeBytes(v);
    } else {
      FourBytes(v);
    }
  }
}
