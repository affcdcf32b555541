/** Base64 with padding, as section 4 of RFC 4648 defines it. */
module Base64 {
  import opened Wrappers
  import opened Utf8
  import opened Sequences

  type Sextet = v: int | 0 <= v < 64

  function Symbol(v: Sextet): (c: char)
    ensures c != '='
  {
    if v < 26 then (v + 65) as char
    else if v < 52 then (v + 71) as char
    else if v < 62 then (v - 4) as char
    else if v == 62 then '+'
    else '/'
  }

  function Value(c: char): Option<Sextet> {
    if 'A' <= c <= 'Z' then Some(c as int - 65)
    else if 'a' <= c <= 'z' then Some(c as int - 71)
    else if '0' <= c <= '9' then Some(c as int + 4)
    else if c == '+' then Some(62)
    else if c == '/' then Some(63)
    else None
  }

  lemma SymbolValue(v: Sextet)
    ensures Value(Symbol(v)) == Some(v)
  {}

  function Group(a: Byte, b: Byte, c: Byte): string {
    [Symbol(a / 4), Symbol(a % 4 * 16 + b / 16), Symbol(b % 16 * 4 + c / 64), Symbol(c % 64)]
  }

  function Encode64(bytes: seq<Byte>): (text: string)
    ensures |text| == (|bytes| + 2) / 3 * 4
  {
    if bytes == [] then ""
    else if |bytes| == 1 then Group(bytes[0], 0, 0)[..2] + "=="
    else if |bytes| == 2 then Group(bytes[0], bytes[1], 0)[..3] + "="
    else Group(bytes[0], bytes[1], bytes[2]) + Encode64(bytes[3..])
  }

  /** The three bytes of four sextets. */
  function Ungroup(s: Sextet, t: Sextet, u: Sextet, v: Sextet): seq<Byte> {
    [s * 4 + t / 16, t % 16 * 16 + u / 4, u % 4 * 64 + v]
  }

  /** The bytes of one group of four characters; padding is allowed where `last` says so. */
  function DecodeGroup(a: char, b: char, c: char, d: char, last: bool): Option<seq<Byte>> {
    if Value(a).None? || Value(b).None? then None
    else if last && c == '=' && d == '=' then Some(Ungroup(Value(a).value, Value(b).value, 0, 0)[..1])
    else if Value(c).None? then None
    else if last && d == '=' then Some(Ungroup(Value(a).value, Value(b).value, Value(c).value, 0)[..2])
    else if Value(d).None? then None
    else Some(Ungroup(Value(a).value, Value(b).value, Value(c).value, Value(d).value))
  }

  function Decode64(text: string): Option<seq<Byte>> {
    if text == "" then Some([])
    else if |text| < 4 then None
    else
      match DecodeGroup(text[0], text[1], text[2], text[3], |text| == 4)
      case None => None
      case Some(bytes) =>
        match Decode64(text[4..])
        case None => None
        case Some(rest) => Some(bytes + rest)
  }

  lemma GroupRoundTrip(a: Byte, b: Byte, c: Byte)
    ensures Ungroup(a / 4, a % 4 * 16 + b / 16, b % 16 * 4 + c / 64, c % 64) == [a, b, c]
  {}

  lemma GroupDecodes(a: Byte, b: Byte, c: Byte, last: bool)
    ensures var g := Group(a, b, c);
      DecodeGroup(g[0], g[1], g[2], g[3], last) == Some([a, b, c])
  {
    GroupRoundTrip(a, b, c);
    SymbolValue(a / 4);
    SymbolValue(a % 4 * 16 + b / 16);
    SymbolValue(b % 16 * 4 + c / 64);
    SymbolValue(c % 64);
  }

  lemma PaddedOne(a: Byte)
    ensures DecodeGroup(Symbol(a / 4), Symbol(a % 4 * 16), '=', '=', true) == Some([a])
  {
    SymbolValue(a / 4);
    SymbolValue(a % 4 * 16);
    GroupRoundTrip(a, 0, 0);
    assert [a, 0, 0][..1] == [a];
  }

  lemma PaddedTwo(a: Byte, b: Byte)
    ensures DecodeGroup(Symbol(a / 4), Symbol(a % 4 * 16 + b / 16), Symbol(b % 16 * 4), '=', true) == Some([a, b])
  {
    SymbolValue(a / 4);
    SymbolValue(a % 4 * 16 + b / 16);
    SymbolValue(b % 16 * 4);
    GroupRoundTrip(a, b, 0);
    assert [a, b, 0][..2] == [a, b];
  }

  lemma DecodeFront(g: string, rest: string, bytes: seq<Byte>, more: seq<Byte>)
    requires |g| == 4 && DecodeGroup(g[0], g[1], g[2], g[3], rest == "") == Some(bytes)
    requires Decode64(rest) == Some(more)
    ensures Decode64(g + rest) == Some(bytes + more)
  {
    assert (g + rest)[4..] == rest;
  }

  lemma OneByte(a: Byte)
    ensures Decode64(Encode64([a])) == Some([a])
  {
    var g := [Symbol(a / 4), Symbol(a % 4 * 16), '=', '='];
    PaddedOne(a);
    DecodeFront(g, "", [a], []);
    assert Encode64([a]) == g + "" && [a] + [] == [a];
  }

  lemma TwoBytes(a: Byte, b: Byte)
    ensures Decode64(Encode64([a, b])) == Some([a, b])
  {
    var g := [Symbol(a / 4), Symbol(a % 4 * 16 + b / 16), Symbol(b % 16 * 4), '='];
    PaddedTwo(a, b);
    DecodeFront(g, "", [a, b], []);
    assert Encode64([a, b]) == g + "" && [a, b] + [] == [a, b];
  }

  /** Decoding undoes encoding. */
  lemma {:induction false} RoundTrip64(bytes: seq<Byte>)
    ensures Decode64(Encode64(bytes)) == Some(bytes)
  {
    if bytes == [] {
    } else if |bytes| == 1 {
      OneByte(bytes[0]);
      assert bytes == [bytes[0]];
    } else if |bytes| == 2 {
      TwoBytes(bytes[0], bytes[1]);
      assert bytes == [bytes[0], bytes[1]];
    } else {
      RoundTrip64(bytes[3..]);
      var g, rest := Group(bytes[0], bytes[1], bytes[2]), Encode64(bytes[3..]);
      GroupDecodes(bytes[0], bytes[1], bytes[2], rest == "");
      DecodeFront(g, rest, [bytes[0], bytes[1], bytes[2]], bytes[3..]);
      FirstThree(bytes);
    }
  }

  lemma FirstThree(bytes: seq<Byte>)
    requires |bytes| >= 3
    ensures [bytes[0], bytes[1], bytes[2]] + bytes[3..] == bytes
  {}

  lemma EncodeGroup(a: seq<Byte>, b: seq<Byte>)
    requires |a| >= 3
    ensures Encode64(a + b) == Group(a[0], a[1], a[2]) + Encode64(a[3..] + b)
  {
    var s := a + b;
    assert s[0] == a[0] && s[1] == a[1] && s[2] == a[2] && s[3..] == a[3..] + b;
  }

  /** Whole groups encode on their own. */
  lemma {:induction false} EncodeAligned(a: seq<Byte>, b: seq<Byte>)
    requires |a| % 3 == 0
    ensures Encode64(a + b) == Encode64(a) + Encode64(b)
  {
    if a == [] {
      Unit(b);
      Unit(Encode64(b));
    } else {
      EncodeAligned(a[3..], b);
      EncodeGroup(a, b);
      EncodeGroup(a, []);
      Unit(a);
      Unit(a[3..]);
      Assoc(Group(a[0], a[1], a[2]), Encode64(a[3..]), Encode64(b));
    }
  }

  // ----- The encoding, character by character -----

  /** The byte at the index, and zero past the end. */
  function ByteAt(bytes: seq<Byte>, i: nat): Byte {
    if i < |bytes| then bytes[i] else 0
  }

  /** The 24 bits of the three bytes from `i` on. */
  function Bits(bytes: seq<Byte>, i: nat): nat {
    ByteAt(bytes, i) * 0x1_0000 + ByteAt(bytes, i + 1) * 0x100 + ByteAt(bytes, i + 2)
  }

  /** Table 1 of RFC 4648. */
  predicate Stands(c: char, v: Sextet) {
    || (v <= 25 && c as int - 'A' as int == v)
    || (26 <= v <= 51 && c as int - 'a' as int == v - 26)
    || (52 <= v <= 61 && c as int - '0' as int == v - 52)
    || (v == 62 && c == '+') || (v == 63 && c == '/')
  }

  /** The 24 bits that four sextets make up. */
  function Joined(s: Sextet, t: Sextet, u: Sextet, v: Sextet): nat {
    s * 0x4_0000 + t * 0x1000 + u * 0x40 + v
  }

  lemma SymbolStands(v: Sextet)
    ensures Stands(Symbol(v), v)
  {}

  lemma Regrouped(a: Byte, b: Byte, c: Byte)
    ensures Joined(a / 4, a % 4 * 16 + b / 16, b % 16 * 4 + c / 64, c % 64) == a * 0x1_0000 + b * 0x100 + c
  {
    assert a == a / 4 * 4 + a % 4 && b == b / 16 * 16 + b % 16 && c == c / 64 * 64 + c % 64;
  }

  /** The sextets at group `g` of the encoding: they make up the three bytes, each character stands for its
      own, and padding replaces those that no byte reaches. */
  predicate Encodes(bytes: seq<Byte>, text: string, g: nat, s: Sextet, t: Sextet, u: Sextet, v: Sextet)
    requires |text| >= 4 * g + 4
  {
    && Joined(s, t, u, v) == Bits(bytes, 3 * g) && Stands(text[4 * g], s) && Stands(text[4 * g + 1], t)
    && (if 3 * g + 1 < |bytes| then Stands(text[4 * g + 2], u) else text[4 * g + 2] == '=')
    && (if 3 * g + 2 < |bytes| then Stands(text[4 * g + 3], v) else text[4 * g + 3] == '=')
  }

  lemma FirstFour(bytes: seq<Byte>)
    requires bytes != []
    ensures |Encode64(bytes)| >= 4
    ensures var a, b, c := ByteAt(bytes, 0), ByteAt(bytes, 1), ByteAt(bytes, 2);
      Encode64(bytes)[..4] == if |bytes| == 1 then Group(a, b, c)[..2] + "==" else if |bytes| == 2 then Group(a, b, c)[..3] + "=" else Group(a, b, c)
  {}

  lemma FirstGroup(bytes: seq<Byte>) returns (s: Sextet, t: Sextet, u: Sextet, v: Sextet)
    requires bytes != []
    ensures |Encode64(bytes)| >= 4 && Encodes(bytes, Encode64(bytes)[..4], 0, s, t, u, v)
  {
    var a, b, c := ByteAt(bytes, 0), ByteAt(bytes, 1), ByteAt(bytes, 2);
    s, t, u, v := a / 4, a % 4 * 16 + b / 16, b % 16 * 4 + c / 64, c % 64;
    FirstFour(bytes);
    Regrouped(a, b, c);
    SymbolStands(s);
    SymbolStands(t);
    SymbolStands(u);
    SymbolStands(v);
  }

  lemma LaterGroup(bytes: seq<Byte>, front: string, rest: string, g: nat, s: Sextet, t: Sextet, u: Sextet, v: Sextet)
    requires |bytes| >= 3 && |front| == 4 && |rest| >= 4 * g + 4 && Encodes(bytes[3..], rest, g, s, t, u, v)
    ensures Encodes(bytes, front + rest, g + 1, s, t, u, v)
  {
    var text := front + rest;
    assert Bits(bytes[3..], 3 * g) == Bits(bytes, 3 * (g + 1));
    assert text[4 * g + 4] == rest[4 * g] && text[4 * g + 5] == rest[4 * g + 1];
    assert text[4 * g + 6] == rest[4 * g + 2] && text[4 * g + 7] == rest[4 * g + 3];
  }

  /** Main result on the encoding: every group of four characters encodes its three bytes. */
  lemma {:induction false} EncodedGroup(bytes: seq<Byte>, g: nat) returns (s: Sextet, t: Sextet, u: Sextet, v: Sextet)
    requires 3 * g < |bytes|
    ensures Encodes(bytes, Encode64(bytes), g, s, t, u, v)
  {
    if g == 0 {
      s, t, u, v := FirstGroup(bytes);
    } else {
      s, t, u, v := EncodedGroup(bytes[3..], g - 1);
      LaterGroup(bytes, Group(bytes[0], bytes[1], bytes[2]), Encode64(bytes[3..]), g - 1, s, t, u, v);
    }
  }
}
