/** What survives the trip through the encoder and the shell, exactly. */
module TerminalRoundTrip {
  import opened Wrappers
  import opened Text
  import opened Utf8
  import opened TerminalCommand
  import opened ShellDecoding
  import opened Sequences

  predicate IsOctalChar(c: char) {
    '0' <= c <= '7'
  }

  /** An apostrophe directly followed by an octal digit starts at `i`. */
  predicate PairAt(s: string, i: nat) {
    i + 1 < |s| && s[i] == '\'' && IsOctalChar(s[i + 1])
  }

  predicate HasPair(s: string) {
    exists i: nat :: i < |s| && PairAt(s, i)
  }

  function Pairs(s: string): nat {
    if s == [] then 0 else (if PairAt(s, 0) then 1 else 0) + Pairs(s[1..])
  }

  /** The bytes the shell decodes: the two-digit escape of an apostrophe absorbs a following
      octal digit, and one unspecified byte replaces the pair. */
  function Absorbed(wide: nat -> Byte, s: string): seq<Byte> {
    if s == [] then []
    else if PairAt(s, 0) then [wide(312 + (s[1] as int - 48))] + Absorbed(wide, s[2..])
    else EncodeChar(s[0]) + Absorbed(wide, s[1..])
  }

  function EscapeByte(b: Byte): seq<Byte> {
    [BACKSLASH, ZERO, ZERO + b / 64, ZERO + b / 8 % 8, ZERO + b % 8]
  }

  function EscapeBytes(bytes: seq<Byte>): seq<Byte> {
    if bytes == [] then [] else EscapeByte(bytes[0]) + EscapeBytes(bytes[1..])
  }

  lemma OctalEscapeEncoded(b: Byte)
    ensures Encode(OctalEscape(b)) == EscapeByte(b)
  {
    EncodeAscii(OctalEscape(b));
  }

  lemma {:induction false} OctalEscapesEncoded(bytes: seq<Byte>)
    ensures Encode(OctalEscapes(bytes)) == EscapeBytes(bytes)
  {
    if bytes != [] {
      OctalEscapesEncoded(bytes[1..]);
      EncodeConcat(OctalEscape(bytes[0]), OctalEscapes(bytes[1..]));
      OctalEscapeEncoded(bytes[0]);
    }
  }

  /** A full three-digit octal escape decodes to its byte, whatever follows. */
  lemma DecodeEscapedByte(wide: nat -> Byte, b: Byte, rest: seq<Byte>)
    ensures PrintfB(wide, EscapeByte(b) + rest) == Emit(b, PrintfB(wide, rest))
  {
    var bytes := EscapeByte(b) + rest;
    var digits := bytes[2..];
    assert digits[1..] == [ZERO + b / 8 % 8, ZERO + b % 8] + rest;
    assert digits[1..][1..] == [ZERO + b % 8] + rest;
    assert digits[1..][1..][1..] == rest;
    assert OctalRun(digits[1..][1..], 1) == 1;
    assert OctalRun(digits[1..], 2) == 2;
    assert OctalRun(digits, 3) == 3;
    var three := digits[..3];
    assert three == [ZERO + b / 64, ZERO + b / 8 % 8, ZERO + b % 8];
    assert three[..2] == [ZERO + b / 64, ZERO + b / 8 % 8];
    assert three[..2][..1] == [ZERO + b / 64];
    assert three[..2][..1][..0] == [];
    assert OctalValue(three[..2][..1]) == b / 64;
    assert OctalValue(three[..2]) == 8 * (b / 64) + b / 8 % 8 == b / 8;
    assert OctalValue(three) == b;
    assert bytes[5..] == rest;
  }

  lemma {:induction false} DecodeEscapedBytes(wide: nat -> Byte, bytes: seq<Byte>, rest: seq<Byte>, decoded: seq<Byte>)
    requires PrintfB(wide, rest) == Some(decoded)
    ensures PrintfB(wide, EscapeBytes(bytes) + rest) == Some(bytes + decoded)
  {
    if bytes == [] {
      Unit(rest);
      Unit(decoded);
    } else {
      var b, more := bytes[0], EscapeBytes(bytes[1..]) + rest;
      DecodeEscapedBytes(wide, bytes[1..], rest, decoded);
      DecodeEscapedByte(wide, b, more);
      Assoc(EscapeByte(b), EscapeBytes(bytes[1..]), rest);
      assert [b] + bytes[1..] == bytes;
      Assoc([b], bytes[1..], decoded);
    }
  }

  /** Bytes that are not backslashes are copied. */
  lemma {:induction false} DecodePlain(wide: nat -> Byte, bytes: seq<Byte>, rest: seq<Byte>, decoded: seq<Byte>)
    requires BACKSLASH !in bytes
    requires PrintfB(wide, rest) == Some(decoded)
    ensures PrintfB(wide, bytes + rest) == Some(bytes + decoded)
  {
    if bytes == [] {
      Unit(rest);
      Unit(decoded);
    } else {
      DecodePlain(wide, bytes[1..], rest, decoded);
      TailOfConcat(bytes, rest);
      assert bytes[0] in bytes;
      assert [bytes[0]] + bytes[1..] == bytes;
      Assoc([bytes[0]], bytes[1..], decoded);
    }
  }

  /** An encoded body begins with an octal digit exactly when the text does. */
  lemma FirstEncodedByte(s: string)
    ensures Escape(s) == [] <==> s == []
    ensures s != [] ==>
      var bytes := Encode(Escape(s));
      bytes != [] && (IsOctal(bytes[0]) <==> IsOctalChar(s[0])) &&
      (IsOctalChar(s[0]) ==> bytes == [s[0] as int] + Encode(Escape(s[1..])))
  {
    if s != [] {
      var head := EscapeChar(s[0]);
      assert head != [] && Escape(s)[0] == head[0];
      assert IsOctalChar(s[0]) ==> Escape(s)[1..] == Escape(s[1..]);
    }
  }

  /** An octal escape whose digits are the first `n` of the bytes after its zero. */
  lemma DecodeOctal(wide: nat -> Byte, digits: seq<Byte>, n: nat, value: nat)
    requires OctalRun(digits, 3) == n <= |digits| && OctalValue(digits[..n]) == value
    ensures PrintfB(wide, [BACKSLASH, ZERO] + digits)
      == Emit(if value < 256 then value else wide(value), PrintfB(wide, digits[n..]))
  {
    var bytes := [BACKSLASH, ZERO] + digits;
    assert bytes[2..] == digits && bytes[2 + n..] == digits[n..];
  }

  lemma DecodeApostrophe(wide: nat -> Byte, rest: seq<Byte>)
    requires rest == [] || !IsOctal(rest[0])
    ensures PrintfB(wide, [BACKSLASH, ZERO, 52, 55] + rest) == Emit(39, PrintfB(wide, rest))
  {
    var digits := [52, 55] + rest;
    assert [BACKSLASH, ZERO, 52, 55] + rest == [BACKSLASH, ZERO] + digits;
    assert digits[1..][1..] == rest == digits[2..];
    assert OctalRun(digits[1..], 2) == 1;
    assert digits[..2] == [52, 55] && digits[..2][..1] == [52];
    assert OctalValue([52]) == 4;
    DecodeOctal(wide, digits, 2, 39);
  }

  /** `\047` reads a following octal digit as its own third digit. */
  lemma DecodeAbsorbed(wide: nat -> Byte, d: Byte, rest: seq<Byte>)
    requires IsOctal(d)
    ensures PrintfB(wide, [BACKSLASH, ZERO, 52, 55, d] + rest) == Emit(wide(312 + (d - ZERO)), PrintfB(wide, rest))
  {
    var digits := [52, 55, d] + rest;
    assert [BACKSLASH, ZERO, 52, 55, d] + rest == [BACKSLASH, ZERO] + digits;
    assert digits[1..] == [55, d] + rest;
    assert digits[1..][1..] == [d] + rest;
    assert OctalRun(digits[1..][1..], 1) == 1;
    assert OctalRun(digits[1..], 2) == 2;
    var three := digits[..3];
    assert three == [52, 55, d];
    assert three[..2] == [52, 55];
    assert three[..2][..1] == [52];
    assert OctalValue([52]) == 4;
    assert OctalValue([52, 55]) == 39;
    assert digits[3..] == rest;
    DecodeOctal(wide, digits, 3, 312 + (d - ZERO));
  }

  lemma ApostropheEncoded()
    ensures Encode(EscapeChar('\'')) == [BACKSLASH, ZERO, 52, 55]
  {
    EncodeAscii("\\047");
  }

  /** The escape of one character decodes to the character's bytes. */
  lemma DecodeChar(wide: nat -> Byte, c: char, rest: seq<Byte>, decoded: seq<Byte>)
    requires PrintfB(wide, rest) == Some(decoded)
    requires c == '\'' ==> rest == [] || !IsOctal(rest[0])
    ensures PrintfB(wide, Encode(EscapeChar(c)) + rest) == Some(EncodeChar(c) + decoded)
  {
    if c == '\'' {
      ApostropheEncoded();
      DecodeApostrophe(wide, rest);
    } else if c == '\\' {
      EncodeAscii("\\\\");
      assert Encode(EscapeChar(c)) == [BACKSLASH, BACKSLASH];
      assert ([BACKSLASH, BACKSLASH] + rest)[2..] == rest;
    } else if IsControl(c) {
      OctalEscapesEncoded(EncodeChar(c));
      DecodeEscapedBytes(wide, EncodeChar(c), rest, decoded);
    } else {
      assert Encode([c]) == EncodeChar(c);
      DecodePlain(wide, EncodeChar(c), rest, decoded);
    }
  }

  lemma FivePrefix(digit: Byte, rest: seq<Byte>)
    ensures [BACKSLASH, ZERO, 52, 55] + ([digit] + rest) == [BACKSLASH, ZERO, 52, 55, digit] + rest
  {}

  /** The fault: the escape of an apostrophe absorbs a following octal digit. */
  lemma DecodePair(wide: nat -> Byte, d: char, rest: seq<Byte>, decoded: seq<Byte>)
    requires IsOctalChar(d)
    requires PrintfB(wide, rest) == Some(decoded)
    ensures PrintfB(wide, Encode(EscapeChar('\'')) + ([d as int] + rest)) == Some([wide(312 + (d as int - 48))] + decoded)
  {
    ApostropheEncoded();
    var digit: Byte := d as int;
    DecodeAbsorbed(wide, digit, rest);
    FivePrefix(digit, rest);
  }

  lemma EncodedCons(s: string)
    requires s != []
    ensures Encode(Escape(s)) == Encode(EscapeChar(s[0])) + Encode(Escape(s[1..]))
  {
    EncodeConcat(EscapeChar(s[0]), Escape(s[1..]));
  }

  lemma EncodedPair(s: string)
    requires PairAt(s, 0)
    ensures Encode(Escape(s)) == Encode(EscapeChar('\'')) + ([s[1] as int] + Encode(Escape(s[2..])))
  {
    EncodedCons(s);
    FirstEncodedByte(s[1..]);
    assert s[1..][1..] == s[2..];
  }

  /** `%b` decodes the escaped text to its `Absorbed` bytes. */
  ghost predicate BodyFits(wide: nat -> Byte, s: string) {
    PrintfB(wide, Encode(Escape(s))) == Some(Absorbed(wide, s))
  }

  lemma BodyPair(wide: nat -> Byte, s: string)
    requires PairAt(s, 0) && BodyFits(wide, s[2..])
    ensures BodyFits(wide, s)
  {
    EncodedPair(s);
    DecodePair(wide, s[1], Encode(Escape(s[2..])), Absorbed(wide, s[2..]));
  }

  lemma BodyPlain(wide: nat -> Byte, s: string)
    requires s != [] && !PairAt(s, 0) && BodyFits(wide, s[1..])
    ensures BodyFits(wide, s)
  {
    EncodedCons(s);
    FirstEncodedByte(s[1..]);
    DecodeChar(wide, s[0], Encode(Escape(s[1..])), Absorbed(wide, s[1..]));
  }

  lemma {:induction false} AllBodiesFit(wide: nat -> Byte, s: string)
    ensures BodyFits(wide, s)
    decreases |s|
  {
    if s == [] {
    } else if PairAt(s, 0) {
      AllBodiesFit(wide, s[2..]);
      BodyPair(wide, s);
    } else {
      AllBodiesFit(wide, s[1..]);
      BodyPlain(wide, s);
    }
  }

  /** Main result on the body: `%b` decodes every encoded text to its `Absorbed` bytes. */
  lemma BodyDecodes(wide: nat -> Byte, s: string)
    ensures PrintfB(wide, Encode(Escape(s))) == Some(Absorbed(wide, s))
  {
    AllBodiesFit(wide, s);
  }

  /** The decoded text is short by exactly one byte for each apostrophe-digit pair. */
  lemma {:induction false} AbsorbedLength(wide: nat -> Byte, s: string)
    ensures |Absorbed(wide, s)| + Pairs(s) == |Encode(s)|
    decreases |s|
  {
    if s != [] {
      if PairAt(s, 0) {
        AbsorbedLength(wide, s[2..]);
        assert s[1..][1..] == s[2..];
        assert Encode(s[1..]) == EncodeChar(s[1]) + Encode(s[2..]);
      } else {
        AbsorbedLength(wide, s[1..]);
      }
    }
  }

  lemma {:induction false} NoPairs(wide: nat -> Byte, s: string)
    ensures Pairs(s) == 0 <==> !HasPair(s)
    ensures Pairs(s) == 0 ==> Absorbed(wide, s) == Encode(s)
  {
    if s != [] {
      NoPairs(wide, s[1..]);
      assert forall i: nat :: i + 1 < |s| ==> PairAt(s, i + 1) == PairAt(s[1..], i);
      if HasPair(s) && !PairAt(s, 0) {
        var i: nat :| i < |s| && PairAt(s, i);
        assert PairAt(s[1..], i - 1);
      }
      if HasPair(s[1..]) {
        var i: nat :| i < |s[1..]| && PairAt(s[1..], i);
        assert PairAt(s, i + 1);
      }
    }
  }

  /** `%b` gives back the text's bytes exactly when no apostrophe precedes an octal digit, and
      otherwise loses one byte a pair. */
  lemma BodyRoundTrip(wide: nat -> Byte, s: string)
    ensures PrintfB(wide, Encode(Escape(s))).Some?
    ensures PrintfB(wide, Encode(Escape(s))) == Some(Encode(s)) <==> !HasPair(s)
    ensures |PrintfB(wide, Encode(Escape(s))).value| == |Encode(s)| - Pairs(s)
  {
    BodyDecodes(wide, s);
    AbsorbedLength(wide, s);
    NoPairs(wide, s);
  }

  predicate Plain(s: string) {
    forall i :: 0 <= i < |s| ==> !IsControl(s[i]) && s[i] != '\''
  }

  lemma {:induction false} OctalEscapesPlain(bytes: seq<Byte>)
    ensures Plain(OctalEscapes(bytes))
  {
    if bytes != [] {
      OctalEscapesPlain(bytes[1..]);
    }
  }

  lemma {:induction false} EscapePlain(s: string)
    ensures Plain(Escape(s))
  {
    if s != [] {
      EscapePlain(s[1..]);
      OctalEscapesPlain(EncodeChar(s[0]));
    }
  }

  lemma NoControlConcat(a: string, b: string)
    requires !HasControl(a) && !HasControl(b)
    ensures !HasControl(a + b)
  {}

  /** Every character of a submitted line lies outside the two control ranges, so the terminal sees one
      submission. */
  lemma LineHasNoControl(command: string)
    ensures forall c :: c in CommandLine(command) ==> 0x20 <= c as int < 0x7F || 0xA0 <= c as int
  {
    LineUncontrolled(command);
    var line := CommandLine(command);
    forall c | c in line ensures !IsControl(c) {
      var i :| 0 <= i < |line| && line[i] == c;
    }
  }

  lemma LineUncontrolled(command: string)
    ensures !HasControl(CommandLine(command))
  {
    if HasControl(command) {
      EscapePlain(command);
      NoControlConcat(EVAL_PREFIX, Escape(command));
      NoControlConcat(EVAL_PREFIX + Escape(command), EVAL_SUFFIX);
    }
  }

  /** The quoted argument of an encoded line is the encoded body. */
  lemma LineQuotesBody(command: string)
    requires HasControl(command)
    ensures QuotedBody(CommandLine(command)) == Some(Escape(command))
  {
    var line := CommandLine(command);
    var body := Escape(command);
    EscapePlain(command);
    assert line[..|EVAL_PREFIX|] == EVAL_PREFIX;
    var rest := line[|EVAL_PREFIX|..];
    assert rest == body + EVAL_SUFFIX;
    var end := FirstApostrophe(rest);
    assert rest[|body|] == '\'';
    assert end == |body|;
    assert rest[end..] == EVAL_SUFFIX;
    assert rest[..end] == body;
  }

  lemma {:induction false} NulBytes(wide: nat -> Byte, s: string)
    ensures 0 in Encode(s) <==> '\0' in s
    ensures '\0' in s ==> 0 in Absorbed(wide, s)
    decreases |s|
  {
    if s != [] {
      NulBytes(wide, s[1..]);
      if PairAt(s, 0) {
        NulBytes(wide, s[2..]);
        assert s == [s[0], s[1]] + s[2..];
      }
      assert s == [s[0]] + s[1..];
    }
  }

  lemma PairSnoc(s: string, c: char)
    requires s != "" && !IsOctalChar(c)
    ensures PairAt(s + [c], 0) == PairAt(s, 0)
  {
    var t := s + [c];
    assert t[0] == s[0] && t[1] == if |s| > 1 then s[1] else c;
  }

  lemma {:induction false} PairsSnoc(s: string, c: char)
    requires !IsOctalChar(c)
    ensures Pairs(s + [c]) == Pairs(s)
  {
    if s == "" {
      assert ("" + [c])[1..] == "";
    } else {
      PairSnoc(s, c);
      TailOfConcat(s, [c]);
      PairsSnoc(s[1..], c);
    }
  }

  /** A first character that starts no pair, in front of any text. */
  lemma AbsorbedPlain(wide: nat -> Byte, s: string, t: string)
    requires s != "" && !PairAt(s + t, 0)
    ensures Absorbed(wide, s + t) == EncodeChar(s[0]) + Absorbed(wide, s[1..] + t)
  {
    TailOfConcat(s, t);
  }

  lemma AbsorbedPair(wide: nat -> Byte, s: string, t: string)
    requires PairAt(s, 0)
    ensures Absorbed(wide, s + t) == [wide(312 + (s[1] as int - 48))] + Absorbed(wide, s[2..] + t)
  {
    var u := s + t;
    assert u[0] == s[0] && u[1] == s[1] && u[2..] == s[2..] + t;
  }

  lemma {:induction false} AbsorbedSnoc(wide: nat -> Byte, s: string, c: char)
    requires !IsOctalChar(c)
    ensures Absorbed(wide, s + [c]) == Absorbed(wide, s) + EncodeChar(c)
    decreases |s|
  {
    Unit(s);
    if s == "" {
      AbsorbedPlain(wide, [c], "");
      Unit([c]);
      assert [c][1..] + "" == "";
      Unit(EncodeChar(c));
    } else if PairAt(s, 0) {
      AbsorbedSnoc(wide, s[2..], c);
      AbsorbedPair(wide, s, [c]);
      AbsorbedPair(wide, s, "");
      Unit(s[2..]);
      Assoc([wide(312 + (s[1] as int - 48))], Absorbed(wide, s[2..]), EncodeChar(c));
    } else {
      PairSnoc(s, c);
      AbsorbedSnoc(wide, s[1..], c);
      AbsorbedPlain(wide, s, [c]);
      AbsorbedPlain(wide, s, "");
      Unit(s[1..]);
      Assoc(EncodeChar(s[0]), Absorbed(wide, s[1..]), EncodeChar(c));
    }
  }

  lemma StripLength(bytes: seq<Byte>)
    ensures |StripNewlines(bytes)| <= |bytes|
  {}

  lemma {:induction false} LastByte(s: string)
    requires s != []
    ensures Encode(s) != [] && (Encode(s)[|Encode(s)| - 1] == NEWLINE <==> s[|s| - 1] == '\n')
  {
    var head, tail := EncodeChar(s[0]), Encode(s[1..]);
    assert Encode(s) == head + tail;
    if |s| == 1 {
      assert s[1..] == "" && tail == [];
      Unit(head);
      assert head[|head| - 1] == NEWLINE <==> s[0] == '\n';
    } else {
      LastByte(s[1..]);
      assert (head + tail)[|head + tail| - 1] == tail[|tail| - 1];
    }
  }

  /** Stripping newlines cannot make up for a lost byte. */
  lemma {:induction false} StripKeepsLoss(wide: nat -> Byte, s: string)
    requires Pairs(s) > 0
    ensures |StripNewlines(Absorbed(wide, s))| < |StripNewlines(Encode(s))|
  {
    var last := |s| - 1;
    AbsorbedLength(wide, s);
    LastByte(s);
    if s[last] == '\n' {
      var t := s[..last];
      assert s == t + ['\n'];
      AbsorbedSnoc(wide, t, '\n');
      PairsSnoc(t, '\n');
      EncodeConcat(t, ['\n']);
      assert Encode(['\n']) == [NEWLINE];
      assert Encode(s)[..|Encode(s)| - 1] == Encode(t);
      assert Absorbed(wide, s)[..|Absorbed(wide, s)| - 1] == Absorbed(wide, t);
      StripKeepsLoss(wide, t);
    } else {
      StripLength(Absorbed(wide, s));
    }
  }

  /** What the shell evaluates is the command itself, minus its trailing newlines. */
  ghost predicate EvaluatesTo(wide: nat -> Byte, line: string, command: string) {
    EvaluatedText(wide, line) == Some(StripNewlines(Encode(command)))
  }

  /** No apostrophe precedes an octal digit, and there is no NUL. */
  ghost predicate Sendable(command: string) {
    !HasPair(command) && '\0' !in command
  }

  /** Main result on the line: the shell evaluates the command, minus its trailing newlines,
      exactly when the command is NUL-free and no apostrophe precedes an octal digit. */
  lemma LineRoundTrip(wide: nat -> Byte, command: string)
    requires HasControl(command)
    ensures EvaluatesTo(wide, CommandLine(command), command) <==> Sendable(command)
  {
    LineQuotesBody(command);
    BodyDecodes(wide, command);
    NoPairs(wide, command);
    NulBytes(wide, command);
    if Pairs(command) > 0 {
      StripKeepsLoss(wide, command);
    }
  }

  /** What the shell runs for a submitted line is the command: the line is the command itself, or it
      evaluates to the command. */
  ghost predicate Runs(wide: nat -> Byte, line: string, command: string) {
    line == command || EvaluatesTo(wide, line, command)
  }

  /** Main result for every command: the shell runs it as it is if and only if it has no control
      character, or else no NUL and no apostrophe before an octal digit. */
  lemma CommandRuns(wide: nat -> Byte, command: string)
    ensures (forall c :: c in command ==> 0x20 <= c as int < 0x7F || 0xA0 <= c as int) ==> CommandLine(command) == command
    ensures Runs(wide, CommandLine(command), command) <==> !HasControl(command) || Sendable(command)
  {
    if HasControl(command) {
      var i :| 0 <= i < |command| && IsControl(command[i]);
      assert command[i] in command;
      LineUncontrolled(command);
      LineRoundTrip(wide, command);
    }
  }

  /** The fault on a concrete script: of the two lines `echo '1'` and `:`, the digit's quote is lost. */
  lemma PairIsLost(wide: nat -> Byte, command: string)
    requires command == "echo '1'\n:"
    ensures !EvaluatesTo(wide, CommandLine(command), command)
  {
    assert IsControl(command[8]);
    assert PairAt(command, 5);
    LineRoundTrip(wide, command);
  }
}
