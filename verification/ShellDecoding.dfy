/** What a POSIX shell makes of an encoded command line: single quotes and command
    substitution from sections 2.2.2 and 2.6.3 of the Shell Command Language, and the
    `%b` conversion of the `printf` utility. */
module ShellDecoding {
  import opened Wrappers
  import opened Utf8

  const BACKSLASH: Byte := 92
  const ZERO: Byte := 48
  const NEWLINE: Byte := 10

  predicate IsOctal(b: Byte) {
    48 <= b <= 55
  }

  /** How many leading octal digits, at most `max`, `bytes` starts with. */
  function OctalRun(bytes: seq<Byte>, max: nat): (n: nat)
    ensures n <= max && n <= |bytes|
    ensures forall i :: 0 <= i < n ==> IsOctal(bytes[i])
  {
    if max == 0 || bytes == [] || !IsOctal(bytes[0]) then 0 else 1 + OctalRun(bytes[1..], max - 1)
  }

  function OctalValue(digits: seq<Byte>): nat
    requires forall i :: 0 <= i < |digits| ==> IsOctal(digits[i])
  {
    if digits == [] then 0
    else
      var last := |digits| - 1;
      assert IsOctal(digits[last]);
      8 * OctalValue(digits[..last]) + (digits[last] - ZERO)
  }

  /** The byte of a one-letter escape. */
  function SimpleEscape(b: Byte): Option<Byte> {
    if b == BACKSLASH then Some(BACKSLASH)
    else if b == 97 then Some(7)
    else if b == 98 then Some(8)
    else if b == 102 then Some(12)
    else if b == 110 then Some(NEWLINE)
    else if b == 114 then Some(13)
    else if b == 116 then Some(9)
    else if b == 118 then Some(11)
    else None
  }

  function Emit(b: Byte, rest: Option<seq<Byte>>): Option<seq<Byte>> {
    if rest.Some? then Some([b] + rest.value) else None
  }

  /** `printf '%b' bytes`, or None where the standard leaves the escape unspecified. An octal
      escape is a backslash, a zero and up to three octal digits; the byte written for a value
      above 255 is unspecified, so `wide` may choose any. */
  function PrintfB(wide: nat -> Byte, bytes: seq<Byte>): Option<seq<Byte>>
    decreases |bytes|
  {
    if bytes == [] then Some([])
    else if bytes[0] != BACKSLASH then Emit(bytes[0], PrintfB(wide, bytes[1..]))
    else if |bytes| == 1 then None
    else if bytes[1] == ZERO then
      var n := OctalRun(bytes[2..], 3);
      var value := OctalValue(bytes[2..][..n]);
      Emit(if value < 256 then value else wide(value), PrintfB(wide, bytes[2 + n..]))
    else if bytes[1] == 99 then Some([])
    else match SimpleEscape(bytes[1])
      case Some(b) => Emit(b, PrintfB(wide, bytes[2..]))
      case None => None
  }

  function StripNewlines(bytes: seq<Byte>): seq<Byte> {
    if bytes != [] && bytes[|bytes| - 1] == NEWLINE then StripNewlines(bytes[..|bytes| - 1]) else bytes
  }

  /** Command substitution drops trailing newlines; with a NUL byte its result is unspecified. */
  function Substituted(output: seq<Byte>): Option<seq<Byte>> {
    if 0 in output then None else Some(StripNewlines(output))
  }

  function FirstApostrophe(s: string): (i: nat)
    ensures i <= |s|
    ensures forall k :: 0 <= k < i ==> s[k] != '\''
    ensures i < |s| ==> s[i] == '\''
  {
    if s == [] || s[0] == '\'' then 0 else 1 + FirstApostrophe(s[1..])
  }

  /** The single-quoted argument of a line of the form `eval "$(printf '%b' '...')"`. A single
      quote ends at the next apostrophe, and every character before it is literal. */
  function QuotedBody(line: string): Option<string> {
    var prefix := "eval \"$(printf '%b' '";
    if |line| < |prefix| || line[..|prefix|] != prefix then None
    else
      var rest := line[|prefix|..];
      var end := FirstApostrophe(rest);
      if rest[end..] == "')\"" then Some(rest[..end]) else None
  }

  /** The bytes such a line hands to `eval`. */
  function EvaluatedText(wide: nat -> Byte, line: string): Option<seq<Byte>> {
    match QuotedBody(line)
    case None => None
    case Some(body) =>
      match PrintfB(wide, Encode(body))
      case None => None
      case Some(output) => Substituted(output)
  }
}
