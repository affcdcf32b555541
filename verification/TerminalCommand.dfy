/** The POSIX command encoder: how a script becomes one line of interactive input. */
module TerminalCommand {
  import opened Text
  import opened Utf8
  import opened Sequences

  const EVAL_PREFIX := "eval \"$(printf '%b' '"
  const EVAL_SUFFIX := "')\""

  /** Unicode category Cc. */
  predicate IsControl(c: char) {
    c as int < 0x20 || 0x7F <= c as int < 0xA0
  }

  predicate HasControl(s: string) {
    exists i :: 0 <= i < |s| && IsControl(s[i])
  }

  /** One byte as a backslash, a zero and three octal digits. */
  function OctalEscape(b: Byte): string {
    "\\0" + [Digit(b / 64), Digit(b / 8 % 8), Digit(b % 8)]
  }

  function OctalEscapes(bytes: seq<Byte>): string {
    if bytes == [] then "" else OctalEscape(bytes[0]) + OctalEscapes(bytes[1..])
  }

  function EscapeChar(c: char): string {
    if c == '\\' then "\\\\"
    else if c == '\'' then "\\047"
    else if IsControl(c) then OctalEscapes(EncodeChar(c))
    else [c]
  }

  function Escape(s: string): string {
    if s == [] then "" else EscapeChar(s[0]) + Escape(s[1..])
  }

  /** The line submitted for `command`. */
  function CommandLine(command: string): string {
    if HasControl(command) then EVAL_PREFIX + Escape(command) + EVAL_SUFFIX else command
  }

  lemma {:induction false} EscapeSnoc(s: string, c: char)
    ensures Escape(s + [c]) == Escape(s) + EscapeChar(c)
  {
    if s == [] {
      assert s + [c] == [c] && [c][1..] == [];
      Unit(EscapeChar(c));
    } else {
      EscapeSnoc(s[1..], c);
      TailOfConcat(s, [c]);
      Assoc(EscapeChar(s[0]), Escape(s[1..]), EscapeChar(c));
    }
  }

  lemma {:induction false} OctalEscapesSnoc(bytes: seq<Byte>, b: Byte)
    ensures OctalEscapes(bytes + [b]) == OctalEscapes(bytes) + OctalEscape(b)
  {
    if bytes == [] {
      assert bytes + [b] == [b] && [b][1..] == [];
      Unit(OctalEscape(b));
    } else {
      OctalEscapesSnoc(bytes[1..], b);
      TailOfConcat(bytes, [b]);
      Assoc(OctalEscape(bytes[0]), OctalEscapes(bytes[1..]), OctalEscape(b));
    }
  }

  /** The loop body for a control character: one octal escape for each of its UTF-8 bytes. */
  method PushControl(encoded: string, ch: char) returns (pushed: string)
    ensures pushed == encoded + OctalEscapes(EncodeChar(ch))
  {
    pushed := encoded;
    var utf8 := EncodeChar(ch);
    for k := 0 to |utf8|
      invariant pushed == encoded + OctalEscapes(utf8[..k])
    {
      pushed := pushed + OctalEscape(utf8[k]);
      OctalEscapesSnoc(utf8[..k], utf8[k]);
      assert utf8[..k + 1] == utf8[..k] + [utf8[k]];
    }
    assert utf8[..|utf8|] == utf8;
  }

  method PosixCommandLine(command: string) returns (line: string)
    ensures line == CommandLine(command)
    ensures (forall i :: 0 <= i < |command| ==> !IsControl(command[i])) ==> line == command
  {
    if !exists i :: 0 <= i < |command| && IsControl(command[i]) {
      return command;
    }
    var encoded := "";
    for i := 0 to |command|
      invariant encoded == Escape(command[..i])
    {
      var ch := command[i];
      EscapeSnoc(command[..i], ch);
      assert command[..i + 1] == command[..i] + [ch];
      match ch {
        case '\\' => encoded := encoded + "\\\\";
        case '\'' => encoded := encoded + "\\047";
        case _ =>
          if IsControl(ch) {
            encoded := PushControl(encoded, ch);
          } else {
            encoded := encoded + [ch];
          }
      }
    }
    assert command[..|command|] == command;
    return EVAL_PREFIX + encoded + EVAL_SUFFIX;
  }
}
