/** What the locale reader refuses, and where: told from the text alone. */
module LocaleErrors {
  import opened Wrappers
  import opened Text
  import opened LocaleText
  import opened LocaleFiles
  import opened Sequences

  // ----- Escapes that do not decode -----

  /** The text starts with an escape that fails with `e`. */
  predicate BadEscape(rest: string, e: ValueError) {
    && rest != "" && rest[0] == '\\'
    && match e
       case TrailingEscape => |rest| == 1
       case UnsupportedEscape(c) => |rest| >= 2 && rest[1] == c && c != 'n' && c != 'r' && c != 't' && c != '\\'
  }

  /** How one piece is written. */
  function SpellOne(piece: Piece): string
    requires ValidPieces([piece])
  {
    match piece
    case Plain(c) => [c]
    case Escaped(c) => assert [piece][0] == piece; ['\\', EscapeLetter(c).value]
  }

  lemma SpellHead(pieces: seq<Piece>)
    requires ValidPieces(pieces) && pieces != []
    ensures ValidPieces([pieces[0]]) && Spell(pieces) == SpellOne(pieces[0]) + Spell(pieces[1..])
  {}

  lemma PieceThen(piece: Piece, tail: string)
    requires ValidPieces([piece])
    ensures Decode(SpellOne(piece) + tail) == Prepend([piece.c], Decode(tail))
  {
    assert [piece][0] == piece;
    var text := SpellOne(piece) + tail;
    match piece
    case Plain(c) => assert text[0] == c && text[1..] == tail;
    case Escaped(c) => assert text[0] == '\\' && text[1] == EscapeLetter(c).value && text[2..] == tail;
  }

  lemma {:induction false} SpelledThen(pieces: seq<Piece>, rest: string)
    requires ValidPieces(pieces)
    ensures Decode(Spell(pieces) + rest) == Prepend(Meaning(pieces), Decode(rest))
  {
    if pieces == [] {
      PrependConcat("", "", Decode(rest));
      assert "" + rest == rest;
    } else {
      SpellHead(pieces);
      SpelledThen(pieces[1..], rest);
      PieceThen(pieces[0], Spell(pieces[1..]) + rest);
      Assoc(SpellOne(pieces[0]), Spell(pieces[1..]), rest);
      PrependConcat([pieces[0].c], Meaning(pieces[1..]), Decode(rest));
      assert Meaning(pieces) == [pieces[0].c] + Meaning(pieces[1..]);
    }
  }

  lemma OneMorePiece(piece: Piece, pieces: seq<Piece>, rest: string) returns (longer: seq<Piece>)
    requires ValidPieces([piece]) && ValidPieces(pieces)
    ensures ValidPieces(longer) && Spell(longer) + rest == SpellOne(piece) + (Spell(pieces) + rest)
  {
    longer := [piece] + pieces;
    assert [piece][0] == piece && longer[1..] == pieces;
    SpellHead(longer);
    Assoc(SpellOne(piece), Spell(pieces), rest);
  }

  /** The piece at the front of a value, if it starts with a plain character or a good escape. */
  function FirstPiece(value: string): Option<Piece>
    requires value != ""
  {
    if value[0] != '\\' then Some(Plain(value[0]))
    else if |value| > 1 && Unescaped(value[1]).Some? then Some(Escaped(Unescaped(value[1]).value))
    else None
  }

  lemma FirstPieceReads(value: string)
    requires value != "" && FirstPiece(value).Some?
    ensures var piece := FirstPiece(value).value;
      && ValidPieces([piece]) && |SpellOne(piece)| <= |value| && value == SpellOne(piece) + value[|SpellOne(piece)|..]
  {
    var piece := FirstPiece(value).value;
    assert [piece][0] == piece;
  }

  lemma {:induction false} FailingEscape(value: string) returns (pieces: seq<Piece>, rest: string)
    requires Decode(value).Err?
    ensures ValidPieces(pieces) && value == Spell(pieces) + rest && BadEscape(rest, Decode(value).error)
    decreases |value|
  {
    if FirstPiece(value).Some? {
      var piece := FirstPiece(value).value;
      FirstPieceReads(value);
      var tail := value[|SpellOne(piece)|..];
      PieceThen(piece, tail);
      pieces, rest := FailingEscape(tail);
      pieces := OneMorePiece(piece, pieces, rest);
    } else {
      pieces, rest := [], value;
      assert "" + value == value;
    }
  }

  /** Main result on bad escapes: decoding fails with an error exactly where plain characters and good
      escapes are followed by the escape that the error names. */
  lemma DecodeFails(value: string, e: ValueError)
    ensures Decode(value) == Err(e) <==>
      exists pieces, rest :: ValidPieces(pieces) && value == Spell(pieces) + rest && BadEscape(rest, e)
  {
    if Decode(value) == Err(e) {
      var pieces, rest := FailingEscape(value);
    }
    if pieces, rest :| ValidPieces(pieces) && value == Spell(pieces) + rest && BadEscape(rest, e) {
      SpelledThen(pieces, rest);
    }
  }

  // ----- Placeholders that do not scan -----

  predicate BraceFree(s: string) {
    '{' !in s && '}' !in s
  }

  /** `[a-z_][a-z0-9_]*` */
  predicate NameForm(name: string) {
    && name != "" && ('a' <= name[0] <= 'z' || name[0] == '_')
    && forall c :: c in name ==> 'a' <= c <= 'z' || '0' <= c <= '9' || c == '_'
  }

  lemma NameFormExactly(name: string)
    ensures IsName(name) <==> NameForm(name)
  {
    if IsName(name) {
      forall c | c in name ensures 'a' <= c <= 'z' || '0' <= c <= '9' || c == '_' {
        var i :| 0 <= i < |name| && name[i] == c;
      }
    }
    if NameForm(name) {
      forall i | 1 <= i < |name| ensures IsNameChar(name[i]) {
        assert name[i] in name;
      }
    }
  }

  /** The text starts with a brace that fails with `e`. */
  ghost predicate BadBrace(rest: string, e: ScanError) {
    && rest != ""
    && if rest[0] == '}' then e == Unmatched else rest[0] == '{' && BadSlot(rest[1..], e)
  }

  /** What follows an opening brace is no valid name and closing brace. */
  ghost predicate BadSlot(inner: string, e: ScanError) {
    match e
    case Unmatched => false
    case Unterminated => BraceFree(inner)
    case Nested => exists name, tail :: BraceFree(name) && inner == name + "{" + tail
    case EmptyName => inner != "" && inner[0] == '}'
    case InvalidName => exists name, tail :: BraceFree(name) && name != "" && !NameForm(name) && inner == name + "}" + tail
  }

  function RenderOne(part: Part): string {
    match part
    case Literal(c) => [c]
    case Slot(name) => "{" + name + "}"
  }

  /** What scanning finds once the slots of `found` were seen. */
  function Joined(found: set<string>, rest: Result<set<string>, ScanError>): Result<set<string>, ScanError> {
    match rest
    case Ok(names) => Ok(found + names)
    case Err(e) => Err(e)
  }

  lemma JoinedTwice(a: set<string>, b: set<string>, rest: Result<set<string>, ScanError>)
    ensures Joined({}, rest) == rest && Joined(a, Joined(b, rest)) == Joined(a + b, rest)
  {
    if rest.Ok? {
      assert {} + rest.value == rest.value && a + (b + rest.value) == a + b + rest.value;
    }
  }

  lemma PartThen(part: Part, tail: string)
    requires ValidParts([part])
    ensures Scan(RenderOne(part) + tail) == Joined(SlotNames([part]), Scan(tail))
  {
    assert [part][0] == part;
    var text := RenderOne(part) + tail;
    match part
    case Literal(c) =>
      assert text[0] == c && text[1..] == tail && SlotNames([part]) == {};
      JoinedTwice({}, {}, Scan(tail));
    case Slot(name) =>
      ReadRenderedName(name, tail);
      assert SlotNames([part]) == {name};
  }

  lemma SlotNamesHead(parts: seq<Part>)
    requires parts != []
    ensures SlotNames(parts) == SlotNames([parts[0]]) + SlotNames(parts[1..])
  {
    assert parts == [parts[0]] + parts[1..];
  }

  lemma {:induction false} RenderedThen(parts: seq<Part>, rest: string)
    requires ValidParts(parts)
    ensures Scan(Render(parts) + rest) == Joined(SlotNames(parts), Scan(rest))
  {
    if parts == [] {
      assert "" + rest == rest && SlotNames(parts) == {};
      JoinedTwice({}, {}, Scan(rest));
    } else {
      assert ValidParts([parts[0]]) && Render(parts) == RenderOne(parts[0]) + Render(parts[1..]);
      RenderedThen(parts[1..], rest);
      PartThen(parts[0], Render(parts[1..]) + rest);
      Assoc(RenderOne(parts[0]), Render(parts[1..]), rest);
      SlotNamesHead(parts);
      JoinedTwice(SlotNames([parts[0]]), SlotNames(parts[1..]), Scan(rest));
    }
  }

  lemma BraceAfter(name: string, brace: char, tail: string)
    requires BraceFree(name) && (brace == '{' || brace == '}')
    ensures FirstBrace(name + [brace] + tail) == |name|
  {
    var s := name + [brace] + tail;
    assert s[|name|] == brace;
    forall i | 0 <= i < |name| ensures s[i] != '{' && s[i] != '}' {
      assert s[i] == name[i] && name[i] in name;
    }
  }

  lemma NoBrace(s: string)
    ensures FirstBrace(s) == |s| <==> BraceFree(s)
    ensures BraceFree(s[..FirstBrace(s)])
  {
    var i := FirstBrace(s);
    assert i < |s| ==> s[i] in s;
  }

  lemma BadSlotFails(inner: string, e: ScanError)
    requires BadSlot(inner, e)
    ensures match ReadName(inner)
      case Err(error) => error == e
      case Ok(name) => CheckName(name) == Some(e)
  {
    NoBrace(inner);
    match e
    case Unterminated =>
    case Nested =>
      var name, tail :| BraceFree(name) && inner == name + "{" + tail;
      BraceAfter(name, '{', tail);
    case EmptyName =>
    case InvalidName =>
      var name, tail :| BraceFree(name) && name != "" && !NameForm(name) && inner == name + "}" + tail;
      BraceAfter(name, '}', tail);
      NameFormExactly(name);
      assert inner[..|name|] == name;
  }

  lemma FailsBadSlot(inner: string)
    ensures match ReadName(inner)
      case Err(error) => BadSlot(inner, error)
      case Ok(name) => CheckName(name).Some? ==> BadSlot(inner, CheckName(name).value)
  {
    NoBrace(inner);
    var i := FirstBrace(inner);
    if i < |inner| {
      var name, tail := inner[..i], inner[i + 1..];
      NameFormExactly(name);
      assert inner == name + [inner[i]] + tail;
      if inner[i] == '{' {
        assert inner == name + "{" + tail;
      } else {
        assert inner == name + "}" + tail;
      }
    }
  }

  lemma BadBraceFails(rest: string, e: ScanError)
    requires BadBrace(rest, e)
    ensures Scan(rest) == Err(e)
  {
    if rest[0] == '{' {
      BadSlotFails(rest[1..], e);
    }
  }

  lemma {:induction false} FailingBrace(value: string) returns (parts: seq<Part>, rest: string)
    requires Scan(value).Err?
    ensures ValidParts(parts) && value == Render(parts) + rest && BadBrace(rest, Scan(value).error)
    decreases |value|
  {
    if value[0] != '{' && value[0] != '}' {
      parts, rest := FailingBrace(value[1..]);
      parts := OneMore(Literal(value[0]), parts, rest);
      assert value == [value[0]] + value[1..];
    } else if value[0] == '{' && ReadName(value[1..]).Ok? && IsName(ReadName(value[1..]).value) {
      var name := ReadName(value[1..]).value;
      NamePrefix(value);
      parts, rest := FailingBrace(value[|name| + 2..]);
      parts := OneMore(Slot(name), parts, rest);
    } else {
      FailsBadSlot(value[1..]);
      parts, rest := [], value;
      assert "" + value == value;
    }
  }

  lemma OneMore(part: Part, parts: seq<Part>, rest: string) returns (longer: seq<Part>)
    requires ValidParts([part]) && ValidParts(parts)
    ensures ValidParts(longer) && Render(longer) + rest == RenderOne(part) + (Render(parts) + rest)
  {
    longer := [part] + parts;
    assert [part][0] == part && longer[1..] == parts;
    Assoc(RenderOne(part), Render(parts), rest);
  }

  /** Main result on bad placeholders: scanning fails with an error exactly where characters and good
      slots are followed by the brace that the error describes. */
  lemma ScanFails(value: string, e: ScanError)
    ensures Scan(value) == Err(e) <==>
      exists parts, rest :: ValidParts(parts) && value == Render(parts) + rest && BadBrace(rest, e)
  {
    if Scan(value) == Err(e) {
      var parts, rest := FailingBrace(value);
    }
    if parts, rest :| ValidParts(parts) && value == Render(parts) + rest && BadBrace(rest, e) {
      RenderedThen(parts, rest);
      BadBraceFails(rest, e);
    }
  }

  // ----- Lines -----

  /** A blank line or a comment. */
  ghost predicate Decorative(line: string) {
    AllWhitespace(line) || exists pad, text :: AllWhitespace(pad) && line == pad + "#" + text
  }

  /** The four pads of a line around its key and its value. */
  datatype Pads = Pads(start: string, afterKey: string, beforeValue: string, end: string)

  predicate SplitsInto(line: string, key: string, raw: string, pads: Pads) {
    && line == pads.start + key + pads.afterKey + "=" + (pads.beforeValue + raw + pads.end)
    && AllWhitespace(pads.start) && AllWhitespace(pads.afterKey) && AllWhitespace(pads.beforeValue) && AllWhitespace(pads.end)
    && Tight(key) && Tight(raw) && '=' !in key && (key == "" ==> pads.afterKey == "") && (key != "" ==> key[0] != '#')
  }

  /** The line is `key = raw` with padding. */
  ghost predicate IsPair(line: string, key: string, raw: string) {
    exists pads :: SplitsInto(line, key, raw, pads)
  }

  /** What is wrong with a key: it is empty, or does not match `[a-z][a-z0-9_]*`. */
  function KeyFault(key: string): Option<LineError> {
    if key == "" then Some(EmptyKey)
    else if !('a' <= key[0] <= 'z') then Some(BadKeyStart)
    else if exists c :: c in key && !('a' <= c <= 'z' || '0' <= c <= '9' || c == '_') then Some(BadKeyChar)
    else None
  }

  lemma KeyFaultExactly(key: string)
    ensures CheckKey(key) == KeyFault(key)
  {
    if key != "" && IsLower(key[0]) {
      if IsKey(key) {
        forall c | c in key ensures 'a' <= c <= 'z' || '0' <= c <= '9' || c == '_' {
          var i :| 0 <= i < |key| && key[i] == c;
        }
      } else {
        var i :| 1 <= i < |key| && !IsNameChar(key[i]);
        assert key[i] in key;
      }
    }
  }

  lemma DecorativeSkips(line: string)
    requires Decorative(line)
    ensures ReadLine(line) == Skip
  {
    if AllWhitespace(line) {
      assert line == line + "" + "";
      TrimPadding(line, "", "");
    } else {
      var pad, text :| AllWhitespace(pad) && line == pad + "#" + text;
      assert pad + "#" + text == pad + ("#" + text);
      TrimStartPadding(pad, "#" + text);
      TrimEndKeeps("#", text);
    }
  }

  lemma SkipsDecorative(line: string)
    requires ReadLine(line) == Skip
    ensures Decorative(line)
  {
    var before, after := TrimDecomposes(line);
    var core := Trim(line);
    if core == "" {
      assert line == before + after;
    } else {
      assert core == "#" + core[1..];
      assert line == before + "#" + (core[1..] + after);
    }
  }

  /** What a pair reads as. */
  function PairResult(key: string, raw: string): LineResult {
    match KeyFault(key)
    case Some(error) => Bad(error)
    case None => match Decode(raw) case Ok(value) => Entry(key, value) case Err(e) => Bad(BadValue(e))
  }

  lemma PairReads(line: string, key: string, raw: string, pads: Pads)
    requires SplitsInto(line, key, raw, pads)
    ensures ReadLine(line) == PairResult(key, raw)
  {
    KeyFaultExactly(key);
    var tail := pads.beforeValue + raw + pads.end;
    var head := key + pads.afterKey;
    var start := head + "=";
    assert line == pads.start + (start + tail);
    TrimStartPadding(pads.start, start + tail);
    assert start[0] == if key == "" then '=' else key[0];
    assert TrimStart(start + tail) == start + tail;
    TrimEndKeeps(start, tail);
    var trimmed := Trim(line);
    assert trimmed == head + ['='] + TrimEnd(tail);
    forall i | 0 <= i < |head| ensures head[i] != '=' {
      if i >= |key| {
        assert IsWhitespace(pads.afterKey[i - |key|]);
      } else {
        assert key[i] in key;
      }
    }
    IndexOfFirst(head, '=', TrimEnd(tail));
    assert trimmed[..|head|] == head && trimmed[|head| + 1..] == TrimEnd(tail);
    assert head == "" + key + pads.afterKey;
    TrimPadding("", key, pads.afterKey);
    TrimOfTrimEnd(tail);
    TrimPadding(pads.beforeValue, raw, pads.end);
  }

  /** Padding in front of a text that does not start with whitespace is empty. */
  lemma NoPad(before: string, text: string, rest: string)
    requires text == before + rest && AllWhitespace(before) && (text != "" ==> !IsWhitespace(text[0]))
    ensures before == ""
  {
    assert forall i :: 0 <= i < |before| ==> text[i] == before[i];
  }

  /** The key's part of a trimmed line has no padding in front. */
  lemma KeyPart(trimmed: string, head: string, tail: string) returns (key: string, after: string)
    requires Tight(trimmed) && trimmed == head + "=" + tail && trimmed[0] != '#' && '=' !in head
    ensures head == key + after && AllWhitespace(after) && Tight(key) && '=' !in key
    ensures (key == "" ==> after == "") && (key != "" ==> key[0] != '#')
  {
    var before;
    before, after := TrimDecomposes(head);
    key := Trim(head);
    assert head != "" ==> trimmed[0] == head[0];
    NoPad(before, head, key + after);
    assert head == before + (key + after) == "" + key + after;
    if key == "" {
      NoPad(after, head, "");
    }
    forall c | c in key ensures c != '=' {
      var i :| 0 <= i < |key| && key[i] == c;
      assert head[i] == c;
    }
  }

  lemma PadsAssoc(b: string, k: string, a: string, l: string, r: string, t: string, e: string)
    ensures b + (k + a + "=" + (l + r + t)) + e == b + k + a + "=" + (l + r + (t + e))
  {}

  lemma AllJoined(a: string, b: string)
    requires AllWhitespace(a) && AllWhitespace(b)
    ensures AllWhitespace(a + b)
  {}

  lemma PairFound(line: string) returns (key: string, raw: string, pads: Pads)
    requires !ReadLine(line).Skip? && '=' in line
    ensures SplitsInto(line, key, raw, pads)
  {
    var before, after := TrimDecomposes(line);
    var trimmed := Trim(line);
    EqualsKept(line, before, trimmed, after);
    var eq := IndexOf(trimmed, '=');
    var head, tail := trimmed[..eq], trimmed[eq + 1..];
    assert trimmed == head + "=" + tail;
    var afterKey;
    key, afterKey := KeyPart(trimmed, head, tail);
    var left, right := TrimDecomposes(tail);
    raw := Trim(tail);
    pads := Pads(before, afterKey, left, right + after);
    AllJoined(right, after);
    PadsAssoc(before, key, afterKey, left, raw, right, after);
  }

  /** Trimming does not drop an equals sign. */
  lemma EqualsKept(line: string, before: string, trimmed: string, after: string)
    requires line == before + trimmed + after && AllWhitespace(before) && AllWhitespace(after) && '=' in line
    ensures IndexOf(trimmed, '=') < |trimmed|
  {
    if '=' !in trimmed {
      forall i | 0 <= i < |line| ensures line[i] != '=' {
        WhitespaceAround(line, before, trimmed, after, i);
      }
    }
    InOrNot(trimmed, '=');
  }

  /** Each character is whitespace of a pad or belongs to the trimmed text. */
  lemma WhitespaceAround(line: string, before: string, trimmed: string, after: string, i: nat)
    requires line == before + trimmed + after && AllWhitespace(before) && AllWhitespace(after) && i < |line|
    ensures IsWhitespace(line[i]) || line[i] in trimmed
  {
    if |before| <= i < |before| + |trimmed| {
      assert line[i] == trimmed[i - |before|];
    }
  }

  lemma InOrNot(s: string, c: char)
    ensures IndexOf(s, c) < |s| <==> c in s
  {
    var eq := IndexOf(s, c);
    assert s[..|s|] == s;
  }

  lemma NoEquals(line: string)
    requires !ReadLine(line).Skip? && '=' !in line
    ensures ReadLine(line) == Bad(ExpectedKeyValue)
  {
    var before, after := TrimDecomposes(line);
    var trimmed := Trim(line);
    InOrNot(trimmed, '=');
    assert forall c :: c in trimmed ==> c in line;
  }

  /** Main result on lines: a blank line or a comment is skipped; any other without an equals sign is no
      pair; and a pair is refused for its key, else for its value, else read. */
  lemma LineExactly(line: string)
    ensures ReadLine(line) == Skip <==> Decorative(line)
    ensures !Decorative(line) && '=' !in line ==> ReadLine(line) == Bad(ExpectedKeyValue)
    ensures !Decorative(line) && '=' in line ==> exists key, raw :: IsPair(line, key, raw)
    ensures forall key, raw :: IsPair(line, key, raw) ==> ReadLine(line) == PairResult(key, raw)
  {
    if ReadLine(line).Skip? {
      SkipsDecorative(line);
    }
    if Decorative(line) {
      DecorativeSkips(line);
    } else if '=' !in line {
      NoEquals(line);
    } else {
      var key, raw, pads := PairFound(line);
      assert IsPair(line, key, raw);
    }
    forall key, raw | IsPair(line, key, raw) ensures ReadLine(line) == PairResult(key, raw) {
      var pads :| SplitsInto(line, key, raw, pads);
      PairReads(line, key, raw, pads);
    }
  }

  // ----- Files -----

  /** What each line reads as. */
  function LineResults(lines: seq<string>): seq<LineResult> {
    seq(|lines|, i requires 0 <= i < |lines| => ReadLine(lines[i]))
  }

  /** The `i`-th line reads as an entry for the key. */
  predicate HasKeyAt(results: seq<LineResult>, i: nat, key: string)
    requires i < |results|
  {
    results[i].Entry? && results[i].key == key
  }

  /** One of the first `k` lines reads as an entry for the key. */
  ghost predicate HasKey(results: seq<LineResult>, k: nat, key: string)
    requires k <= |results|
  {
    exists j :: 0 <= j < k && HasKeyAt(results, j, key)
  }

  /** The line at `k` is refused for `e`: it is bad, or repeats the key of an earlier line. */
  ghost predicate RefusedAt(results: seq<LineResult>, k: nat, e: LineError) {
    && k < |results|
    && match results[k]
       case Skip => false
       case Bad(error) => e == error
       case Entry(key, value) => e == DuplicateKey && HasKey(results, k, key)
  }

  ghost predicate NoneRefused(results: seq<LineResult>, k: nat) {
    forall j, e :: 0 <= j < k ==> !RefusedAt(results, j, e)
  }

  /** The entries of the first `k` lines, in order. */
  function Listed(results: seq<LineResult>, k: nat): seq<(string, string)>
    requires k <= |results|
  {
    if k == 0 then []
    else
      var line := results[k - 1];
      Listed(results, k - 1) + if line.Entry? then [(line.key, line.value)] else []
  }

  /** `file` holds the keys of the first `k` lines. */
  ghost predicate HoldsKeys(results: seq<LineResult>, k: nat, file: LocaleFile)
    requires k <= |results|
  {
    && file.entries == Listed(results, k)
    && forall key :: key in file.byKey <==> HasKey(results, k, key)
  }

  lemma OneMoreKey(results: seq<LineResult>, k: nat, key: string)
    requires k < |results|
    ensures HasKey(results, k + 1, key) <==> HasKey(results, k, key) || HasKeyAt(results, k, key)
  {}

  lemma HoldsSkip(results: seq<LineResult>, k: nat, file: LocaleFile)
    requires k < |results| && HoldsKeys(results, k, file) && results[k].Skip?
    ensures HoldsKeys(results, k + 1, file)
  {
    forall key ensures key in file.byKey <==> HasKey(results, k + 1, key) {
      OneMoreKey(results, k, key);
    }
  }

  lemma HoldsEntry(results: seq<LineResult>, k: nat, file: LocaleFile, key: string, value: string)
    requires k < |results| && HoldsKeys(results, k, file) && results[k] == Entry(key, value)
    ensures HoldsKeys(results, k + 1, Added(file, key, value))
  {
    var after := Added(file, key, value);
    forall other ensures other in after.byKey <==> HasKey(results, k + 1, other) {
      OneMoreKey(results, k, other);
    }
  }

  /** Reading on from `k`, over what the lines read as. */
  function Replay(results: seq<LineResult>, k: nat, file: LocaleFile): Result<LocaleFile, FileError>
    decreases |results| - k
  {
    if k >= |results| then Ok(file)
    else match results[k]
      case Skip => Replay(results, k + 1, file)
      case Bad(error) => Err(FileError(k + 1, error))
      case Entry(key, value) =>
        if key in file.byKey then Err(FileError(k + 1, DuplicateKey)) else Replay(results, k + 1, Added(file, key, value))
  }

  lemma {:induction false} ReadsReplay(lines: seq<string>, k: nat, file: LocaleFile)
    ensures ReadLines(lines, k, file) == Replay(LineResults(lines), k, file)
    decreases |lines| - k
  {
    if k < |lines| {
      assert LineResults(lines)[k] == ReadLine(lines[k]);
      match ReadLine(lines[k])
      case Skip => ReadsReplay(lines, k + 1, file);
      case Bad(_) =>
      case Entry(key, value) => ReadsReplay(lines, k + 1, Added(file, key, value));
    }
  }

  lemma {:induction false} ReadOn(results: seq<LineResult>, k: nat, file: LocaleFile)
    requires k <= |results| && HoldsKeys(results, k, file) && NoneRefused(results, k)
    ensures match Replay(results, k, file)
      case Ok(read) => NoneRefused(results, |results|) && read.entries == Listed(results, |results|)
      case Err(error) => 0 < error.line <= |results| && NoneRefused(results, error.line - 1) && RefusedAt(results, error.line - 1, error.error)
    decreases |results| - k
  {
    if k < |results| {
      match results[k]
      case Skip =>
        HoldsSkip(results, k, file);
        ReadOn(results, k + 1, file);
      case Bad(error) =>
      case Entry(key, value) =>
        if key !in file.byKey {
          HoldsEntry(results, k, file, key, value);
          ReadOn(results, k + 1, Added(file, key, value));
        }
    }
  }

  lemma OneRefusal(results: seq<LineResult>, k: nat, e: LineError, k': nat, e': LineError)
    requires RefusedAt(results, k, e) && NoneRefused(results, k) && RefusedAt(results, k', e') && NoneRefused(results, k')
    ensures k == k' && e == e'
  {}

  lemma NothingHeld(results: seq<LineResult>)
    ensures HoldsKeys(results, 0, EMPTY_FILE) && NoneRefused(results, 0)
  {}

  lemma ReplayExactly(results: seq<LineResult>, k: nat, e: LineError)
    ensures var read := Replay(results, 0, EMPTY_FILE);
      && (read == Err(FileError(k + 1, e)) <==> RefusedAt(results, k, e) && NoneRefused(results, k))
      && (read.Ok? <==> NoneRefused(results, |results|))
      && (read.Ok? ==> read.value.entries == Listed(results, |results|))
  {
    NothingHeld(results);
    ReadOn(results, 0, EMPTY_FILE);
    var read := Replay(results, 0, EMPTY_FILE);
    if read.Err? && RefusedAt(results, k, e) && NoneRefused(results, k) {
      OneRefusal(results, k, e, read.error.line - 1, read.error.error);
    }
  }

  /** Main result on files: a file is refused exactly at its first line that is bad or repeats a key, with
      that line's number and error; a file without such a line is read to the entries of its lines, in order. */
  lemma FilesExactly(lines: seq<string>, k: nat, e: LineError)
    ensures var read, results := ReadLines(lines, 0, EMPTY_FILE), LineResults(lines);
      && (read == Err(FileError(k + 1, e)) <==> RefusedAt(results, k, e) && NoneRefused(results, k))
      && (read.Ok? <==> NoneRefused(results, |lines|))
      && (read.Ok? ==> read.value.entries == Listed(results, |lines|))
  {
    ReadsReplay(lines, 0, EMPTY_FILE);
    ReplayExactly(LineResults(lines), k, e);
  }
}
