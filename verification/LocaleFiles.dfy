/** Locale files: the line reader, and its round trip with a printed file. */
module LocaleFiles {
  import opened Wrappers
  import opened Text
  import opened LocaleText

  datatype LineError =
    | ExpectedKeyValue
    | EmptyKey
    | BadKeyStart
    | BadKeyChar
    | BadValue(error: ValueError)
    | DuplicateKey

  /** The failing line, counted from one, and what is wrong with it. */
  datatype FileError = FileError(line: nat, error: LineError)

  datatype LocaleFile = LocaleFile(entries: seq<(string, string)>, byKey: map<string, string>)

  datatype LineResult = Skip | Entry(key: string, value: string) | Bad(error: LineError)

  predicate IsKey(key: string) {
    key != "" && IsLower(key[0]) && forall i :: 1 <= i < |key| ==> IsNameChar(key[i])
  }

  function CheckKey(key: string): (error: Option<LineError>)
    ensures error.None? <==> IsKey(key)
  {
    if key == "" then Some(EmptyKey)
    else if !IsLower(key[0]) then Some(BadKeyStart)
    else if IsKey(key) then None
    else Some(BadKeyChar)
  }

  /** `key = value` with the key and the value trimmed. */
  function ReadPair(trimmed: string): LineResult {
    var eq := IndexOf(trimmed, '=');
    if eq == |trimmed| then Bad(ExpectedKeyValue)
    else
      var key := Trim(trimmed[..eq]);
      if CheckKey(key).Some? then Bad(CheckKey(key).value)
      else match Decode(Trim(trimmed[eq + 1..]))
        case Ok(value) => Entry(key, value)
        case Err(e) => Bad(BadValue(e))
  }

  function ReadLine(line: string): LineResult {
    var trimmed := Trim(line);
    if trimmed == "" || trimmed[0] == '#' then Skip else ReadPair(trimmed)
  }

  const EMPTY_FILE := LocaleFile([], map[])

  function Added(file: LocaleFile, key: string, value: string): LocaleFile {
    LocaleFile(file.entries + [(key, value)], file.byKey[key := value])
  }

  /** Reading the lines from `k` on into `file`. */
  function ReadLines(lines: seq<string>, k: nat, file: LocaleFile): Result<LocaleFile, FileError>
    decreases |lines| - k
  {
    if k >= |lines| then Ok(file)
    else match ReadLine(lines[k])
      case Skip => ReadLines(lines, k + 1, file)
      case Bad(error) => Err(FileError(k + 1, error))
      case Entry(key, value) =>
        if key in file.byKey then Err(FileError(k + 1, DuplicateKey))
        else ReadLines(lines, k + 1, Added(file, key, value))
  }

  method ReadLocaleFile(content: string) returns (result: Result<LocaleFile, FileError>)
    ensures result == ReadLines(Lines(content), 0, EMPTY_FILE)
  {
    var lines := Lines(content);
    var entries: seq<(string, string)> := [];
    var byKey: map<string, string> := map[];
    for i := 0 to |lines|
      invariant ReadLines(lines, 0, EMPTY_FILE) == ReadLines(lines, i, LocaleFile(entries, byKey))
    {
      var trimmed := Trim(lines[i]);
      if trimmed == "" || trimmed[0] == '#' {
        continue;
      }
      var eq := IndexOf(trimmed, '=');
      if eq == |trimmed| {
        return Err(FileError(i + 1, ExpectedKeyValue));
      }
      var key := Trim(trimmed[..eq]);
      var error := CheckKey(key);
      if error.Some? {
        return Err(FileError(i + 1, error.value));
      }
      var value := DecodeValue(Trim(trimmed[eq + 1..]));
      if value.Err? {
        return Err(FileError(i + 1, BadValue(value.error)));
      }
      if key in byKey {
        return Err(FileError(i + 1, DuplicateKey));
      }
      byKey := byKey[key := value.value];
      entries := entries + [(key, value.value)];
    }
    return Ok(LocaleFile(entries, byKey));
  }

  // ----- What a read file promises -----

  /** Keys are valid and distinct, and the keyed form is the map of the entries. */
  ghost predicate Coherent(file: LocaleFile) {
    && (forall i :: 0 <= i < |file.entries| ==>
      var (key, value) := file.entries[i]; IsKey(key) && key in file.byKey && file.byKey[key] == value)
    && (forall i, j :: 0 <= i < j < |file.entries| ==> file.entries[i].0 != file.entries[j].0)
    && (forall key :: key in file.byKey ==> exists i :: 0 <= i < |file.entries| && file.entries[i].0 == key)
  }

  lemma AddedCoherent(file: LocaleFile, key: string, value: string)
    requires Coherent(file) && IsKey(key) && key !in file.byKey
    ensures Coherent(Added(file, key, value))
  {
    var after := Added(file, key, value);
    forall k | k in after.byKey ensures exists i :: 0 <= i < |after.entries| && after.entries[i].0 == k {
      if k == key {
        assert after.entries[|file.entries|].0 == k;
      } else {
        var i :| 0 <= i < |file.entries| && file.entries[i].0 == k;
        assert after.entries[i].0 == k;
      }
    }
  }

  /** Every file that reads is coherent. */
  lemma {:induction false} ReadCoherent(lines: seq<string>, k: nat, file: LocaleFile)
    requires Coherent(file) && ReadLines(lines, k, file).Ok?
    ensures Coherent(ReadLines(lines, k, file).value)
    decreases |lines| - k
  {
    if k < |lines| {
      match ReadLine(lines[k])
      case Skip => ReadCoherent(lines, k + 1, file);
      case Bad(_) =>
      case Entry(key, value) =>
        AddedCoherent(file, key, value);
        ReadCoherent(lines, k + 1, Added(file, key, value));
    }
  }

  // ----- Printing -----

  /** A line of a printed file: blank, a comment, or a pair with padding around its four parts. */
  datatype SourceLine =
    | Blank(pad: string)
    | Comment(pad: string, text: string)
    | Pair(pad: string, key: string, afterKey: string, beforeValue: string, value: string, afterValue: string)

  function PrintLine(line: SourceLine): string {
    match line
    case Blank(pad) => pad
    case Comment(pad, text) => pad + "#" + text
    case Pair(pad, key, afterKey, beforeValue, value, afterValue) =>
      pad + key + afterKey + "=" + (beforeValue + Escape(value) + afterValue)
  }

  predicate Padding(s: string) {
    AllWhitespace(s) && Free(s, '\n')
  }

  predicate ValidLine(line: SourceLine) {
    match line
    case Blank(pad) => Padding(pad)
    case Comment(pad, text) => Padding(pad) && Free(text, '\n')
    case Pair(pad, key, afterKey, beforeValue, value, afterValue) =>
      Padding(pad) && IsKey(key) && Padding(afterKey) && Padding(beforeValue) && Padding(afterValue)
  }

  function PrintFile(lines: seq<SourceLine>): string {
    if lines == [] then "" else PrintLine(lines[0]) + "\n" + PrintFile(lines[1..])
  }

  /** Whitespace that the printer does not escape. */
  predicate RawWhitespace(c: char) {
    IsWhitespace(c) && EscapeLetter(c).None?
  }

  /** The value neither starts nor ends with whitespace that stays raw. */
  predicate Preserved(value: string) {
    value != "" ==> !RawWhitespace(value[0]) && !RawWhitespace(value[|value| - 1])
  }

  lemma {:induction false} EscapeEnds(value: string)
    requires value != ""
    ensures var e := Escape(value);
      && e != ""
      && (IsWhitespace(e[0]) <==> RawWhitespace(value[0]))
      && (IsWhitespace(e[|e| - 1]) <==> RawWhitespace(value[|value| - 1]))
  {
    if |value| > 1 {
      EscapeEnds(value[1..]);
    }
  }

  lemma PreservedTight(value: string)
    ensures Preserved(value) <==> Tight(Escape(value))
  {
    if value != "" {
      EscapeEnds(value);
    }
  }

  // ----- Reading a printed pair -----

  lemma {:induction false} TrimEndKeeps(head: string, tail: string)
    requires head != "" && !IsWhitespace(head[|head| - 1])
    ensures TrimEnd(head + tail) == head + TrimEnd(tail)
  {
    if tail == "" {
      assert head + tail == head;
    } else {
      var last := |tail| - 1;
      assert (head + tail)[..|head + tail| - 1] == head + tail[..last];
      TrimEndKeeps(head, tail[..last]);
    }
  }

  lemma TrimOfTrimEnd(tail: string)
    ensures Trim(TrimEnd(tail)) == Trim(tail)
  {
    var before, after := TrimDecomposes(tail);
    var core := Trim(tail);
    TrimEndPadding(before + core, after);
    if core == "" {
      assert before + core == "" + before;
      TrimEndPadding("", before);
    } else {
      assert before + core == before + core + "";
      TrimPadding(before, core, "");
    }
  }

  lemma KeyHasNoSpace(key: string)
    requires IsKey(key)
    ensures Tight(key) && Free(key, '=') && key[0] != '#'
  {
    assert IsNameChar(key[|key| - 1]);
  }

  lemma {:induction false} IndexOfFirst(head: string, sep: char, tail: string)
    requires Free(head, sep)
    ensures IndexOf(head + [sep] + tail, sep) == |head|
  {
    if head == "" {
    } else {
      IndexOfFirst(head[1..], sep, tail);
      assert (head + [sep] + tail)[1..] == head[1..] + [sep] + tail;
    }
  }

  /** A pair reads as its key and whatever its trimmed tail decodes to. */
  lemma ReadPairLine(pad: string, key: string, afterKey: string, tail: string)
    requires Padding(pad) && IsKey(key) && Padding(afterKey)
    ensures ReadLine(pad + key + afterKey + "=" + tail) ==
      match Decode(Trim(tail)) case Ok(value) => Entry(key, value) case Err(e) => Bad(BadValue(e))
  {
    var line := pad + key + afterKey + "=" + tail;
    var head := key + afterKey;
    var start := head + "=";
    KeyHasNoSpace(key);
    assert line == pad + (start + tail);
    TrimStartPadding(pad, start + tail);
    assert TrimStart(start + tail) == start + tail;
    TrimEndKeeps(start, tail);
    var trimmed := Trim(line);
    assert trimmed == head + ['='] + TrimEnd(tail);
    forall i | 0 <= i < |head| ensures head[i] != '=' {
      if i >= |key| {
        assert IsWhitespace(afterKey[i - |key|]);
      }
    }
    IndexOfFirst(head, '=', TrimEnd(tail));
    assert trimmed[..|head|] == head && trimmed[|head| + 1..] == TrimEnd(tail);
    assert head == "" + key + afterKey;
    TrimPadding("", key, afterKey);
    TrimOfTrimEnd(tail);
  }

  lemma TightDecodes(value: string, before: string, after: string)
    requires Padding(before) && Padding(after) && Tight(Escape(value))
    ensures Decode(Trim(before + Escape(value) + after)) == Ok(value)
  {
    TrimPadding(before, Escape(value), after);
    DecodeEscape(value);
  }

  /** Trimming a spelling that is not tight loses characters that no decoding restores. */
  lemma LooseLoses(value: string, before: string, after: string)
    requires Padding(before) && Padding(after) && !Tight(Escape(value))
    ensures Decode(Trim(before + Escape(value) + after)) != Ok(value)
  {
    var e := Escape(value);
    var left, right := TrimDecomposes(e);
    var core := Trim(e);
    assert before + e + after == (before + left) + core + (right + after);
    TrimPadding(before + left, core, right + after);
    EscapeNoRaw(value);
    assert forall i :: 0 <= i < |core| ==> core[i] == e[|left| + i];
    if Decode(core).Ok? {
      EscapeDecode(core);
    }
  }

  /** Main result on one pair: it reads back exactly when its value is preserved. */
  lemma PairRoundTrip(line: SourceLine)
    requires line.Pair? && ValidLine(line)
    ensures ReadLine(PrintLine(line)) == Entry(line.key, line.value) <==> Preserved(line.value)
  {
    PreservedTight(line.value);
    ReadPairLine(line.pad, line.key, line.afterKey, line.beforeValue + Escape(line.value) + line.afterValue);
    if Tight(Escape(line.value)) {
      TightDecodes(line.value, line.beforeValue, line.afterValue);
    } else {
      LooseLoses(line.value, line.beforeValue, line.afterValue);
    }
  }

  /** A carriage return before the newline changes nothing. */
  lemma ReadStripped(line: string)
    ensures ReadLine(StripCarriageReturn(line)) == ReadLine(line)
  {
    if line != "" && line[|line| - 1] == '\r' {
      var stripped := line[..|line| - 1];
      assert line == stripped + "\r";
      var before, after := TrimDecomposes(stripped);
      TrimPadding(before, Trim(stripped), after);
      assert stripped + "\r" == before + Trim(stripped) + (after + "\r");
      TrimPadding(before, Trim(stripped), after + "\r");
    }
  }

  lemma ReadDecoration(line: SourceLine)
    requires !line.Pair? && ValidLine(line)
    ensures ReadLine(PrintLine(line)) == Skip
  {
    match line
    case Blank(pad) =>
      assert pad == pad + "" + "";
      TrimPadding(pad, "", "");
    case Comment(pad, text) =>
      assert pad + "#" + text == pad + ("#" + text);
      TrimStartPadding(pad, "#" + text);
      TrimEndKeeps("#", text);
    case _ =>
  }

  function Expected(line: SourceLine): LineResult {
    if line.Pair? then Entry(line.key, line.value) else Skip
  }

  lemma LineRoundTrip(line: SourceLine)
    requires ValidLine(line) && (line.Pair? ==> Preserved(line.value))
    ensures ReadLine(StripCarriageReturn(PrintLine(line))) == Expected(line)
  {
    ReadStripped(PrintLine(line));
    if line.Pair? {
      PairRoundTrip(line);
    } else {
      ReadDecoration(line);
    }
  }

  lemma PrintedFree(line: SourceLine)
    requires ValidLine(line)
    ensures Free(PrintLine(line), '\n')
  {
    if line.Pair? {
      EscapeNoRaw(line.value);
      var e := Escape(line.value);
      assert Free(line.beforeValue + e + line.afterValue, '\n');
      assert Free(line.pad + line.key + line.afterKey + "=", '\n');
    }
  }

  lemma PrintedLines(lines: seq<SourceLine>)
    requires forall i :: 0 <= i < |lines| ==> ValidLine(lines[i])
    ensures |Lines(PrintFile(lines))| == |lines|
    ensures forall i :: 0 <= i < |lines| ==> Lines(PrintFile(lines))[i] == StripCarriageReturn(PrintLine(lines[i]))
  {
    if lines != [] {
      var text, rest := PrintLine(lines[0]), PrintFile(lines[1..]);
      PrintedFree(lines[0]);
      SplitHead(text, '\n', rest);
      assert PrintFile(lines) == text + ['\n'] + rest;
      assert Split(PrintFile(lines), '\n')[1..] == Split(rest, '\n');
      PrintedLines(lines[1..]);
    }
  }

  /** The entries that the pairs of a printed file stand for, added to `file`. */
  function Pairs(lines: seq<SourceLine>, file: LocaleFile): LocaleFile {
    if lines == [] then file
    else if lines[0].Pair? then Pairs(lines[1..], Added(file, lines[0].key, lines[0].value))
    else Pairs(lines[1..], file)
  }

  /** The pairs have distinct keys, none of them in `taken`. */
  predicate DistinctKeys(lines: seq<SourceLine>, taken: set<string>) {
    lines == [] ||
    if lines[0].Pair? then lines[0].key !in taken && DistinctKeys(lines[1..], taken + {lines[0].key})
    else DistinctKeys(lines[1..], taken)
  }

  lemma {:induction false} ReadPrinted(lines: seq<SourceLine>, read: seq<string>, k: nat, file: LocaleFile)
    requires |read| == k + |lines|
    requires forall i :: 0 <= i < |lines| ==> ReadLine(read[k + i]) == Expected(lines[i])
    requires DistinctKeys(lines, file.byKey.Keys)
    ensures ReadLines(read, k, file) == Ok(Pairs(lines, file))
    decreases |lines|
  {
    if lines != [] {
      var next := if lines[0].Pair? then Added(file, lines[0].key, lines[0].value) else file;
      assert next.byKey.Keys == file.byKey.Keys + if lines[0].Pair? then {lines[0].key} else {};
      forall i | 0 <= i < |lines[1..]|
        ensures ReadLine(read[k + 1 + i]) == Expected(lines[1..][i])
      {
        assert lines[1..][i] == lines[i + 1] && read[k + 1 + i] == read[k + (i + 1)];
      }
      ReadPrinted(lines[1..], read, k + 1, next);
    }
  }

  /** Every line is well formed, and every value survives printing. */
  predicate Printable(lines: seq<SourceLine>) {
    forall i :: 0 <= i < |lines| ==> ValidLine(lines[i]) && (lines[i].Pair? ==> Preserved(lines[i].value))
  }

  lemma PrintedRead(lines: seq<SourceLine>)
    requires Printable(lines)
    ensures |Lines(PrintFile(lines))| == |lines|
    ensures forall i :: 0 <= i < |lines| ==> ReadLine(Lines(PrintFile(lines))[0 + i]) == Expected(lines[i])
  {
    PrintedLines(lines);
    var read := Lines(PrintFile(lines));
    forall i | 0 <= i < |lines| ensures ReadLine(read[0 + i]) == Expected(lines[i]) {
      LineRoundTrip(lines[i]);
    }
  }

  /** Main result: a printed file reads back as exactly its pairs, in order, whatever blank and
      comment lines and padding surround them. */
  lemma FileRoundTrip(lines: seq<SourceLine>)
    requires Printable(lines) && DistinctKeys(lines, {})
    ensures ReadLines(Lines(PrintFile(lines)), 0, EMPTY_FILE) == Ok(Pairs(lines, EMPTY_FILE))
  {
    PrintedRead(lines);
    assert EMPTY_FILE.byKey.Keys == {};
    ReadPrinted(lines, Lines(PrintFile(lines)), 0, EMPTY_FILE);
  }
}
