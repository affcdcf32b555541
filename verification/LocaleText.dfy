/** Locale values: the escape decoder and the placeholder scanner. */
module LocaleText {
  import opened Wrappers
  import opened Text
  import opened Ordering

  // ----- Escapes -----

  datatype ValueError = TrailingEscape | UnsupportedEscape(c: char)

  /** The character that a letter after a backslash stands for. */
  function Unescaped(c: char): Option<char> {
    match c
    case 'n' => Some('\n')
    case 'r' => Some('\r')
    case 't' => Some('\t')
    case '\\' => Some('\\')
    case _ => None
  }

  function Prepend(prefix: string, rest: Result<string, ValueError>): Result<string, ValueError> {
    match rest
    case Ok(text) => Ok(prefix + text)
    case Err(_) => rest
  }

  function Decode(value: string): Result<string, ValueError> {
    if value == "" then Ok("")
    else if value[0] != '\\' then Prepend([value[0]], Decode(value[1..]))
    else if |value| == 1 then Err(TrailingEscape)
    else match Unescaped(value[1])
      case Some(c) => Prepend([c], Decode(value[2..]))
      case None => Err(UnsupportedEscape(value[1]))
  }

  lemma PrependConcat(a: string, b: string, rest: Result<string, ValueError>)
    ensures Prepend("", rest) == rest
    ensures Prepend(a, Prepend(b, rest)) == Prepend(a + b, rest)
  {
    if rest.Ok? {
      assert a + (b + rest.value) == a + b + rest.value;
      assert "" + rest.value == rest.value;
    }
  }

  method DecodeValue(value: string) returns (result: Result<string, ValueError>)
    ensures result == Decode(value)
  {
    var decoded := "";
    var i := 0;
    assert value[0..] == value;
    PrependConcat("", "", Decode(value));
    while i < |value|
      invariant i <= |value|
      invariant Decode(value) == Prepend(decoded, Decode(value[i..]))
    {
      ghost var rest := value[i..];
      assert rest[1..] == value[i + 1..];
      if value[i] != '\\' {
        PrependConcat(decoded, [value[i]], Decode(value[i + 1..]));
        decoded := decoded + [value[i]];
        i := i + 1;
      } else {
        if i + 1 == |value| {
          return Err(TrailingEscape);
        }
        assert rest[2..] == value[i + 2..];
        var c := Unescaped(value[i + 1]);
        if c.None? {
          return Err(UnsupportedEscape(value[i + 1]));
        }
        PrependConcat(decoded, [c.value], Decode(value[i + 2..]));
        decoded := decoded + [c.value];
        i := i + 2;
      }
    }
    assert value[i..] == "" && decoded + "" == decoded;
    return Ok(decoded);
  }

  /** The escape letter of a character that is written as an escape. */
  function EscapeLetter(c: char): Option<char> {
    match c
    case '\n' => Some('n')
    case '\r' => Some('r')
    case '\t' => Some('t')
    case '\\' => Some('\\')
    case _ => None
  }

  /** A value is written as plain characters and escapes. */
  datatype Piece = Plain(c: char) | Escaped(c: char)

  predicate ValidPieces(pieces: seq<Piece>) {
    forall i :: 0 <= i < |pieces| ==>
      match pieces[i]
      case Plain(c) => c != '\\'
      case Escaped(c) => EscapeLetter(c).Some?
  }

  function Spell(pieces: seq<Piece>): string
    requires ValidPieces(pieces)
  {
    if pieces == [] then ""
    else (match pieces[0]
          case Plain(c) => [c]
          case Escaped(c) => ['\\', EscapeLetter(c).value]) + Spell(pieces[1..])
  }

  function Meaning(pieces: seq<Piece>): string {
    seq(|pieces|, i requires 0 <= i < |pieces| => pieces[i].c)
  }

  lemma {:induction false} DecodeSpelled(pieces: seq<Piece>)
    requires ValidPieces(pieces)
    ensures Decode(Spell(pieces)) == Ok(Meaning(pieces))
  {
    if pieces != [] {
      DecodeSpelled(pieces[1..]);
      var text := Spell(pieces);
      match pieces[0] {
        case Plain(c) => assert text[1..] == Spell(pieces[1..]);
        case Escaped(c) => assert text[2..] == Spell(pieces[1..]);
      }
      assert Meaning(pieces) == [pieces[0].c] + Meaning(pieces[1..]);
    }
  }

  lemma {:induction false} DecodedPieces(value: string) returns (pieces: seq<Piece>)
    requires Decode(value).Ok?
    ensures ValidPieces(pieces) && Spell(pieces) == value
  {
    if value == "" {
      pieces := [];
    } else if value[0] != '\\' {
      var rest := DecodedPieces(value[1..]);
      pieces := [Plain(value[0])] + rest;
      assert pieces[1..] == rest;
    } else {
      var rest := DecodedPieces(value[2..]);
      pieces := [Escaped(Unescaped(value[1]).value)] + rest;
      assert pieces[1..] == rest;
      assert value == [value[0], value[1]] + value[2..];
    }
  }

  /** Main result on escapes: the decoder accepts exactly the texts that spell plain characters and
      the four escapes. */
  lemma DecodeAccepts(value: string)
    ensures Decode(value).Ok? <==> exists pieces :: ValidPieces(pieces) && Spell(pieces) == value
  {
    if Decode(value).Ok? {
      var pieces := DecodedPieces(value);
    }
    forall pieces | ValidPieces(pieces) && Spell(pieces) == value ensures Decode(value).Ok? {
      DecodeSpelled(pieces);
    }
  }

  /** The canonical spelling of a text. */
  function Escape(text: string): string {
    if text == "" then ""
    else (match EscapeLetter(text[0])
          case Some(letter) => ['\\', letter]
          case None => [text[0]]) + Escape(text[1..])
  }

  lemma {:induction false} DecodeEscape(text: string)
    ensures Decode(Escape(text)) == Ok(text)
  {
    if text != "" {
      DecodeEscape(text[1..]);
      var e := Escape(text);
      match EscapeLetter(text[0]) {
        case Some(letter) => assert e[2..] == Escape(text[1..]);
        case None => assert e[1..] == Escape(text[1..]);
      }
      assert [text[0]] + text[1..] == text;
    }
  }

  /** No raw newline, carriage return or tab. */
  predicate NoRawEscapes(value: string) {
    forall i :: 0 <= i < |value| ==> value[i] != '\n' && value[i] != '\r' && value[i] != '\t'
  }

  lemma {:induction false} EscapeNoRaw(text: string)
    ensures NoRawEscapes(Escape(text))
  {
    if text != "" {
      EscapeNoRaw(text[1..]);
    }
  }

  /** Without raw control whitespace a text has one spelling. */
  lemma {:induction false} EscapeDecode(value: string)
    requires NoRawEscapes(value) && Decode(value).Ok?
    ensures Escape(Decode(value).value) == value
  {
    if value == "" {
    } else if value[0] != '\\' {
      EscapeDecode(value[1..]);
      assert ([value[0]] + Decode(value[1..]).value)[1..] == Decode(value[1..]).value;
      assert value == [value[0]] + value[1..];
    } else {
      EscapeDecode(value[2..]);
      var c := Unescaped(value[1]).value;
      assert ([c] + Decode(value[2..]).value)[1..] == Decode(value[2..]).value;
      assert value == [value[0], value[1]] + value[2..];
    }
  }

  // ----- Placeholders -----

  datatype ScanError = Unterminated | Nested | Unmatched | EmptyName | InvalidName

  predicate IsLower(c: char) {
    'a' <= c <= 'z'
  }

  predicate IsNameChar(c: char) {
    IsLower(c) || IsDigit(c) || c == '_'
  }

  predicate IsName(name: string) {
    name != "" && (IsLower(name[0]) || name[0] == '_') && forall i :: 1 <= i < |name| ==> IsNameChar(name[i])
  }

  function CheckName(name: string): (error: Option<ScanError>)
    ensures error.None? <==> IsName(name)
  {
    if name == "" then Some(EmptyName) else if IsName(name) then None else Some(InvalidName)
  }

  /** Where the first brace is, or the end. */
  function FirstBrace(s: string): (i: nat)
    ensures i <= |s|
    ensures forall k :: 0 <= k < i ==> s[k] != '{' && s[k] != '}'
    ensures i < |s| ==> s[i] == '{' || s[i] == '}'
  {
    if s == "" || s[0] == '{' || s[0] == '}' then 0 else 1 + FirstBrace(s[1..])
  }

  /** The text between an opening brace and its closing brace. */
  function ReadName(s: string): Result<string, ScanError> {
    var i := FirstBrace(s);
    if i == |s| then Err(Unterminated) else if s[i] == '{' then Err(Nested) else Ok(s[..i])
  }

  function Scan(value: string): Result<set<string>, ScanError>
    decreases |value|
  {
    if value == "" then Ok({})
    else if value[0] == '{' then
      match ReadName(value[1..])
      case Err(e) => Err(e)
      case Ok(name) =>
        if CheckName(name).Some? then Err(CheckName(name).value)
        else match Scan(value[|name| + 2..])
          case Err(e) => Err(e)
          case Ok(names) => Ok({name} + names)
    else if value[0] == '}' then Err(Unmatched)
    else Scan(value[1..])
  }

  method ReadNameAt(value: string, start: nat) returns (result: Result<string, ScanError>)
    requires start <= |value|
    ensures result == ReadName(value[start..])
  {
    var i := start;
    var name := "";
    while true
      invariant start <= i <= |value| && name == value[start..i]
      invariant i - start <= FirstBrace(value[start..])
      decreases |value| - i
    {
      if i == |value| {
        return Err(Unterminated);
      }
      if value[i] == '}' {
        assert value[start..][i - start] == '}';
        assert value[start..][..i - start] == name;
        return Ok(name);
      }
      if value[i] == '{' {
        assert value[start..][i - start] == '{';
        return Err(Nested);
      }
      assert value[start..][i - start] == value[i];
      name := name + [value[i]];
      i := i + 1;
    }
  }

  /** `names` lists the set `found` in order, or the scan fails with `names`'s error. */
  ghost predicate Lists(names: Result<seq<string>, ScanError>, found: Result<set<string>, ScanError>) {
    match names
    case Err(e) => found == Err(e)
    case Ok(list) => found.Ok? && Sorted(list) && forall x :: x in list <==> x in found.value
  }

  method Placeholders(value: string) returns (names: Result<seq<string>, ScanError>)
    ensures Lists(names, Scan(value))
  {
    var list: seq<string> := [];
    var i := 0;
    assert value[0..] == value;
    while i < |value|
      invariant i <= |value| && Sorted(list)
      invariant Scan(value).Err? <==> Scan(value[i..]).Err?
      invariant Scan(value).Err? ==> Scan(value) == Scan(value[i..])
      invariant Scan(value).Ok? ==> forall x :: x in Scan(value).value <==> x in list || x in Scan(value[i..]).value
    {
      ghost var rest := value[i..];
      assert rest[1..] == value[i + 1..];
      if value[i] == '{' {
        var name := ReadNameAt(value, i + 1);
        if name.Err? {
          return Err(name.error);
        }
        var error := CheckName(name.value);
        if error.Some? {
          return Err(error.value);
        }
        assert rest[|name.value| + 2..] == value[i + |name.value| + 2..];
        InsertSorted(list, name.value);
        list := Insert(list, name.value);
        i := i + |name.value| + 2;
      } else if value[i] == '}' {
        return Err(Unmatched);
      } else {
        i := i + 1;
      }
    }
    return Ok(list);
  }

  /** A text is literal characters and slots. */
  datatype Part = Literal(c: char) | Slot(name: string)

  predicate ValidParts(parts: seq<Part>) {
    forall i :: 0 <= i < |parts| ==>
      match parts[i]
      case Literal(c) => c != '{' && c != '}'
      case Slot(name) => IsName(name)
  }

  function Render(parts: seq<Part>): string {
    if parts == [] then ""
    else (match parts[0]
          case Literal(c) => [c]
          case Slot(name) => "{" + name + "}") + Render(parts[1..])
  }

  function SlotNames(parts: seq<Part>): set<string> {
    set p | p in parts && p.Slot? :: p.name
  }

  lemma FirstBraceAfterName(name: string, rest: string)
    requires IsName(name)
    ensures FirstBrace(name + "}" + rest) == |name|
  {
    var s := name + "}" + rest;
    assert s[|name|] == '}';
    forall i | 0 <= i < |name| ensures s[i] != '{' && s[i] != '}' {
      assert s[i] == name[i];
    }
  }

  lemma ReadRenderedName(name: string, rest: string)
    requires IsName(name)
    ensures ReadName(name + "}" + rest) == Ok(name)
    ensures ("{" + name + "}" + rest)[1..] == name + "}" + rest
    ensures ("{" + name + "}" + rest)[|name| + 2..] == rest
  {
    FirstBraceAfterName(name, rest);
    assert (name + "}" + rest)[..|name|] == name;
  }

  lemma {:induction false} ScanRendered(parts: seq<Part>)
    requires ValidParts(parts)
    ensures Scan(Render(parts)) == Ok(SlotNames(parts))
  {
    if parts == [] {
      assert SlotNames(parts) == {};
    } else {
      var rest := Render(parts[1..]);
      ScanRendered(parts[1..]);
      assert parts == [parts[0]] + parts[1..];
      match parts[0]
      case Literal(c) =>
        assert Render(parts)[1..] == rest;
        assert SlotNames(parts) == SlotNames(parts[1..]);
      case Slot(name) =>
        ReadRenderedName(name, rest);
        assert SlotNames(parts) == {name} + SlotNames(parts[1..]);
    }
  }

  lemma NamePrefix(value: string)
    requires value != "" && value[0] == '{' && ReadName(value[1..]).Ok?
    ensures var name := ReadName(value[1..]).value;
      |name| + 2 <= |value| && value == "{" + name + "}" + value[|name| + 2..]
  {
    var name := ReadName(value[1..]).value;
    assert value[|name| + 1] == '}';
    assert value[1..][..|name|] == name;
  }

  lemma {:induction false} ScannedParts(value: string) returns (parts: seq<Part>)
    requires Scan(value).Ok?
    ensures ValidParts(parts) && Render(parts) == value
    decreases |value|
  {
    if value == "" {
      parts := [];
    } else if value[0] == '{' {
      var name := ReadName(value[1..]).value;
      var rest := ScannedParts(value[|name| + 2..]);
      parts := [Slot(name)] + rest;
      assert parts[1..] == rest;
      NamePrefix(value);
    } else {
      var rest := ScannedParts(value[1..]);
      parts := [Literal(value[0])] + rest;
      assert parts[1..] == rest;
      assert value == [value[0]] + value[1..];
    }
  }

  /** Main result on placeholders: the scanner accepts exactly the texts of the grammar. */
  lemma ScanAccepts(value: string)
    ensures Scan(value).Ok? <==> exists parts :: ValidParts(parts) && Render(parts) == value
  {
    if Scan(value).Ok? {
      var parts := ScannedParts(value);
    }
    forall parts | ValidParts(parts) && Render(parts) == value ensures Scan(value).Ok? {
      ScanRendered(parts);
    }
  }

  /** A text has one parse. */
  lemma {:induction false} ParseUnique(a: seq<Part>, b: seq<Part>)
    requires ValidParts(a) && ValidParts(b) && Render(a) == Render(b)
    ensures a == b
  {
    if a == [] || b == [] {
      assert |Render(a)| == 0;
    } else {
      var text := Render(a);
      RenderHead(a);
      RenderHead(b);
      assert a[0] == b[0];
      ParseUnique(a[1..], b[1..]);
      assert a == [a[0]] + a[1..] && b == [b[0]] + b[1..];
    }
  }

  /** The first part can be read off the text. */
  lemma RenderHead(parts: seq<Part>)
    requires ValidParts(parts) && parts != []
    ensures var text := Render(parts);
      && text != ""
      && parts[0] == (if text[0] == '{' && ReadName(text[1..]).Ok? then Slot(ReadName(text[1..]).value) else Literal(text[0]))
      && Render(parts[1..]) == (if text[0] == '{' && ReadName(text[1..]).Ok? then text[|ReadName(text[1..]).value| + 2..] else text[1..])
  {
    if parts[0].Slot? {
      ReadRenderedName(parts[0].name, Render(parts[1..]));
    }
  }
}
