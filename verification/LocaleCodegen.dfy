/** The localization generator: validation across two locales, variant names, and the generated
    lookup. */
module LocaleCodegen {
  import opened Wrappers
  import opened Text
  import opened Ordering
  import opened Sequences
  import opened LocaleText
  import opened LocaleFiles

  // ----- Variant names -----

  predicate IsUpper(c: char) {
    'A' <= c <= 'Z'
  }

  function Upper(c: char): char {
    if IsLower(c) then (c as int - 32) as char else c
  }

  function Lower(c: char): char {
    if IsUpper(c) then (c as int + 32) as char else c
  }

  function Capitalized(piece: string): string
    requires piece != ""
  {
    [Upper(piece[0])] + piece[1..]
  }

  /** The capitalized pieces in a row, or None if a piece is empty. */
  function Camel(pieces: seq<string>): Option<string> {
    if pieces == [] then Some("")
    else if pieces[0] == "" then None
    else match Camel(pieces[1..])
      case None => None
      case Some(rest) => Some(Capitalized(pieces[0]) + rest)
  }

  function VariantOf(key: string): Option<string> {
    Camel(Split(key, '_'))
  }

  method VariantName(key: string) returns (variant: Option<string>)
    ensures variant == VariantOf(key)
  {
    var pieces := Split(key, '_');
    var name := "";
    assert pieces[0..] == pieces;
    for i := 0 to |pieces|
      invariant Camel(pieces).None? <==> Camel(pieces[i..]).None?
      invariant Camel(pieces).Some? ==> Camel(pieces).value == name + Camel(pieces[i..]).value
    {
      assert pieces[i..][1..] == pieces[i + 1..];
      if pieces[i] == "" {
        return None;
      }
      name := name + [Upper(pieces[i][0])] + pieces[i][1..];
    }
    assert pieces[|pieces|..] == [] && name + "" == name;
    return Some(name);
  }

  /** Reading a variant name backwards: every capital starts a piece. */
  function Uncamel(variant: string, first: bool): string {
    if variant == "" then ""
    else if IsUpper(variant[0]) then (if first then "" else "_") + [Lower(variant[0])] + Uncamel(variant[1..], false)
    else [variant[0]] + Uncamel(variant[1..], false)
  }

  /** The pieces joined by underscores, but by nothing before a piece that starts with a digit. */
  function JoinCanonical(pieces: seq<string>, first: bool): string {
    if pieces == [] then ""
    else
      (if first || (pieces[0] != "" && IsDigit(pieces[0][0])) then pieces[0] else "_" + pieces[0])
      + JoinCanonical(pieces[1..], false)
  }

  /** The key without the underscores that precede digits. */
  function Canonical(key: string): string {
    JoinCanonical(Split(key, '_'), true)
  }

  /** What `Camel` makes of a joined name, character by character. */
  function Camelize(name: string, start: bool): string {
    if name == "" then ""
    else if name[0] == '_' then Camelize(name[1..], true)
    else [if start then Upper(name[0]) else name[0]] + Camelize(name[1..], false)
  }

  predicate IsPiece(piece: string) {
    piece != "" && forall i :: 0 <= i < |piece| ==> IsLower(piece[i]) || IsDigit(piece[i])
  }

  predicate ArePieces(pieces: seq<string>) {
    forall i :: 0 <= i < |pieces| ==> IsPiece(pieces[i])
  }

  lemma {:induction false} CamelPieces(pieces: seq<string>)
    requires forall i, k :: 0 <= i < |pieces| && 0 <= k < |pieces[i]| ==> IsLower(pieces[i][k]) || IsDigit(pieces[i][k])
    ensures Camel(pieces).Some? <==> ArePieces(pieces)
  {
    if pieces != [] {
      CamelPieces(pieces[1..]);
    }
  }

  lemma {:induction false} UncamelTail(p: string, rest: string)
    requires p == "" || IsPiece(p)
    ensures Uncamel(p + rest, false) == p + Uncamel(rest, false)
  {
    if p == "" {
      assert p + rest == rest;
    } else {
      assert p[1..] == "" || IsPiece(p[1..]);
      UncamelTail(p[1..], rest);
      assert (p + rest)[1..] == p[1..] + rest;
      assert [p[0]] + (p[1..] + Uncamel(rest, false)) == p + Uncamel(rest, false);
    }
  }

  lemma UncamelHead(p: string, rest: string, first: bool)
    requires IsPiece(p)
    ensures Uncamel(Capitalized(p) + rest, first) ==
      (if first || IsDigit(p[0]) then [p[0]] else "_" + [p[0]]) + Uncamel(p[1..] + rest, false)
  {
    var variant := Capitalized(p) + rest;
    assert variant[0] == Upper(p[0]) && variant[1..] == p[1..] + rest;
  }

  lemma UncamelPiece(p: string, rest: string, first: bool)
    requires IsPiece(p)
    ensures Uncamel(Capitalized(p) + rest, first) == (if first || IsDigit(p[0]) then p else "_" + p) + Uncamel(rest, false)
  {
    assert p[1..] == "" || IsPiece(p[1..]);
    UncamelTail(p[1..], rest);
    UncamelHead(p, rest, first);
    var tail := Uncamel(rest, false);
    Assoc([p[0]], p[1..], tail);
    Assoc("_" + [p[0]], p[1..], tail);
    assert [p[0]] + p[1..] == p && "_" + [p[0]] + p[1..] == "_" + p;
  }

  lemma {:induction false} UncamelCamel(pieces: seq<string>, first: bool)
    requires ArePieces(pieces) && Camel(pieces).Some?
    ensures Uncamel(Camel(pieces).value, first) == JoinCanonical(pieces, first)
  {
    if pieces != [] {
      UncamelCamel(pieces[1..], false);
      UncamelPiece(pieces[0], Camel(pieces[1..]).value, first);
    }
  }

  lemma {:induction false} CamelizeTail(p: string, rest: string)
    requires p == "" || IsPiece(p)
    ensures Camelize(p + rest, false) == p + Camelize(rest, false)
  {
    if p == "" {
      assert p + rest == rest;
    } else {
      assert p[1..] == "" || IsPiece(p[1..]);
      CamelizeTail(p[1..], rest);
      assert (p + rest)[1..] == p[1..] + rest;
      assert [p[0]] + (p[1..] + Camelize(rest, false)) == p + Camelize(rest, false);
    }
  }

  lemma CamelizePiece(p: string, rest: string)
    requires IsPiece(p)
    ensures Camelize(p + rest, true) == Capitalized(p) + Camelize(rest, false)
    ensures Camelize("_" + p + rest, false) == Capitalized(p) + Camelize(rest, false)
    ensures IsDigit(p[0]) ==> Camelize(p + rest, false) == Capitalized(p) + Camelize(rest, false)
  {
    assert p[1..] == "" || IsPiece(p[1..]);
    CamelizeTail(p[1..], rest);
    CamelizeTail(p, rest);
    TailOfConcat(p, rest);
    Assoc([Upper(p[0])], p[1..], Camelize(rest, false));
    TailOfConcat("_", p + rest);
    Assoc("_", p, rest);
    assert "_"[1..] == "" && "" + (p + rest) == p + rest;
    assert IsDigit(p[0]) ==> Capitalized(p) == p;
  }

  /** A canonical name still determines the variant. */
  lemma {:induction false} CamelizeCanonical(pieces: seq<string>, first: bool)
    requires ArePieces(pieces) && Camel(pieces).Some?
    ensures Camelize(JoinCanonical(pieces, first), first) == Camel(pieces).value
  {
    if pieces != [] {
      CamelizeCanonical(pieces[1..], false);
      CamelizePiece(pieces[0], JoinCanonical(pieces[1..], false));
    }
  }

  lemma KeyPieces(key: string)
    requires IsKey(key) && VariantOf(key).Some?
    ensures ArePieces(Split(key, '_'))
  {
    var pieces := Split(key, '_');
    JoinSplit(key, '_');
    JoinChars(pieces, '_');
    forall i, k | 0 <= i < |pieces| && 0 <= k < |pieces[i]| ensures IsLower(pieces[i][k]) || IsDigit(pieces[i][k]) {
      assert pieces[i][k] in key;
      assert Free(pieces[i], '_');
    }
    CamelPieces(pieces);
  }

  lemma {:induction false} JoinChars(pieces: seq<string>, sep: char)
    ensures forall i, k :: 0 <= i < |pieces| && 0 <= k < |pieces[i]| ==> pieces[i][k] in Join(pieces, sep)
  {
    if |pieces| > 1 {
      JoinChars(pieces[1..], sep);
      forall i, k | 0 <= i < |pieces| && 0 <= k < |pieces[i]| ensures pieces[i][k] in Join(pieces, sep) {
        if i > 0 {
          assert pieces[1..][i - 1][k] in Join(pieces[1..], sep);
        }
      }
    }
  }

  /** Main result on names: two keys get the same variant exactly when they differ at most in
      underscores that precede digits. */
  lemma VariantsEqual(a: string, b: string)
    requires IsKey(a) && IsKey(b) && VariantOf(a).Some? && VariantOf(b).Some?
    ensures VariantOf(a) == VariantOf(b) <==> Canonical(a) == Canonical(b)
  {
    KeyPieces(a);
    KeyPieces(b);
    UncamelCamel(Split(a, '_'), true);
    UncamelCamel(Split(b, '_'), true);
    CamelizeCanonical(Split(a, '_'), true);
    CamelizeCanonical(Split(b, '_'), true);
  }

  /** Every piece of the key starts with a letter. */
  predicate LetterPieces(key: string) {
    var pieces := Split(key, '_');
    forall i :: 0 <= i < |pieces| ==> pieces[i] != "" && IsLower(pieces[i][0])
  }

  lemma {:induction false} JoinCanonicalLetters(pieces: seq<string>)
    requires forall i :: 0 <= i < |pieces| ==> pieces[i] != "" && IsLower(pieces[i][0])
    ensures JoinCanonical(pieces, true) == Join(pieces, '_')
    ensures pieces != [] ==> JoinCanonical(pieces, false) == "_" + Join(pieces, '_')
  {
    if pieces != [] {
      JoinCanonicalLetters(pieces[1..]);
      if |pieces| > 1 {
        assert pieces[0] + ("_" + Join(pieces[1..], '_')) == Join(pieces, '_');
        assert "_" + pieces[0] + ("_" + Join(pieces[1..], '_')) == "_" + Join(pieces, '_');
      } else {
        assert pieces[0] + "" == pieces[0] && "_" + pieces[0] + "" == "_" + pieces[0];
      }
    }
  }

  lemma {:induction false} CamelLetters(pieces: seq<string>)
    requires forall i :: 0 <= i < |pieces| ==> pieces[i] != ""
    ensures Camel(pieces).Some?
  {
    if pieces != [] {
      CamelLetters(pieces[1..]);
    }
  }

  /** On keys whose pieces all start with a letter, distinct keys get distinct variants, and the key
      can be read back from its variant. */
  lemma VariantInjective(key: string)
    requires IsKey(key) && LetterPieces(key)
    ensures VariantOf(key).Some? && Uncamel(VariantOf(key).value, true) == key
  {
    CamelLetters(Split(key, '_'));
    KeyPieces(key);
    UncamelCamel(Split(key, '_'), true);
    JoinCanonicalLetters(Split(key, '_'));
    JoinSplit(key, '_');
  }

  lemma CamelOne(piece: string)
    requires piece != ""
    ensures Camel([piece]) == Some(Capitalized(piece))
  {
    assert [piece][1..] == [] && Capitalized(piece) + "" == Capitalized(piece);
  }

  /** Two valid keys that collide. */
  lemma KeysCollide()
    ensures IsKey("a1") && IsKey("a_1") && VariantOf("a1") == VariantOf("a_1") == Some("A1")
  {
    SplitFree("a1", '_');
    SplitHead("a", '_', "1");
    SplitFree("1", '_');
    assert "a" + ['_'] + "1" == "a_1";
    CamelOne("a1");
    CamelOne("1");
    assert ["a"] + ["1"] == ["a", "1"] && ["a", "1"][1..] == ["1"];
    assert Capitalized("a1") == "A1" && Capitalized("a") + Capitalized("1") == "A1";
  }

  predicate HasDigit(s: string) {
    exists i :: 0 <= i < |s| && IsDigit(s[i])
  }

  lemma {:induction false} DigitPieceShows(pieces: seq<string>, k: nat)
    requires Camel(pieces).Some? && k < |pieces| && pieces[k] != "" && IsDigit(pieces[k][0])
    ensures HasDigit(Camel(pieces).value)
  {
    var rest := Camel(pieces[1..]).value;
    var name := Camel(pieces).value;
    if k == 0 {
      assert IsDigit(name[0]);
    } else {
      DigitPieceShows(pieces[1..], k - 1);
      var i :| 0 <= i < |rest| && IsDigit(rest[i]);
      assert name[|pieces[0]| + i] == rest[i];
    }
  }

  /** The one variant that is a reserved word of Rust belongs to one valid key. */
  lemma ReservedVariant(key: string)
    requires IsKey(key)
    ensures VariantOf(key) == Some("Self") <==> key == "self"
  {
    var pieces := Split(key, '_');
    if VariantOf(key) == Some("Self") {
      assert !HasDigit("Self");
      KeyPieces(key);
      forall i | 0 <= i < |pieces| ensures IsLower(pieces[i][0]) {
        if IsDigit(pieces[i][0]) {
          DigitPieceShows(pieces, i);
        }
      }
      VariantInjective(key);
      assert Uncamel("Self", true) == "self" by {
        assert Uncamel("f", false) == "f" && Uncamel("lf", false) == "lf" && Uncamel("elf", false) == "elf";
      }
    }
    SplitFree("self", '_');
    CamelOne("self");
    assert Capitalized("self") == "Self";
  }

  // ----- Validation -----

  datatype ValidationError = KeyMismatch | BadPlaceholders(error: ScanError) | PlaceholderMismatch(key: string)

  /** Both locales have the same keys, and the same placeholders under each. */
  predicate Validated(english: LocaleFile, chinese: LocaleFile) {
    && english.byKey.Keys == chinese.byKey.Keys
    && forall key :: key in english.byKey ==>
      Scan(english.byKey[key]).Ok? && Scan(chinese.byKey[key]) == Scan(english.byKey[key])
  }

  method ValidateLocaleFiles(english: LocaleFile, chinese: LocaleFile) returns (result: Result<(), ValidationError>)
    ensures result.Ok? <==> Validated(english, chinese)
  {
    if english.byKey.Keys != chinese.byKey.Keys {
      return Err(KeyMismatch);
    }
    var keys := english.byKey.Keys;
    while keys != {}
      invariant keys <= english.byKey.Keys
      invariant forall key :: key in english.byKey && key !in keys ==>
        Scan(english.byKey[key]).Ok? && Scan(chinese.byKey[key]) == Scan(english.byKey[key])
      decreases keys
    {
      var key :| key in keys;
      var left := Placeholders(english.byKey[key]);
      if left.Err? {
        return Err(BadPlaceholders(left.error));
      }
      var right := Placeholders(chinese.byKey[key]);
      if right.Err? {
        return Err(BadPlaceholders(right.error));
      }
      ListedEqual(left.value, right.value, Scan(english.byKey[key]).value, Scan(chinese.byKey[key]).value);
      if left.value != right.value {
        return Err(PlaceholderMismatch(key));
      }
      keys := keys - {key};
    }
    return Ok(());
  }

  /** Sorted lists are equal exactly when the sets they list are. */
  lemma ListedEqual(s: seq<string>, t: seq<string>, a: set<string>, b: set<string>)
    requires Sorted(s) && Sorted(t)
    requires (forall x :: x in s <==> x in a) && (forall x :: x in t <==> x in b)
    ensures s == t <==> a == b
  {
    if a == b {
      SortedUnique(s, t);
    }
    if s == t {
      forall x ensures x in a <==> x in b {
        assert x in s <==> x in a;
      }
    }
  }

  // ----- Generation -----

  datatype Arm = Arm(variant: string, value: string)

  /** A generated accessor: its name, its parameters in order, and the variant it looks up. */
  datatype TextMethod = TextMethod(name: string, parameters: seq<string>, variant: string)

  /** The generated source: the variants of the enum, the match arms of each language, the help
      lines of each, and the accessors. */
  datatype Generated = Generated(
    variants: seq<string>, english: seq<Arm>, chinese: seq<Arm>,
    helpEnglish: seq<string>, helpChinese: seq<string>, methods: seq<TextMethod>)

  /** Keys whose accessors are written by hand. */
  predicate HandWritten(key: string) {
    key in {"help_lines", "context_usage_raw", "context_usage", "language_status", "language_updated"}
  }

  function Regular(entries: seq<(string, string)>): seq<(string, string)> {
    if entries == [] then []
    else
      var last := |entries| - 1;
      Regular(entries[..last]) + if HandWritten(entries[last].0) then [] else [entries[last]]
  }

  /** One arm for each entry, in order. */
  ghost predicate ArmsOf(arms: seq<Arm>, entries: seq<(string, string)>) {
    && |arms| == |entries|
    && forall i :: 0 <= i < |arms| ==> VariantOf(entries[i].0) == Some(arms[i].variant) && arms[i].value == entries[i].1
  }

  ghost predicate MethodsOf(methods: seq<TextMethod>, regular: seq<(string, string)>) {
    && |methods| == |regular|
    && forall i :: 0 <= i < |methods| ==>
      && methods[i].name == regular[i].0
      && VariantOf(regular[i].0) == Some(methods[i].variant)
      && Lists(Ok(methods[i].parameters), Scan(regular[i].1))
  }

  /** Every key has a variant name. */
  predicate Armable(entries: seq<(string, string)>) {
    forall i :: 0 <= i < |entries| ==> VariantOf(entries[i].0).Some?
  }

  /** The match arms of one language; None where the generator panics. */
  method MatchArms(entries: seq<(string, string)>) returns (arms: Option<seq<Arm>>)
    ensures arms.Some? ==> ArmsOf(arms.value, entries)
    ensures arms.Some? <==> Armable(entries)
  {
    var list: seq<Arm> := [];
    for i := 0 to |entries|
      invariant ArmsOf(list, entries[..i])
      invariant Armable(entries[..i])
    {
      var variant := VariantName(entries[i].0);
      if variant.None? {
        return None;
      }
      list := list + [Arm(variant.value, entries[i].1)];
    }
    assert entries[..|entries|] == entries;
    return Some(list);
  }

  /** One arm for each entry's key, with the other language's value. */
  ghost predicate ArmsWith(arms: seq<Arm>, entries: seq<(string, string)>, values: map<string, string>) {
    && |arms| == |entries|
    && forall i :: 0 <= i < |arms| ==>
      && VariantOf(entries[i].0) == Some(arms[i].variant)
      && entries[i].0 in values && arms[i].value == values[entries[i].0]
  }

  predicate AllKeyed(entries: seq<(string, string)>, values: map<string, string>) {
    forall i :: 0 <= i < |entries| ==> entries[i].0 in values
  }

  /** The keys of the entries with the other language's values. */
  function Translated(entries: seq<(string, string)>, values: map<string, string>): seq<(string, string)>
    requires AllKeyed(entries, values)
  {
    seq(|entries|, i requires 0 <= i < |entries| => (entries[i].0, values[entries[i].0]))
  }

  /** An accessor can be generated for the entry, or is written by hand. */
  predicate Describable(entry: (string, string)) {
    HandWritten(entry.0) || (VariantOf(entry.0).Some? && Scan(entry.1).Ok?)
  }

  predicate AllDescribable(entries: seq<(string, string)>) {
    forall i :: 0 <= i < |entries| ==> Describable(entries[i])
  }

  method TextMethods(entries: seq<(string, string)>) returns (methods: Option<seq<TextMethod>>)
    ensures methods.Some? ==> MethodsOf(methods.value, Regular(entries))
    ensures methods.Some? <==> AllDescribable(entries)
  {
    var list: seq<TextMethod> := [];
    for i := 0 to |entries|
      invariant MethodsOf(list, Regular(entries[..i]))
      invariant AllDescribable(entries[..i])
    {
      var (key, value) := entries[i];
      assert entries[..i + 1][..i] == entries[..i];
      if HandWritten(key) {
        continue;
      }
      var variant := VariantName(key);
      if variant.None? {
        assert !Describable(entries[i]);
        return None;
      }
      var parameters := Placeholders(value);
      if parameters.Err? {
        assert !Describable(entries[i]);
        return None;
      }
      list := list + [TextMethod(key, parameters.value, variant.value)];
    }
    assert entries[..|entries|] == entries;
    return Some(list);
  }

  /** The enum and the match of `g` are those of the two files. */
  ghost predicate GeneratesLookup(english: LocaleFile, chinese: LocaleFile, g: Generated) {
    && ArmsOf(g.english, english.entries)
    && |g.variants| == |g.english|
    && (forall i :: 0 <= i < |g.variants| ==> g.variants[i] == g.english[i].variant)
    && ArmsWith(g.chinese, english.entries, chinese.byKey)
  }

  /** `g` is the source generated from the two files. */
  ghost predicate Generates(english: LocaleFile, chinese: LocaleFile, g: Generated) {
    && GeneratesLookup(english, chinese, g)
    && MethodsOf(g.methods, Regular(english.entries))
    && "help_lines" in english.byKey && g.helpEnglish == Split(english.byKey["help_lines"], '\n')
    && "help_lines" in chinese.byKey && g.helpChinese == Split(chinese.byKey["help_lines"], '\n')
  }

  /** The generator does not panic on the two files. */
  predicate Generable(english: LocaleFile, chinese: LocaleFile) {
    && Armable(english.entries) && AllKeyed(english.entries, chinese.byKey)
    && AllDescribable(english.entries)
    && "help_lines" in english.byKey && "help_lines" in chinese.byKey
  }

  method GenerateRust(english: LocaleFile, chinese: LocaleFile) returns (g: Option<Generated>)
    ensures g.Some? ==> Generates(english, chinese, g.value)
    ensures g.Some? <==> Generable(english, chinese)
  {
    var englishArms := MatchArms(english.entries);
    if englishArms.None? {
      return None;
    }
    var variants := seq(|englishArms.value|, i requires 0 <= i < |englishArms.value| => englishArms.value[i].variant);
    if !AllKeyed(english.entries, chinese.byKey) {
      return None;
    }
    var chineseArms := MatchArms(Translated(english.entries, chinese.byKey));
    if chineseArms.Some? {
      TranslatedArms(chineseArms.value, english.entries, chinese.byKey);
    }
    if chineseArms.None? || "help_lines" !in english.byKey || "help_lines" !in chinese.byKey {
      return None;
    }
    var methods := TextMethods(english.entries);
    if methods.None? {
      return None;
    }
    g := Some(Generated(variants, englishArms.value, chineseArms.value,
      Split(english.byKey["help_lines"], '\n'), Split(chinese.byKey["help_lines"], '\n'), methods.value));
  }

  // ----- The generated lookup -----

  datatype Language = English | Chinese

  /** The generated match: the value of the first arm with the variant. */
  function FirstArm(arms: seq<Arm>, variant: string): Option<string> {
    if arms == [] then None
    else if arms[0].variant == variant then Some(arms[0].value)
    else FirstArm(arms[1..], variant)
  }

  function LookupText(g: Generated, language: Language, variant: string): Option<string> {
    FirstArm(if language.English? then g.english else g.chinese, variant)
  }

  /** The compiler accepts the enum only without duplicate variants. */
  ghost predicate DistinctVariants(g: Generated) {
    forall i, j :: 0 <= i < j < |g.variants| ==> g.variants[i] != g.variants[j]
  }

  lemma {:induction false} FirstArmAt(arms: seq<Arm>, k: nat)
    requires k < |arms| && forall i :: 0 <= i < k ==> arms[i].variant != arms[k].variant
    ensures FirstArm(arms, arms[k].variant) == Some(arms[k].value)
  {
    if k > 0 {
      FirstArmAt(arms[1..], k - 1);
    }
  }

  /** No two keys differ only in underscores before digits. */
  ghost predicate DistinctCanonical(entries: seq<(string, string)>) {
    forall i, j :: 0 <= i < j < |entries| ==> Canonical(entries[i].0) != Canonical(entries[j].0)
  }

  /** The enum has no duplicate variant exactly when no two keys differ only in underscores before
      digits. */
  lemma VariantsDistinct(english: LocaleFile, chinese: LocaleFile, g: Generated)
    requires Coherent(english) && GeneratesLookup(english, chinese, g)
    ensures DistinctVariants(g) <==> DistinctCanonical(english.entries)
  {
    forall i, j | 0 <= i < j < |english.entries|
      ensures g.variants[i] == g.variants[j] <==> Canonical(english.entries[i].0) == Canonical(english.entries[j].0)
    {
      assert IsKey(english.entries[i].0) && IsKey(english.entries[j].0);
      VariantsEqual(english.entries[i].0, english.entries[j].0);
    }
  }

  /** In arms without duplicate variants, each entry's variant selects the entry's own value. */
  lemma ArmsFaithful(arms: seq<Arm>, entries: seq<(string, string)>, k: nat)
    requires ArmsOf(arms, entries) && k < |arms|
    requires forall i, j :: 0 <= i < j < |arms| ==> arms[i].variant != arms[j].variant
    ensures VariantOf(entries[k].0).Some?
    ensures FirstArm(arms, VariantOf(entries[k].0).value) == Some(entries[k].1)
  {
    FirstArmAt(arms, k);
  }

  lemma TranslatedArms(arms: seq<Arm>, entries: seq<(string, string)>, values: map<string, string>)
    requires AllKeyed(entries, values)
    ensures ArmsOf(arms, Translated(entries, values)) <==> ArmsWith(arms, entries, values)
  {
    assert forall i :: 0 <= i < |entries| ==> Translated(entries, values)[i] == (entries[i].0, values[entries[i].0]);
  }

  lemma SameVariants(english: LocaleFile, chinese: LocaleFile, g: Generated)
    requires GeneratesLookup(english, chinese, g)
    ensures |g.chinese| == |g.english| == |g.variants|
    ensures forall i :: 0 <= i < |g.variants| ==> g.variants[i] == g.english[i].variant == g.chinese[i].variant
  {
    forall i | 0 <= i < |g.variants| ensures g.english[i].variant == g.chinese[i].variant {
      assert VariantOf(english.entries[i].0) == Some(g.english[i].variant);
    }
  }

  lemma EntryFaithful(english: LocaleFile, chinese: LocaleFile, g: Generated, k: nat)
    requires GeneratesLookup(english, chinese, g) && DistinctVariants(g) && k < |english.entries|
    ensures var key := english.entries[k].0;
      && VariantOf(key).Some? && key in chinese.byKey
      && LookupText(g, English, VariantOf(key).value) == Some(english.entries[k].1)
      && LookupText(g, Chinese, VariantOf(key).value) == Some(chinese.byKey[key])
  {
    SameVariants(english, chinese, g);
    ArmsFaithful(g.english, english.entries, k);
    TranslatedArms(g.chinese, english.entries, chinese.byKey);
    ArmsFaithful(g.chinese, Translated(english.entries, chinese.byKey), k);
  }

  /** Main result: in a compiled lookup, every key selects its own value in either language. */
  lemma LookupFaithful(english: LocaleFile, chinese: LocaleFile, g: Generated, key: string)
    requires Coherent(english) && GeneratesLookup(english, chinese, g) && DistinctVariants(g)
    requires key in english.byKey
    ensures VariantOf(key).Some? && key in chinese.byKey
    ensures LookupText(g, English, VariantOf(key).value) == Some(english.byKey[key])
    ensures LookupText(g, Chinese, VariantOf(key).value) == Some(chinese.byKey[key])
  {
    var k :| 0 <= k < |english.entries| && english.entries[k].0 == key;
    assert english.byKey[english.entries[k].0] == english.entries[k].1;
    EntryFaithful(english, chinese, g, k);
  }

  lemma {:induction false} RegularEntries(entries: seq<(string, string)>)
    ensures forall e :: e in Regular(entries) <==> e in entries && !HandWritten(e.0)
  {
    if entries != [] {
      var last := |entries| - 1;
      RegularEntries(entries[..last]);
      assert entries == entries[..last] + [entries[last]];
    }
  }

  /** `at` lists, in order, exactly the entries whose accessor is generated. */
  ghost predicate ListsAccessors(entries: seq<(string, string)>, at: seq<nat>) {
    && (forall j :: 0 <= j < |at| ==> at[j] < |entries|)
    && (forall i, j :: 0 <= i < j < |at| ==> at[i] < at[j])
    && forall i: nat :: i < |entries| ==> (i in at <==>
        var key := entries[i].0;
        && key != "help_lines" && key != "context_usage_raw" && key != "context_usage"
        && key != "language_status" && key != "language_updated")
  }

  /** The methods are the accessors of the entries at these places. */
  ghost predicate AccessorsAt(methods: seq<TextMethod>, entries: seq<(string, string)>, at: seq<nat>) {
    && |at| == |methods|
    && forall j :: 0 <= j < |at| ==>
      && at[j] < |entries| && methods[j].name == entries[at[j]].0
      && VariantOf(entries[at[j]].0) == Some(methods[j].variant)
      && Lists(Ok(methods[j].parameters), Scan(entries[at[j]].1))
  }

  lemma AccessorNext(entries: seq<(string, string)>, at: seq<nat>) returns (next: seq<nat>)
    requires entries != [] && ListsAccessors(entries[..|entries| - 1], at)
    ensures ListsAccessors(entries, next)
    ensures next == if HandWritten(entries[|entries| - 1].0) then at else at + [|entries| - 1]
  {
    var last := |entries| - 1;
    next := if HandWritten(entries[last].0) then at else at + [last];
    assert forall i: nat :: i < last ==> entries[..last][i] == entries[i];
    assert forall i: nat :: i in next <==> i in at || (i == last && !HandWritten(entries[last].0));
  }

  lemma {:induction false} RegularAt(entries: seq<(string, string)>) returns (at: seq<nat>)
    ensures ListsAccessors(entries, at) && |at| == |Regular(entries)|
    ensures forall j :: 0 <= j < |at| ==> Regular(entries)[j] == entries[at[j]]
  {
    if entries == [] {
      at := [];
    } else {
      var last := |entries| - 1;
      at := RegularAt(entries[..last]);
      at := AccessorNext(entries, at);
    }
  }

  /** Main result on the accessors: in the order of the entries, one for each key that is not among the
      five written by hand, named as the key, with the key's variant and its text's placeholders. */
  lemma AccessorsExactly(entries: seq<(string, string)>, methods: seq<TextMethod>)
    requires MethodsOf(methods, Regular(entries))
    ensures exists at :: ListsAccessors(entries, at) && AccessorsAt(methods, entries, at)
  {
    var at := RegularAt(entries);
  }

  lemma RegularValue(english: LocaleFile, e: (string, string))
    requires Coherent(english) && e in Regular(english.entries)
    ensures e.0 in english.byKey && english.byKey[e.0] == e.1
  {
    RegularEntries(english.entries);
    var k :| 0 <= k < |english.entries| && english.entries[k] == e;
    assert english.byKey[english.entries[k].0] == english.entries[k].1;
  }

  /** Main result: after validation, every accessor's parameters are exactly the placeholders of its
      text in both languages. */
  lemma ParametersFit(english: LocaleFile, chinese: LocaleFile, methods: seq<TextMethod>, m: TextMethod)
    requires Coherent(english) && Validated(english, chinese) && MethodsOf(methods, Regular(english.entries))
    requires m in methods
    ensures m.name in english.byKey && Sorted(m.parameters)
    ensures Lists(Ok(m.parameters), Scan(english.byKey[m.name]))
    ensures Lists(Ok(m.parameters), Scan(chinese.byKey[m.name]))
  {
    var i :| 0 <= i < |methods| && methods[i] == m;
    RegularValue(english, Regular(english.entries)[i]);
  }

  /** Validated files generate unless a key has an empty piece or there are no help lines. */
  lemma ValidatedGenerable(english: LocaleFile, chinese: LocaleFile)
    requires Coherent(english) && Validated(english, chinese)
    ensures Generable(english, chinese) <==>
      "help_lines" in english.byKey && forall key :: key in english.byKey ==> VariantOf(key).Some?
  {
    forall i | 0 <= i < |english.entries|
      ensures english.entries[i].0 in english.byKey && Scan(english.entries[i].1).Ok?
    {
      assert english.byKey[english.entries[i].0] == english.entries[i].1;
    }
    if Generable(english, chinese) {
      forall key | key in english.byKey ensures VariantOf(key).Some? {
        var i :| 0 <= i < |english.entries| && english.entries[i].0 == key;
      }
    }
  }

  // ----- From the files to the lookup -----

  lemma {:induction false} PairsHold(lines: seq<SourceLine>, file: LocaleFile, i: nat)
    requires i < |lines| && lines[i].Pair? && DistinctKeys(lines, file.byKey.Keys)
    ensures lines[i].key in Pairs(lines, file).byKey && Pairs(lines, file).byKey[lines[i].key] == lines[i].value
  {
    var next := if lines[0].Pair? then Added(file, lines[0].key, lines[0].value) else file;
    assert next.byKey.Keys == file.byKey.Keys + if lines[0].Pair? then {lines[0].key} else {};
    if i == 0 {
      PairsKeep(lines[1..], next, lines[0].key);
    } else {
      PairsHold(lines[1..], next, i - 1);
    }
  }

  lemma {:induction false} PairsKeep(lines: seq<SourceLine>, file: LocaleFile, key: string)
    requires key in file.byKey && DistinctKeys(lines, file.byKey.Keys)
    ensures key in Pairs(lines, file).byKey && Pairs(lines, file).byKey[key] == file.byKey[key]
  {
    if lines != [] {
      var next := if lines[0].Pair? then Added(file, lines[0].key, lines[0].value) else file;
      assert next.byKey.Keys == file.byKey.Keys + if lines[0].Pair? then {lines[0].key} else {};
      PairsKeep(lines[1..], next, key);
    }
  }

  lemma EmptyCoherent()
    ensures Coherent(EMPTY_FILE)
  {}

  /** Main result on the whole compiler: a pair of the English file is looked up, in the generated
      source, as the value that was written for its key in the file of either language. */
  lemma CompiledLookup(english: seq<SourceLine>, chinese: seq<SourceLine>, g: Generated, i: nat, j: nat)
    requires Printable(english) && DistinctKeys(english, {}) && Printable(chinese) && DistinctKeys(chinese, {})
    requires i < |english| && english[i].Pair? && j < |chinese| && chinese[j].Pair? && english[i].key == chinese[j].key
    requires
      var left := ReadLines(Lines(PrintFile(english)), 0, EMPTY_FILE);
      var right := ReadLines(Lines(PrintFile(chinese)), 0, EMPTY_FILE);
      left.Ok? && right.Ok? && GeneratesLookup(left.value, right.value, g) && DistinctVariants(g)
    ensures VariantOf(english[i].key).Some?
    ensures LookupText(g, English, VariantOf(english[i].key).value) == Some(english[i].value)
    ensures LookupText(g, Chinese, VariantOf(english[i].key).value) == Some(chinese[j].value)
  {
    var left, right := Pairs(english, EMPTY_FILE), Pairs(chinese, EMPTY_FILE);
    FileRoundTrip(english);
    FileRoundTrip(chinese);
    EmptyCoherent();
    ReadCoherent(Lines(PrintFile(english)), 0, EMPTY_FILE);
    assert EMPTY_FILE.byKey.Keys == {};
    PairsHold(english, EMPTY_FILE, i);
    PairsHold(chinese, EMPTY_FILE, j);
    LookupFaithful(left, right, g, english[i].key);
  }
}
