/** What a recorded event leaves in a tab, told from the fields of its JSON. */
module EventRecords {
  import opened Wrappers
  import opened Json
  import opened Text
  import opened BrowserEvents
  import opened Cdp
  import opened TabEvents

  /** The value found under the keys of `path`, one inside the other. */
  predicate At(v: Value, path: seq<string>, inner: Value) {
    if path == [] then inner == v
    else v.Object? && path[0] in v.fields && At(v.fields[path[0]], path[1..], inner)
  }

  predicate TextAt(v: Value, path: seq<string>, text: string) {
    At(v, path, String(text))
  }

  ghost predicate Lacks(v: Value, path: seq<string>) {
    forall inner :: !At(v, path, inner)
  }

  lemma {:induction false} PointerAt(v: Value, path: seq<string>)
    ensures forall inner :: Pointer(v, path) == Some(inner) <==> At(v, path, inner)
  {
    if path != [] && Get(v, path[0]).Some? {
      PointerAt(v.fields[path[0]], path[1..]);
    }
  }

  lemma GetAt(v: Value, key: string)
    ensures Get(v, key) == Pointer(v, [key])
    ensures forall inner :: Get(v, key) == Some(inner) <==> At(v, [key], inner)
  {
    assert Get(v, key).Some? ==> Pointer(Get(v, key).value, [key][1..]) == Get(v, key);
    PointerAt(v, [key]);
  }

  // ----- The file chooser -----

  /** The open event names the chooser's node, frame and mode. */
  ghost predicate Describes(event: Value, c: Chooser) {
    && At(event, ["params", "backendNodeId"], Integer(c.backendNodeId))
    && -0x8000_0000_0000_0000 <= c.backendNodeId < 0x8000_0000_0000_0000
    && TextAt(event, ["params", "frameId"], c.frameId)
    && TextAt(event, ["params", "mode"], if c.multiple then "selectMultiple" else "selectSingle")
  }

  /** A chooser is identified exactly by an event that describes it. */
  lemma ChooserExactly(event: Value, c: Chooser)
    ensures OpenedChooser(event) == Ok(c) <==> Describes(event, c)
  {
    PointerAt(event, ["params", "backendNodeId"]);
    PointerAt(event, ["params", "frameId"]);
    PointerAt(event, ["params", "mode"]);
  }

  /** A frame without a parent, or the chooser's own, navigates or goes away. */
  ghost predicate LeavesFrame(event: Value, c: Chooser) {
    || (TextAt(event, ["method"], "Page.frameNavigated") && exists frame ::
          At(event, ["params", "frame"], frame) && (Lacks(frame, ["parentId"]) || TextAt(frame, ["id"], c.frameId)))
    || (TextAt(event, ["method"], "Page.frameDetached") && TextAt(event, ["params", "frameId"], c.frameId))
  }

  lemma MethodAt(event: Value, name: string)
    ensures Method(event) == Some(name) <==> TextAt(event, ["method"], name)
  {
    GetAt(event, "method");
  }

  /** Exactly those events invalidate a chooser. */
  lemma InvalidatesExactly(event: Value, c: Chooser)
    ensures Invalidates(event, c) <==> LeavesFrame(event, c)
  {
    MethodAt(event, "Page.frameNavigated");
    MethodAt(event, "Page.frameDetached");
    PointerAt(event, ["params", "frame"]);
    PointerAt(event, ["params", "frameId"]);
    var frame := Pointer(event, ["params", "frame"]);
    if frame.Some? {
      GetAt(frame.value, "parentId");
      GetAt(frame.value, "id");
    }
  }

  // ----- Log items -----

  /** The text under the key, or the default where there is none. */
  ghost predicate TextOr(v: Value, key: string, default: string, text: string) {
    TextAt(v, [key], text) || (text == default && forall other :: !TextAt(v, [key], other))
  }

  /** The level that a raw level is logged under. */
  predicate LoggedAs(raw: string, level: string) {
    || (raw == "error" && level == "error")
    || ((raw == "warning" || raw == "warn") && level == "warning")
    || ((raw == "debug" || raw == "verbose") && level == "debug")
    || (raw !in {"error", "warning", "warn", "debug", "verbose"} && level == "info")
  }

  /** An argument's text: its value, printed unless it is a string, or else its description. */
  ghost predicate Spoken(render: Renderer, arg: Value, text: string) {
    || TextAt(arg, ["value"], text)
    || (exists value :: At(arg, ["value"], value) && !value.String? && text == render(value))
    || (Lacks(arg, ["value"]) && TextOr(arg, "description", "", text))
  }

  ghost predicate AllSpoken(render: Renderer, args: seq<Value>, texts: seq<string>) {
    |texts| == |args| && forall i :: 0 <= i < |args| ==> Spoken(render, args[i], texts[i])
  }

  /** The texts of the arguments with a space between any two, or nothing where there is no array. */
  ghost predicate Uttered(render: Renderer, params: Value, message: string) {
    || (exists args, texts :: At(params, ["args"], Array(args)) && AllSpoken(render, args, texts) && message == Join(texts, ' '))
    || (message == "" && forall args :: !At(params, ["args"], Array(args)))
  }

  ghost predicate ConsoleCall(render: Renderer, event: Value, raw: string, message: string) {
    && TextAt(event, ["method"], "Runtime.consoleAPICalled")
    && exists params :: At(event, ["params"], params) && TextOr(params, "type", "info", raw) && Uttered(render, params, message)
  }

  ghost predicate LogEntry(event: Value, raw: string, message: string) {
    && TextAt(event, ["method"], "Log.entryAdded")
    && exists entry ::
      At(event, ["params", "entry"], entry) && TextOr(entry, "level", "info", raw) && TextOr(entry, "text", "", message)
  }

  /** The event adds this item to the console log. */
  ghost predicate AddsConsole(render: Renderer, event: Value, item: Value) {
    exists raw, level, message ::
      && (ConsoleCall(render, event, raw, message) || LogEntry(event, raw, message)) && LoggedAs(raw, level)
      && item == Object(map["level" := String(level), "message" := String(message)])
  }

  /** The value under the path, or the default where there is none. */
  ghost predicate ValueOr(v: Value, path: seq<string>, default: Value, value: Value) {
    At(v, path, value) || (value == default && Lacks(v, path))
  }

  /** The event adds this item to the network log. */
  ghost predicate AddsNetwork(event: Value, item: Value) {
    && TextAt(event, ["method"], "Network.requestWillBeSent")
    && exists request, id, url, verb, kind ::
      && At(event, ["params", "request"], request)
      && ValueOr(event, ["params", "requestId"], Null, id) && ValueOr(request, ["url"], String(""), url)
      && ValueOr(request, ["method"], String(""), verb) && ValueOr(event, ["params", "type"], String(""), kind)
      && item == Object(map["requestId" := id, "url" := url, "method" := verb, "resourceType" := kind])
  }

  lemma TextOrIs(v: Value, key: string, default: string, text: string)
    ensures TextOr(v, key, default, text) <==> OrText(AsString(Get(v, key)), default) == text
  {
    GetAt(v, key);
    assert AsString(Get(v, key)).Some? ==> TextAt(v, [key], AsString(Get(v, key)).value);
  }

  lemma ValueOrIs(v: Value, path: seq<string>, default: Value, value: Value)
    ensures ValueOr(v, path, default, value) <==> Or(Pointer(v, path), default) == value
  {
    PointerAt(v, path);
  }

  lemma SpokenIs(render: Renderer, arg: Value, text: string)
    ensures Spoken(render, arg, text) <==> ArgumentText(render, arg) == text
  {
    GetAt(arg, "value");
    TextOrIs(arg, "description", "", text);
  }

  lemma {:induction false} ArgumentsJoin(render: Renderer, args: seq<Value>, texts: seq<string>)
    requires |texts| == |args| && forall i :: 0 <= i < |args| ==> texts[i] == ArgumentText(render, args[i])
    ensures ArgumentsText(render, args) == Join(texts, ' ')
  {
    if |args| > 1 {
      ArgumentsJoin(render, args[1..], texts[1..]);
    }
  }

  lemma UtteredIs(render: Renderer, params: Value, message: string)
    ensures Uttered(render, params, message) <==>
      message == var args := Get(params, "args");
                 if args.Some? && args.value.Array? then ArgumentsText(render, args.value.items) else ""
  {
    GetAt(params, "args");
    if args, texts :| At(params, ["args"], Array(args)) && AllSpoken(render, args, texts) && message == Join(texts, ' ') {
      forall i | 0 <= i < |args| ensures texts[i] == ArgumentText(render, args[i]) {
        SpokenIs(render, args[i], texts[i]);
      }
      ArgumentsJoin(render, args, texts);
    }
    if Get(params, "args").Some? && Get(params, "args").value.Array? {
      var args := Get(params, "args").value.items;
      var texts := seq(|args|, i requires 0 <= i < |args| => ArgumentText(render, args[i]));
      forall i | 0 <= i < |args| ensures Spoken(render, args[i], texts[i]) {
        SpokenIs(render, args[i], texts[i]);
      }
      ArgumentsJoin(render, args, texts);
      assert AllSpoken(render, args, texts);
    }
  }

  lemma LoggedIs(raw: string, level: string)
    ensures LoggedAs(raw, level) <==> NormalizeLevel(raw) == level
  {}

  lemma ConsoleCallIs(render: Renderer, event: Value, raw: string, message: string)
    ensures ConsoleCall(render, event, raw, message) <==>
      && Method(event) == Some("Runtime.consoleAPICalled") && Get(event, "params").Some?
      && OrText(AsString(Get(Get(event, "params").value, "type")), "info") == raw
      && Uttered(render, Get(event, "params").value, message)
  {
    MethodAt(event, "Runtime.consoleAPICalled");
    GetAt(event, "params");
    if Get(event, "params").Some? {
      TextOrIs(Get(event, "params").value, "type", "info", raw);
    }
  }

  lemma LogEntryIs(event: Value, raw: string, message: string)
    ensures LogEntry(event, raw, message) <==>
      && Method(event) == Some("Log.entryAdded") && Pointer(event, ["params", "entry"]).Some?
      && var entry := Pointer(event, ["params", "entry"]).value;
      && OrText(AsString(Get(entry, "level")), "info") == raw && OrText(AsString(Get(entry, "text")), "") == message
  {
    MethodAt(event, "Log.entryAdded");
    PointerAt(event, ["params", "entry"]);
    var entry := Pointer(event, ["params", "entry"]);
    if entry.Some? {
      TextOrIs(entry.value, "level", "info", raw);
      TextOrIs(entry.value, "text", "", message);
    }
  }

  /** The event logs this raw level and message. */
  ghost predicate Says(render: Renderer, event: Value, raw: string, message: string) {
    ConsoleCall(render, event, raw, message) || LogEntry(event, raw, message)
  }

  lemma SaysItem(render: Renderer, event: Value, raw: string, message: string)
    requires Says(render, event, raw, message)
    ensures ConsoleProjection(render, event) == Some(ConsoleItem(raw, message))
  {
    ConsoleCallIs(render, event, raw, message);
    LogEntryIs(event, raw, message);
    if ConsoleCall(render, event, raw, message) {
      UtteredIs(render, Get(event, "params").value, message);
    }
  }

  lemma ItemSaid(render: Renderer, event: Value) returns (raw: string, message: string)
    requires ConsoleProjection(render, event).Some?
    ensures Says(render, event, raw, message)
  {
    if Method(event) == Some("Log.entryAdded") {
      var entry := Pointer(event, ["params", "entry"]).value;
      raw, message := OrText(AsString(Get(entry, "level")), "info"), OrText(AsString(Get(entry, "text")), "");
      LogEntryIs(event, raw, message);
    } else {
      var params := Get(event, "params").value;
      var args := Get(params, "args");
      raw := OrText(AsString(Get(params, "type")), "info");
      message := if args.Some? && args.value.Array? then ArgumentsText(render, args.value.items) else "";
      UtteredIs(render, params, message);
      ConsoleCallIs(render, event, raw, message);
    }
  }

  /** Exactly that item is projected for the console log. */
  lemma ConsoleExactly(render: Renderer, event: Value, item: Value)
    ensures ConsoleProjection(render, event) == Some(item) <==> AddsConsole(render, event, item)
  {
    if ConsoleProjection(render, event) == Some(item) {
      var raw, message := ItemSaid(render, event);
      SaysItem(render, event, raw, message);
      LoggedIs(raw, NormalizeLevel(raw));
    }
    if AddsConsole(render, event, item) {
      var raw, level, message :| Says(render, event, raw, message) && LoggedAs(raw, level)
        && item == Object(map["level" := String(level), "message" := String(message)]);
      SaysItem(render, event, raw, message);
      LoggedIs(raw, level);
    }
  }

  /** Exactly that item is projected for the network log. */
  lemma NetworkExactly(event: Value, item: Value)
    ensures NetworkProjection(event) == Some(item) <==> AddsNetwork(event, item)
  {
    MethodAt(event, "Network.requestWillBeSent");
    PointerAt(event, ["params", "request"]);
    var request := Pointer(event, ["params", "request"]);
    if request.Some? {
      GetAt(request.value, "url");
      GetAt(request.value, "method");
      forall value
        ensures ValueOr(event, ["params", "requestId"], Null, value) <==> Or(Pointer(event, ["params", "requestId"]), Null) == value
        ensures ValueOr(event, ["params", "type"], String(""), value) <==> Or(Pointer(event, ["params", "type"]), String("")) == value
        ensures ValueOr(request.value, ["url"], String(""), value) <==> Or(Get(request.value, "url"), String("")) == value
        ensures ValueOr(request.value, ["method"], String(""), value) <==> Or(Get(request.value, "method"), String("")) == value
      {
        ValueOrIs(event, ["params", "requestId"], Null, value);
        ValueOrIs(event, ["params", "type"], String(""), value);
        ValueOrIs(request.value, ["url"], String(""), value);
        ValueOrIs(request.value, ["method"], String(""), value);
      }
    }
  }

  // ----- The record -----

  /** The item in front of the log, of which the newest 300 items are kept. */
  predicate Pushed(before: seq<Value>, item: Value, after: seq<Value>) {
    && |after| == (if |before| < 300 then |before| + 1 else 300) && after[0] == item
    && forall i :: 0 < i < |after| && i <= |before| ==> after[i] == before[i - 1]
  }

  ghost predicate OpensChooser(event: Value) {
    TextAt(event, ["method"], "Page.fileChooserOpened")
  }

  /** Each log gains the item that the event adds to it; an open event leaves the chooser it describes, and
      any other leaves the chooser there was unless it invalidates it. */
  ghost predicate Follows(render: Renderer, before: Record, event: Value, after: Record) {
    && (forall item :: AddsConsole(render, event, item) ==> Pushed(before.console, item, after.console))
    && ((forall item :: !AddsConsole(render, event, item)) ==> after.console == before.console)
    && (forall item :: AddsNetwork(event, item) ==> Pushed(before.network, item, after.network))
    && ((forall item :: !AddsNetwork(event, item)) ==> after.network == before.network)
    && forall c :: after.chooser == Some(c) <==>
      if OpensChooser(event) then Describes(event, c) else before.chooser == Some(c) && !LeavesFrame(event, c)
  }

  lemma PushLimitedPushes(before: seq<Value>, item: Value)
    requires |before| <= 300
    ensures Pushed(before, item, PushLimited(before, item))
  {}

  lemma RecordLogsFollow(render: Renderer, record: Record, event: Value, after: Record)
    requires |record.console| <= 300 && |record.network| <= 300 && Recorded(render, record, event) == Some(after)
    ensures var item := ConsoleProjection(render, event);
      if item.Some? then Pushed(record.console, item.value, after.console) else after.console == record.console
    ensures var item := NetworkProjection(event);
      if item.Some? then Pushed(record.network, item.value, after.network) else after.network == record.network
  {
    var console, network := ConsoleProjection(render, event), NetworkProjection(event);
    if console.Some? {
      PushLimitedPushes(record.console, console.value);
    }
    if network.Some? {
      PushLimitedPushes(record.network, network.value);
    }
  }

  /** Main result on recording: an event fails to record exactly if it opens a chooser that it does not
      describe, and otherwise leaves the record that follows from its fields. */
  lemma RecordExactly(render: Renderer, record: Record, event: Value)
    requires |record.console| <= 300 && |record.network| <= 300
    ensures var after := Recorded(render, record, event);
      && (after.None? <==> OpensChooser(event) && forall c :: !Describes(event, c))
      && (after.Some? ==> Follows(render, record, event, after.value))
  {
    var after := Recorded(render, record, event);
    MethodAt(event, "Page.fileChooserOpened");
    forall c ensures OpenedChooser(event) == Ok(c) <==> Describes(event, c)
      ensures Invalidates(event, c) <==> LeavesFrame(event, c)
    {
      ChooserExactly(event, c);
      InvalidatesExactly(event, c);
    }
    assert OpenedChooser(event).Ok? ==> Describes(event, OpenedChooser(event).value);
    if after.Some? {
      RecordLogsFollow(render, record, event, after.value);
      forall item ensures ConsoleProjection(render, event) == Some(item) <==> AddsConsole(render, event, item)
        ensures NetworkProjection(event) == Some(item) <==> AddsNetwork(event, item)
      {
        ConsoleExactly(render, event, item);
        NetworkExactly(event, item);
      }
    }
  }

  /** An open event that identifies no chooser. */
  ghost predicate Undescribed(event: Value) {
    OpensChooser(event) && forall c :: !Describes(event, c)
  }

  lemma DecodesExactly(event: Value)
    ensures Decodes(event) <==> !Undescribed(event)
  {
    MethodAt(event, "Page.fileChooserOpened");
    forall c ensures OpenedChooser(event) == Ok(c) <==> Describes(event, c) {
      ChooserExactly(event, c);
    }
    assert OpenedChooser(event).Ok? ==> Describes(event, OpenedChooser(event).value);
  }

  /** Main result on collecting: where the drain fails, all events stay queued and none is recorded; where it
      does not, none stays queued, those before the first undescribed chooser are recorded in order, and the
      collection succeeds exactly if there is none such. */
  lemma CollectedExactly(s: Session, budget: nat)
    ensures var Outcome(after, drained), collected := Drain(s, budget), Collected(s, budget);
      var recorded := |collected.added|;
      if drained.Err? then collected.session == after && recorded == 0 && collected.result == Err(TabError.Session(drained.error))
      else
        && collected.session == after.(pending := []) && recorded <= |after.pending|
        && (forall i :: 0 <= i < recorded ==> collected.added[i] == Event(after.pending[i]) && !Undescribed(after.pending[i]))
        && (collected.result.Ok? <==> recorded == |after.pending|)
        && (recorded < |after.pending| ==> Undescribed(after.pending[recorded]))
  {
    var queued := Drain(s, budget).session.pending;
    var n := Decodable(queued);
    forall i | 0 <= i < |queued| ensures Decodes(queued[i]) <==> !Undescribed(queued[i]) {
      DecodesExactly(queued[i]);
    }
    assert |Events(queued[..n])| == n;
  }
}
