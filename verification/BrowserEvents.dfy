/** What each DevTools event means to a tab: log items, and the file chooser lifecycle. */
module BrowserEvents {
  import opened Wrappers
  import opened Json

  const LOG_LIMIT := 300

  datatype Chooser = Chooser(backendNodeId: int, frameId: string, multiple: bool)

  datatype ChooserError = MissingBackendNodeId | MissingFrameId | InvalidMode

  function Method(event: Value): Option<string> {
    AsString(Get(event, "method"))
  }

  /** `from_event`: the chooser an open event identifies. */
  function OpenedChooser(event: Value): Result<Chooser, ChooserError> {
    match AsI64(Pointer(event, ["params", "backendNodeId"]))
    case None => Err(MissingBackendNodeId)
    case Some(node) =>
      match AsString(Pointer(event, ["params", "frameId"]))
      case None => Err(MissingFrameId)
      case Some(frame) =>
        var mode := AsString(Pointer(event, ["params", "mode"]));
        if mode == Some("selectSingle") then Ok(Chooser(node, frame, false))
        else if mode == Some("selectMultiple") then Ok(Chooser(node, frame, true))
        else Err(InvalidMode)
  }

  /** Navigation of the top frame, or navigation or detachment of the chooser's own frame. */
  predicate Invalidates(event: Value, chooser: Chooser) {
    match Method(event)
    case None => false
    case Some(name) =>
      if name == "Page.frameNavigated" then
        match Pointer(event, ["params", "frame"])
        case None => false
        case Some(frame) => Get(frame, "parentId").None? || AsString(Get(frame, "id")) == Some(chooser.frameId)
      else name == "Page.frameDetached" && AsString(Pointer(event, ["params", "frameId"])) == Some(chooser.frameId)
  }

  // ----- Log items -----

  function Or(v: Option<Value>, default: Value): Value {
    if v.Some? then v.value else default
  }

  function OrText(v: Option<string>, default: string): string {
    if v.Some? then v.value else default
  }

  function NormalizeLevel(level: string): string {
    if level == "error" then "error"
    else if level == "warning" || level == "warn" then "warning"
    else if level == "debug" || level == "verbose" then "debug"
    else "info"
  }

  function ConsoleItem(level: string, message: string): Value {
    Object(map["level" := String(NormalizeLevel(level)), "message" := String(message)])
  }

  /** The text of a value that is not a string, as the JSON printer writes it. */
  type Renderer = Value -> string

  function ArgumentText(render: Renderer, arg: Value): string {
    match Get(arg, "value")
    case Some(String(text)) => text
    case Some(other) => render(other)
    case None => OrText(AsString(Get(arg, "description")), "")
  }

  function ArgumentsText(render: Renderer, args: seq<Value>): string {
    if args == [] then ""
    else if |args| == 1 then ArgumentText(render, args[0])
    else ArgumentText(render, args[0]) + " " + ArgumentsText(render, args[1..])
  }

  /** The console item an event adds, if it adds one. */
  function ConsoleProjection(render: Renderer, event: Value): Option<Value> {
    if Method(event) == Some("Runtime.consoleAPICalled") then
      match Get(event, "params")
      case None => None
      case Some(params) =>
        var args := Get(params, "args");
        Some(ConsoleItem(OrText(AsString(Get(params, "type")), "info"),
                         if args.Some? && args.value.Array? then ArgumentsText(render, args.value.items) else ""))
    else if Method(event) == Some("Log.entryAdded") then
      match Pointer(event, ["params", "entry"])
      case None => None
      case Some(entry) =>
        Some(ConsoleItem(OrText(AsString(Get(entry, "level")), "info"), OrText(AsString(Get(entry, "text")), "")))
    else None
  }

  /** The network item an event adds, if it adds one. */
  function NetworkProjection(event: Value): Option<Value> {
    if Method(event) == Some("Network.requestWillBeSent") then
      match Pointer(event, ["params", "request"])
      case None => None
      case Some(request) =>
        Some(Object(map[
          "requestId" := Or(Pointer(event, ["params", "requestId"]), Null),
          "url" := Or(Get(request, "url"), String("")),
          "method" := Or(Get(request, "method"), String("")),
          "resourceType" := Or(Pointer(event, ["params", "type"]), String(""))]))
    else None
  }

  // ----- The meaning of a history -----

  /** What a tab has lived through: events it recorded, and uploads it completed. */
  datatype Happening = Event(value: Value) | Uploaded

  /** The event opens `chooser`. */
  predicate Opens(h: Happening, chooser: Chooser) {
    h.Event? && Method(h.value) == Some("Page.fileChooserOpened") && OpenedChooser(h.value) == Ok(chooser)
  }

  /** The happening ends the life of `chooser`. */
  predicate Ends(h: Happening, chooser: Chooser) {
    match h
    case Uploaded => true
    case Event(v) => Method(v) == Some("Page.fileChooserOpened") || Invalidates(v, chooser)
  }

  ghost predicate OpenedAt(history: seq<Happening>, chooser: Chooser, i: nat) {
    && i < |history| && Opens(history[i], chooser)
    && forall j :: i < j < |history| ==> !Ends(history[j], chooser)
  }

  /** The latest open event opened `chooser`, and nothing since has ended it. */
  ghost predicate Active(history: seq<Happening>, chooser: Chooser) {
    exists i: nat :: OpenedAt(history, chooser, i)
  }

  datatype Log = Console | Network

  function Project(log: Log, render: Renderer, event: Value): Option<Value> {
    match log
    case Console => ConsoleProjection(render, event)
    case Network => NetworkProjection(event)
  }

  /** The item a happening adds to a log. */
  function ItemOf(log: Log, render: Renderer, h: Happening): seq<Value> {
    match h
    case Uploaded => []
    case Event(v) => if Project(log, render, v).Some? then [Project(log, render, v).value] else []
  }

  /** Every item of a history, newest first. */
  function Items(log: Log, render: Renderer, history: seq<Happening>): seq<Value> {
    if history == [] then []
    else
      var last := |history| - 1;
      ItemOf(log, render, history[last]) + Items(log, render, history[..last])
  }

  function Newest(items: seq<Value>): seq<Value> {
    if |items| <= LOG_LIMIT then items else items[..LOG_LIMIT]
  }

  /** The state of a tab's logs and chooser. */
  datatype Record = Record(console: seq<Value>, network: seq<Value>, chooser: Option<Chooser>)

  /** A record is what its history says: the newest items of each log, and the active chooser. */
  ghost predicate Reflects(render: Renderer, history: seq<Happening>, record: Record) {
    && record.console == Newest(Items(Console, render, history))
    && record.network == Newest(Items(Network, render, history))
    && (forall c :: record.chooser == Some(c) <==> Active(history, c))
  }
}
