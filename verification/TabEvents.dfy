/** A tab: its DevTools session, its bounded logs and its file chooser. */
module TabEvents {
  import opened Wrappers
  import opened Json
  import opened Cdp
  import opened BrowserEvents
  import opened Sequences

  datatype TabError =
    | Session(error: CdpError)
    | BadChooser(reason: ChooserError)
    | NoChooser
    | MultipleFiles
    | BadPath(path: string)
    | NoAttributes
    | DirectoryChooser
    | Unresolved
    | CancelFailed

  /** `push_limited`: insert in front, then truncate. */
  function PushLimited(items: seq<Value>, item: Value): seq<Value> {
    Newest([item] + items)
  }

  /** The record after an event, or None when a chooser event does not decode. */
  function Recorded(render: Renderer, record: Record, event: Value): Option<Record> {
    match Method(event)
    case None => Some(record)
    case Some(name) =>
      if name == "Runtime.consoleAPICalled" || name == "Log.entryAdded" then
        var item := ConsoleProjection(render, event);
        Some(if item.Some? then record.(console := PushLimited(record.console, item.value)) else record)
      else if name == "Network.requestWillBeSent" then
        var item := NetworkProjection(event);
        Some(if item.Some? then record.(network := PushLimited(record.network, item.value)) else record)
      else if name == "Page.fileChooserOpened" then
        match OpenedChooser(event) {
          case Ok(chooser) => Some(record.(chooser := Some(chooser)))
          case Err(_) => None
        }
      else if name == "Page.frameNavigated" || name == "Page.frameDetached" then
        Some(if record.chooser.Some? && Invalidates(event, record.chooser.value) then record.(chooser := None) else record)
      else Some(record)
  }

  // ----- Recording keeps the record equal to its history -----

  lemma NewestPush(items: seq<Value>, item: Value)
    ensures PushLimited(Newest(items), item) == Newest([item] + items)
  {
    if |items| > LOG_LIMIT {
      assert ([item] + items[..LOG_LIMIT])[..LOG_LIMIT] == ([item] + items)[..LOG_LIMIT];
    }
  }

  lemma ItemsSnoc(log: Log, render: Renderer, history: seq<Happening>, h: Happening)
    ensures Items(log, render, history + [h]) == ItemOf(log, render, h) + Items(log, render, history)
  {
    assert (history + [h])[..|history|] == history;
  }

  /** A happening that does not end a chooser leaves it active; one that ends it leaves only the
      chooser it opens itself. */
  lemma ActiveSnoc(history: seq<Happening>, h: Happening, c: Chooser)
    ensures Active(history + [h], c) <==> Opens(h, c) || (Active(history, c) && !Ends(h, c))
  {
    var longer := history + [h];
    if Opens(h, c) {
      assert OpenedAt(longer, c, |history|);
    }
    if Active(history, c) && !Ends(h, c) {
      var i: nat :| OpenedAt(history, c, i);
      assert OpenedAt(longer, c, i);
    }
    if Active(longer, c) && !Opens(h, c) {
      var i: nat :| OpenedAt(longer, c, i);
      assert !Ends(longer[|history|], c);
      forall j | i < j < |history| ensures !Ends(history[j], c) {
        assert longer[j] == history[j];
      }
      assert OpenedAt(history, c, i);
    }
  }

  lemma ReflectsLogs(render: Renderer, history: seq<Happening>, record: Record, h: Happening, console: seq<Value>, network: seq<Value>)
    requires Reflects(render, history, record)
    requires console == Newest(ItemOf(Console, render, h) + record.console)
    requires network == Newest(ItemOf(Network, render, h) + record.network)
    ensures console == Newest(Items(Console, render, history + [h]))
    ensures network == Newest(Items(Network, render, history + [h]))
  {
    ItemsSnoc(Console, render, history, h);
    ItemsSnoc(Network, render, history, h);
    NewestOf(ItemOf(Console, render, h), Items(Console, render, history));
    NewestOf(ItemOf(Network, render, h), Items(Network, render, history));
  }

  lemma NewestOf(front: seq<Value>, items: seq<Value>)
    requires |front| <= 1
    ensures Newest(front + Newest(items)) == Newest(front + items)
  {
    if front == [] {
      assert front + Newest(items) == Newest(items) && front + items == items;
    } else {
      assert front == [front[0]];
      NewestPush(items, front[0]);
    }
  }

  /** Main step: an event that records keeps the record equal to the longer history. */
  lemma RecordReflects(render: Renderer, history: seq<Happening>, record: Record, event: Value)
    requires Reflects(render, history, record)
    requires Recorded(render, record, event).Some?
    ensures Reflects(render, history + [Event(event)], Recorded(render, record, event).value)
  {
    var h, after := Event(event), Recorded(render, record, event).value;
    forall c ensures Active(history + [h], c) <==> Opens(h, c) || (Active(history, c) && !Ends(h, c)) {
      ActiveSnoc(history, h, c);
    }
    RecordLogs(render, record, event);
    ReflectsLogs(render, history, record, h, after.console, after.network);
    RecordChooser(render, record, event);
  }

  lemma RecordLogs(render: Renderer, record: Record, event: Value)
    requires |record.console| <= LOG_LIMIT && |record.network| <= LOG_LIMIT
    requires Recorded(render, record, event).Some?
    ensures var after := Recorded(render, record, event).value;
      && after.console == Newest(ItemOf(Console, render, Event(event)) + record.console)
      && after.network == Newest(ItemOf(Network, render, Event(event)) + record.network)
  {
    assert [] + record.console == record.console && [] + record.network == record.network;
  }

  lemma RecordChooser(render: Renderer, record: Record, event: Value)
    requires Recorded(render, record, event).Some?
    ensures forall c :: Recorded(render, record, event).value.chooser == Some(c) <==>
      Opens(Event(event), c) || (record.chooser == Some(c) && !Ends(Event(event), c))
  {}

  /** A completed upload ends the chooser, whichever it is. */
  lemma UploadReflects(render: Renderer, history: seq<Happening>, record: Record)
    requires Reflects(render, history, record)
    ensures Reflects(render, history + [Uploaded], record.(chooser := None))
  {
    forall c ensures !Active(history + [Uploaded], c) {
      ActiveSnoc(history, Uploaded, c);
    }
    assert [] + record.console == record.console && [] + record.network == record.network;
    ReflectsLogs(render, history, record, Uploaded, record.console, record.network);
  }

  /** The history determines the record, however its events were batched. */
  lemma RecordDetermined(render: Renderer, history: seq<Happening>, a: Record, b: Record)
    requires Reflects(render, history, a) && Reflects(render, history, b)
    ensures a == b
  {
    if a.chooser.Some? {
      assert Active(history, a.chooser.value);
    }
    if b.chooser.Some? {
      assert Active(history, b.chooser.value);
    }
  }

  const EMPTY := Record([], [], None)

  lemma EmptyReflects(render: Renderer)
    ensures Reflects(render, [], EMPTY)
  {}

  lemma RecordedDecodes(render: Renderer, record: Record, event: Value)
    ensures Recorded(render, record, event).Some? <==> Decodes(event)
  {}

  /** The record after some happenings. */
  function After(render: Renderer, record: Record, added: seq<Happening>): Record {
    if added == [] then record
    else
      var last := |added| - 1;
      Next(render, After(render, record, added[..last]), added[last])
  }

  function Next(render: Renderer, record: Record, h: Happening): Record {
    match h
    case Uploaded => record.(chooser := None)
    case Event(v) => var after := Recorded(render, record, v); if after.Some? then after.value else record
  }

  lemma NextReflects(render: Renderer, history: seq<Happening>, record: Record, h: Happening)
    requires Reflects(render, history, record) && (h.Event? ==> Decodes(h.value))
    ensures Reflects(render, history + [h], Next(render, record, h))
  {
    match h
    case Uploaded => UploadReflects(render, history, record);
    case Event(v) => RecordReflects(render, history, record, v);
  }

  predicate AllDecode(added: seq<Happening>) {
    forall i :: 0 <= i < |added| ==> added[i].Event? ==> Decodes(added[i].value)
  }

  /** Main result on a tab's state: it equals its history, whatever the history. */
  lemma {:induction false} AfterReflects(render: Renderer, history: seq<Happening>, record: Record, added: seq<Happening>)
    requires Reflects(render, history, record) && AllDecode(added)
    ensures Reflects(render, history + added, After(render, record, added))
  {
    if added == [] {
      assert history + added == history;
    } else {
      var last := |added| - 1;
      var front, h := added[..last], added[last];
      assert added == front + [h];
      Assoc(history, front, [h]);
      assert AllDecode(front) && (h.Event? ==> Decodes(h.value));
      AfterReflects(render, history, record, front);
      NextReflects(render, history + front, After(render, record, front), h);
    }
  }

  lemma AfterConcat(render: Renderer, record: Record, a: seq<Happening>, b: seq<Happening>)
    ensures After(render, record, a + b) == After(render, After(render, record, a), b)
  {
    if b == [] {
      assert a + b == a;
    } else {
      var last := |b| - 1;
      assert (a + b)[..|a + b| - 1] == a + b[..last];
      AfterConcat(render, record, a, b[..last]);
    }
  }

  lemma AfterUpload(render: Renderer, record: Record, first: seq<Happening>, later: seq<Happening>)
    ensures After(render, record, first + [Uploaded] + later)
      == After(render, After(render, record, first).(chooser := None), later)
  {
    AfterConcat(render, record, first + [Uploaded], later);
    assert (first + [Uploaded])[..|first|] == first;
  }

  // ----- Collecting -----

  /** A chooser event that does not decode is the only event that fails to record. */
  predicate Decodes(event: Value) {
    Method(event) == Some("Page.fileChooserOpened") ==> OpenedChooser(event).Ok?
  }

  /** How many events are recorded before the first that fails to. */
  function Decodable(events: seq<Value>): (n: nat)
    ensures n <= |events|
    ensures forall i :: 0 <= i < n ==> Decodes(events[i])
    ensures n < |events| ==> !Decodes(events[n])
  {
    if events == [] || !Decodes(events[0]) then 0 else 1 + Decodable(events[1..])
  }

  function Events(values: seq<Value>): seq<Happening> {
    seq(|values|, i requires 0 <= i < |values| => Event(values[i]))
  }

  /** What an operation does: the session it leaves, the happenings it adds and its result. */
  datatype TabOutcome = TabOutcome(session: Session, added: seq<Happening>, result: Result<(), TabError>)

  /** A drain that fails leaves its events queued. Events after one that fails to record are lost. */
  function Collected(s: Session, budget: nat): TabOutcome {
    var Outcome(after, drained) := Drain(s, budget);
    match drained
    case Err(error) => TabOutcome(after, [], Err(TabError.Session(error)))
    case Ok(_) =>
      var n := Decodable(after.pending);
      TabOutcome(after.(pending := []), Events(after.pending[..n]),
                 if n == |after.pending| then Ok(()) else Err(BadChooser(OpenedChooser(after.pending[n]).error)))
  }

  // ----- Uploading -----

  datatype PathCheck = RelativePath | Unreadable | NotAFile | RegularFile

  /** The first path that is not an absolute path of a regular file. */
  function FirstBadPath(check: string -> PathCheck, paths: seq<string>): (n: nat)
    ensures n <= |paths|
    ensures forall i :: 0 <= i < n ==> check(paths[i]).RegularFile?
    ensures n < |paths| ==> !check(paths[n]).RegularFile?
  {
    if paths == [] || !check(paths[0]).RegularFile? then 0 else 1 + FirstBadPath(check, paths[1..])
  }

  /** Attributes come as a flat list of names and values. */
  predicate HasDirectoryAttribute(attributes: seq<Value>) {
    exists i :: 0 <= i < |attributes| && i % 2 == 0 && attributes[i] == String("webkitdirectory")
  }

  datatype Applied = Applied(session: Session, result: Result<(), TabError>)

  function Lift<T>(o: Outcome<T>): Applied {
    Applied(o.session, match o.result case Ok(_) => Ok(()) case Err(e) => Err(TabError.Session(e)))
  }

  /** The parameters that name the chooser's node. */
  function NodeParams(chooser: Chooser): Value {
    Object(map["backendNodeId" := Integer(chooser.backendNodeId)])
  }

  function FilesParams(chooser: Chooser, paths: seq<string>): Value {
    Object(map["files" := Array(seq(|paths|, i requires 0 <= i < |paths| => String(paths[i]))),
               "backendNodeId" := Integer(chooser.backendNodeId)])
  }

  const CANCEL_FUNCTION := "function() { this.dispatchEvent(new Event('cancel', { bubbles: true })); }"

  function CallParams(objectId: string): Value {
    Object(map["objectId" := String(objectId), "functionDeclaration" := String(CANCEL_FUNCTION)])
  }

  function ReleaseParams(objectId: string): Value {
    Object(map["objectId" := String(objectId)])
  }

  function SelectFiles(s: Session, chooser: Chooser, paths: seq<string>, check: string -> PathCheck): Applied {
    if !chooser.multiple && |paths| > 1 then Applied(s, Err(MultipleFiles))
    else
      var bad := FirstBadPath(check, paths);
      if bad < |paths| then Applied(s, Err(BadPath(paths[bad])))
      else
        var described := Command(s, "DOM.describeNode", NodeParams(chooser));
        if described.result.Err? then Lift(described)
        else
          match Pointer(described.result.value, ["node", "attributes"])
          case Some(Array(attributes)) =>
            if HasDirectoryAttribute(attributes) then Applied(described.session, Err(DirectoryChooser))
            else Lift(Command(described.session, "DOM.setFileInputFiles", FilesParams(chooser, paths)))
          case _ => Applied(described.session, Err(NoAttributes))
  }

  function Cancel(s: Session, chooser: Chooser): Applied {
    var resolved := Command(s, "DOM.resolveNode", NodeParams(chooser));
    if resolved.result.Err? then Lift(resolved)
    else if AsString(Pointer(resolved.result.value, ["object", "objectId"])).None? then Applied(resolved.session, Err(Unresolved))
    else
      var objectId := AsString(Pointer(resolved.result.value, ["object", "objectId"])).value;
      var called := Command(resolved.session, "Runtime.callFunctionOn", CallParams(objectId));
      if called.result.Err? then Lift(called)
      else
        var released := Command(called.session, "Runtime.releaseObject", ReleaseParams(objectId));
        if released.result.Err? then Lift(released)
        else if Get(called.result.value, "exceptionDetails").Some? then Applied(released.session, Err(CancelFailed))
        else Applied(released.session, Ok(()))
  }

  function Apply(s: Session, chooser: Chooser, paths: Option<seq<string>>, check: string -> PathCheck): Applied {
    match paths
    case Some(files) => SelectFiles(s, chooser, files, check)
    case None => Cancel(s, chooser)
  }

  /** The request of one upload: its files or a cancellation, and the two drain deadlines. */
  datatype Upload = Upload(paths: Option<seq<string>>, check: string -> PathCheck, first: nat, second: nat)

  function Uploading(render: Renderer, s: Session, record: Record, request: Upload): TabOutcome {
    var before := Collected(s, request.first);
    var chooser := After(render, record, before.added).chooser;
    if before.result.Err? then before
    else if chooser.None? then before.(result := Err(NoChooser))
    else
      var applied := Apply(before.session, chooser.value, request.paths, request.check);
      if applied.result.Err? then before.(session := applied.session, result := applied.result)
      else
        var after := Collected(applied.session, request.second);
        TabOutcome(after.session, before.added + [Uploaded] + after.added, after.result)
  }

  lemma AfterNext(render: Renderer, record: Record, events: seq<Value>, i: nat)
    requires i < |events|
    ensures After(render, record, Events(events[..i + 1])) == Next(render, After(render, record, Events(events[..i])), Event(events[i]))
  {
    assert Events(events[..i + 1])[..i] == Events(events[..i]);
  }

  class TabState {
    const render: Renderer
    const session: CdpSession
    var consoleMessages: seq<Value>
    var networkRequests: seq<Value>
    var fileChooser: Option<Chooser>

    constructor (render: Renderer, session: CdpSession)
      ensures CurrentRecord() == EMPTY && this.render == render && this.session == session
    {
      this.render, this.session := render, session;
      consoleMessages, networkRequests, fileChooser := [], [], None;
    }

    function CurrentRecord(): Record
      reads this
    {
      Record(consoleMessages, networkRequests, fileChooser)
    }

    method RecordEvent(event: Value) returns (result: Result<(), TabError>)
      modifies this
      ensures var after := Recorded(render, old(CurrentRecord()), event);
        && CurrentRecord() == (if after.Some? then after.value else old(CurrentRecord()))
        && (after.Some? ==> result == Ok(()))
        && (after.None? ==> OpenedChooser(event).Err? && result == Err(BadChooser(OpenedChooser(event).error)))
    {
      var name := Method(event);
      if name == Some("Runtime.consoleAPICalled") || name == Some("Log.entryAdded") {
        var item := ConsoleProjection(render, event);
        if item.Some? {
          consoleMessages := PushLimited(consoleMessages, item.value);
        }
      } else if name == Some("Network.requestWillBeSent") {
        var item := NetworkProjection(event);
        if item.Some? {
          networkRequests := PushLimited(networkRequests, item.value);
        }
      } else if name == Some("Page.fileChooserOpened") {
        var chooser := OpenedChooser(event);
        if chooser.Err? {
          return Err(BadChooser(chooser.error));
        }
        fileChooser := Some(chooser.value);
      } else if name == Some("Page.frameNavigated") || name == Some("Page.frameDetached") {
        if fileChooser.Some? && Invalidates(event, fileChooser.value) {
          fileChooser := None;
        }
      }
      return Ok(());
    }

    method RecordAll(events: seq<Value>) returns (result: Result<(), TabError>)
      modifies this
      ensures var n := Decodable(events);
        && CurrentRecord() == After(render, old(CurrentRecord()), Events(events[..n]))
        && result == if n == |events| then Ok(()) else Err(BadChooser(OpenedChooser(events[n]).error))
    {
      for i := 0 to |events|
        invariant CurrentRecord() == After(render, old(CurrentRecord()), Events(events[..i]))
        invariant i <= Decodable(events)
      {
        ghost var before := CurrentRecord();
        result := RecordEvent(events[i]);
        RecordedDecodes(render, before, events[i]);
        if result.Err? {
          return;
        }
        AfterNext(render, old(CurrentRecord()), events, i);
      }
      return Ok(());
    }

    method CollectEvents(budget: nat) returns (result: Result<(), TabError>)
      modifies this, session
      ensures var outcome := Collected(old(session.State()), budget);
        && session.State() == outcome.session && result == outcome.result
        && CurrentRecord() == After(render, old(CurrentRecord()), outcome.added)
    {
      var drained := session.DrainEvents(budget);
      if drained.Err? {
        return Err(TabError.Session(drained.error));
      }
      var events := session.TakeEvents();
      result := RecordAll(events);
    }

    /** Commits the chooser's pending operation: a file selection, or a cancellation. */
    method ApplyChooser(chooser: Chooser, paths: Option<seq<string>>, check: string -> PathCheck)
      returns (result: Result<(), TabError>)
      modifies session
      ensures Applied(session.State(), result) == Apply(old(session.State()), chooser, paths, check)
    {
      match paths {
        case Some(files) => result := ApplySelection(chooser, files, check);
        case None => result := ApplyCancel(chooser);
      }
    }

    method ApplySelection(chooser: Chooser, paths: seq<string>, check: string -> PathCheck)
      returns (result: Result<(), TabError>)
      modifies session
      ensures Applied(session.State(), result) == SelectFiles(old(session.State()), chooser, paths, check)
    {
      if !chooser.multiple && |paths| > 1 {
        return Err(MultipleFiles);
      }
      for i := 0 to |paths|
        invariant i <= FirstBadPath(check, paths)
      {
        if !check(paths[i]).RegularFile? {
          return Err(BadPath(paths[i]));
        }
      }
      var node := session.RunCommand("DOM.describeNode", NodeParams(chooser));
      if node.Err? {
        return Err(TabError.Session(node.error));
      }
      var attributes := Pointer(node.value, ["node", "attributes"]);
      if attributes.None? || !attributes.value.Array? {
        return Err(NoAttributes);
      }
      var items := attributes.value.items;
      if exists i :: 0 <= i < |items| && i % 2 == 0 && items[i] == String("webkitdirectory") {
        return Err(DirectoryChooser);
      }
      var committed := session.RunCommand("DOM.setFileInputFiles", FilesParams(chooser, paths));
      return match committed case Ok(_) => Ok(()) case Err(error) => Err(TabError.Session(error));
    }

    method ApplyCancel(chooser: Chooser) returns (result: Result<(), TabError>)
      modifies session
      ensures Applied(session.State(), result) == Cancel(old(session.State()), chooser)
    {
      var node := session.RunCommand("DOM.resolveNode", NodeParams(chooser));
      if node.Err? {
        return Err(TabError.Session(node.error));
      }
      var objectId := AsString(Pointer(node.value, ["object", "objectId"]));
      if objectId.None? {
        return Err(Unresolved);
      }
      var called := session.RunCommand("Runtime.callFunctionOn", CallParams(objectId.value));
      if called.Err? {
        return Err(TabError.Session(called.error));
      }
      var released := session.RunCommand("Runtime.releaseObject", ReleaseParams(objectId.value));
      if released.Err? {
        return Err(TabError.Session(released.error));
      }
      return if Get(called.value, "exceptionDetails").Some? then Err(CancelFailed) else Ok(());
    }

    method FileUpload(request: Upload) returns (result: Result<(), TabError>)
      modifies this, session
      ensures var outcome := Uploading(render, old(session.State()), old(CurrentRecord()), request);
        && session.State() == outcome.session && result == outcome.result
        && CurrentRecord() == After(render, old(CurrentRecord()), outcome.added)
    {
      ghost var start, record := session.State(), CurrentRecord();
      result := CollectEvents(request.first);
      if result.Err? {
        return;
      }
      if fileChooser.None? {
        result := Err(NoChooser);
        return;
      }
      result := ApplyChooser(fileChooser.value, request.paths, request.check);
      if result.Err? {
        return;
      }
      ghost var first, applied := Collected(start, request.first).added, session.State();
      AfterUpload(render, record, first, Collected(applied, request.second).added);
      fileChooser := None;
      result := CollectEvents(request.second);
    }
  }

  // ----- What an upload leaves -----

  /** After a completed upload only a chooser opened since is active. */
  lemma ActiveAfterUpload(history: seq<Happening>, later: seq<Happening>, c: Chooser)
    ensures Active(history + [Uploaded] + later, c) <==> Active(later, c)
  {
    var whole := history + [Uploaded] + later;
    var base := |history| + 1;
    if Active(whole, c) {
      var i: nat :| OpenedAt(whole, c, i);
      assert whole[|history|] == Uploaded;
      forall j | i - base < j < |later| ensures !Ends(later[j], c) {
        assert whole[base + j] == later[j];
      }
      assert OpenedAt(later, c, i - base);
    }
    if Active(later, c) {
      var i: nat :| OpenedAt(later, c, i);
      forall j | base + i < j < |whole| ensures !Ends(whole[j], c) {
        assert whole[j] == later[j - base];
      }
      assert OpenedAt(whole, c, base + i);
    }
  }

  /** The session in which the chooser's operation was committed, or None where the call fails first. */
  function Committed(render: Renderer, s: Session, record: Record, request: Upload): Option<Session> {
    var first := Collected(s, request.first);
    var chooser := After(render, record, first.added).chooser;
    if first.result.Err? || chooser.None? then None
    else
      var applied := Apply(first.session, chooser.value, request.paths, request.check);
      if applied.result.Ok? then Some(applied.session) else None
  }

  /** What an upload adds: the first collection, and after a commit the reset and the second. */
  lemma UploadAdds(render: Renderer, s: Session, record: Record, request: Upload)
    ensures var first, committed := Collected(s, request.first).added, Committed(render, s, record, request);
      Uploading(render, s, record, request).added ==
        if committed.None? then first else first + [Uploaded] + Collected(committed.value, request.second).added
  {}

  /** Main result on uploads: a failed one leaves the chooser as the first collection left it, and
      a completed one leaves exactly the chooser that events queued during it opened. */
  lemma UploadLeaves(render: Renderer, history: seq<Happening>, s: Session, record: Record, request: Upload, c: Chooser)
    ensures var added, committed := Uploading(render, s, record, request).added, Committed(render, s, record, request);
      Active(history + added, c) <==>
        if committed.None? then Active(history + Collected(s, request.first).added, c)
        else Active(Collected(committed.value, request.second).added, c)
  {
    UploadAdds(render, s, record, request);
    var first, committed := Collected(s, request.first).added, Committed(render, s, record, request);
    if committed.Some? {
      var later := Collected(committed.value, request.second).added;
      ActiveAfterUpload(history + first, later, c);
      assert history + (first + [Uploaded] + later) == history + first + [Uploaded] + later;
    }
  }

  // ----- Runs of a tab -----

  /** What a tool call does to its tab: collect, upload, or send one command. */
  datatype TabOperation = Collect(budget: nat) | FileUpload(request: Upload) | OneCommand(name: string, params: Value)

  /** The session, the record and everything that happened. */
  datatype TabRun = TabRun(session: Session, record: Record, history: seq<Happening>)

  function Performed(render: Renderer, run: TabRun, operation: TabOperation): TabOutcome {
    match operation
    case Collect(budget) => Collected(run.session, budget)
    case FileUpload(request) => Uploading(render, run.session, run.record, request)
    case OneCommand(name, params) => TabOutcome(Command(run.session, name, params).session, [], Ok(()))
  }

  lemma CollectedDecodes(s: Session, budget: nat)
    ensures AllDecode(Collected(s, budget).added)
  {}

  lemma PerformedDecodes(render: Renderer, run: TabRun, operation: TabOperation)
    ensures AllDecode(Performed(render, run, operation).added)
  {
    match operation
    case Collect(budget) => CollectedDecodes(run.session, budget);
    case FileUpload(request) =>
      UploadAdds(render, run.session, run.record, request);
      CollectedDecodes(run.session, request.first);
      var committed := Committed(render, run.session, run.record, request);
      if committed.Some? {
        CollectedDecodes(committed.value, request.second);
      }
    case OneCommand(name, params) =>
  }

  function TabStep(render: Renderer, run: TabRun, operation: TabOperation): TabRun {
    var outcome := Performed(render, run, operation);
    TabRun(outcome.session, After(render, run.record, outcome.added), run.history + outcome.added)
  }

  function RunTab(render: Renderer, s: Session, operations: seq<TabOperation>): TabRun {
    if operations == [] then TabRun(s, EMPTY, [])
    else TabStep(render, RunTab(render, s, operations[..|operations| - 1]), operations[|operations| - 1])
  }

  /** Main result: after every run, failing calls included, the logs are the newest items of the
      history and the chooser is the one the history leaves active. */
  lemma {:induction false} TabRunReflects(render: Renderer, s: Session, operations: seq<TabOperation>)
    ensures var run := RunTab(render, s, operations); Reflects(render, run.history, run.record)
  {
    if operations == [] {
      EmptyReflects(render);
    } else {
      var last := |operations| - 1;
      TabRunReflects(render, s, operations[..last]);
      var run := RunTab(render, s, operations[..last]);
      PerformedDecodes(render, run, operations[last]);
      AfterReflects(render, run.history, run.record, Performed(render, run, operations[last]).added);
    }
  }
}
