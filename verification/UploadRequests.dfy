/** What a file upload asks of the browser, and when it succeeds: told from the paths, the chooser and
    the replies alone. */
module UploadRequests {
  import opened Wrappers
  import opened Json
  import opened Cdp
  import opened CdpResults
  import opened BrowserEvents
  import opened TabEvents
  import opened Sequences

  /** Command number `n` of a session goes out and is answered: of the frames from position `from` on, the
      first that is not passed over is `reply`, at position `k`, without an error. */
  ghost predicate Answered(s: Session, n: nat, from: nat, k: nat, reply: Value) {
    && (n < |s.sends| ==> s.sends[n])
    && from <= k < |s.incoming| && s.incoming[k] == Text(Some(reply)) && Carries(reply, s.nextId + n)
    && (forall j :: from <= j < k ==> PassedOver(s.incoming[j], s.nextId + n))
    && "error" !in reply.fields
  }

  /** The session in which `n` commands have been answered and `from` frames read, with these requests. */
  ghost predicate Stands(s: Session, after: Session, n: nat, from: nat, requests: seq<Request>) {
    && from <= |s.incoming| && after.incoming == s.incoming[from..]
    && after.nextId == s.nextId + n && after.requests == s.requests + requests
    && after.sends == if n <= |s.sends| then s.sends[n..] else []
  }

  lemma StandsStart(s: Session)
    ensures Stands(s, s, 0, 0, [])
  {
    assert s.requests + [] == s.requests;
  }

  /** How commands end, as a function value. */
  type Commander = (Session, string, Value) -> Outcome<Value>

  ghost predicate IsCommand(command: Commander) {
    forall s, name, params {:trigger Command(s, name, params)} :: command(s, name, params) == Command(s, name, params)
  }

  /** A command that is answered, with what it leaves. */
  lemma CommandReplied(s: Session, name: string, params: Value, k: nat, reply: Value)
    requires Sends(s) && RepliesAt(s.incoming, s.nextId, k, reply) && "error" !in reply.fields
    ensures var ended := Command(s, name, params);
      && ended.result == Ok(Content(reply)) && ended.session.incoming == s.incoming[k + 1..]
      && ended.session.nextId == s.nextId + 1 && ended.session.requests == s.requests + [Request(s.nextId, name, params)]
      && ended.session.sends == if s.sends == [] then [] else s.sends[1..]
  {
    CommandSends(s, name, params);
    CommandEnds(s, name, params, Content(reply));
    AwaitReplied(Sent(s, name, params), s.nextId, k, reply);
  }

  /** What the frames from `from` on say, a session that starts there says too. */
  lemma AnsweredFrom(s: Session, after: Session, n: nat, from: nat, requests: seq<Request>, k: nat, reply: Value)
    requires Stands(s, after, n, from, requests) && Answered(s, n, from, k, reply)
    ensures Sends(after) && RepliesAt(after.incoming, after.nextId, k - from, reply)
    ensures after.incoming[k - from + 1..] == s.incoming[k + 1..]
    ensures (if after.sends == [] then [] else after.sends[1..]) == if n + 1 <= |s.sends| then s.sends[n + 1..] else []
  {}

  /** One more command: where it is answered, it ends Ok with the reply's content, and the session
      stands one further. */
  lemma CommandAnswered(command: Commander, s: Session, after: Session, n: nat, from: nat, requests: seq<Request>, request: Request, k: nat, reply: Value)
    requires IsCommand(command) && request.id == s.nextId + n
    requires Stands(s, after, n, from, requests) && Answered(s, n, from, k, reply)
    ensures var ended := command(after, request.name, request.params);
      ended.result == Ok(Content(reply)) && Stands(s, ended.session, n + 1, k + 1, requests + [request])
  {
    var name, params := request.name, request.params;
    AnsweredFrom(s, after, n, from, requests, k, reply);
    CommandReplied(after, name, params, k - from, reply);
    assert command(after, name, params) == Command(after, name, params);
    Assoc(s.requests, requests, [request]);
  }

  /** And it ends Ok only where it is answered. */
  lemma OnlyAnswered(command: Commander, s: Session, after: Session, n: nat, from: nat, requests: seq<Request>, request: Request)
    returns (k: nat, reply: Value)
    requires IsCommand(command) && Stands(s, after, n, from, requests)
    requires command(after, request.name, request.params).result.Ok?
    ensures Answered(s, n, from, k, reply)
  {
    var name, params := request.name, request.params;
    assert command(after, name, params) == Command(after, name, params);
    var content := Command(after, name, params).result.value;
    CommandEnds(after, name, params, content);
    var i: nat, found :| RepliesAt(after.incoming, after.nextId, i, found) && "error" !in found.fields && content == Content(found);
    k, reply := from + i, found;
    forall j | from <= j < k ensures PassedOver(s.incoming[j], s.nextId + n) {
      assert PassedOver(after.incoming[j - from], after.nextId);
    }
  }

  /** Two commands in a row, with what they sent. */
  lemma TwoAnswered(command: Commander, s: Session, a: Request, b: Request, k: nat, x: Value, m: nat, y: Value)
    requires IsCommand(command) && a.id == s.nextId && b.id == s.nextId + 1
    requires Answered(s, 0, 0, k, x) && Answered(s, 1, k + 1, m, y)
    ensures var first := command(s, a.name, a.params);
      var second := command(first.session, b.name, b.params);
      && first.result == Ok(Content(x)) && second.result == Ok(Content(y))
      && Stands(s, second.session, 2, m + 1, [a, b])
  {
    var first := command(s, a.name, a.params);
    StandsStart(s);
    CommandAnswered(command, s, s, 0, 0, [], a, k, x);
    CommandAnswered(command, s, first.session, 1, k + 1, [] + [a], b, m, y);
    assert [] + [a] + [b] == [a, b];
  }

  lemma OnlyTwoAnswered(command: Commander, s: Session, a: Request, b: Request) returns (k: nat, x: Value, m: nat, y: Value)
    requires IsCommand(command) && a.id == s.nextId && b.id == s.nextId + 1
    requires command(s, a.name, a.params).result.Ok?
    requires command(command(s, a.name, a.params).session, b.name, b.params).result.Ok?
    ensures Answered(s, 0, 0, k, x) && Answered(s, 1, k + 1, m, y)
  {
    var first := command(s, a.name, a.params);
    StandsStart(s);
    k, x := OnlyAnswered(command, s, s, 0, 0, [], a);
    CommandAnswered(command, s, s, 0, 0, [], a, k, x);
    m, y := OnlyAnswered(command, s, first.session, 1, k + 1, [] + [a], b);
  }

  // ----- File selection -----

  /** The description of a file input that takes files and not directories. */
  predicate TakesFiles(content: Value) {
    && content.Object? && "node" in content.fields && content.fields["node"].Object?
    && "attributes" in content.fields["node"].fields && content.fields["node"].fields["attributes"].Array?
    && forall i :: 0 <= i < |content.fields["node"].fields["attributes"].items| && i % 2 == 0 ==>
         content.fields["node"].fields["attributes"].items[i] != String("webkitdirectory")
  }

  /** As many paths as the chooser takes, all absolute paths of regular files. */
  predicate Acceptable(chooser: Chooser, paths: seq<string>, check: string -> PathCheck) {
    (chooser.multiple || |paths| <= 1) && forall i :: 0 <= i < |paths| ==> check(paths[i]).RegularFile?
  }

  /** The request for a description of the chooser's node. */
  ghost predicate IsDescribe(request: Request, id: int, chooser: Chooser) {
    request == Request(id, "DOM.describeNode", Object(map["backendNodeId" := Integer(chooser.backendNodeId)]))
  }

  /** The request that hands the files to the page. */
  ghost predicate IsAssignment(request: Request, id: int, chooser: Chooser, paths: seq<string>) {
    && request.id == id && request.name == "DOM.setFileInputFiles" && request.params.Object?
    && request.params.fields.Keys == {"backendNodeId", "files"}
    && request.params.fields["backendNodeId"] == Integer(chooser.backendNodeId)
    && request.params.fields["files"].Array? && |request.params.fields["files"].items| == |paths|
    && forall i :: 0 <= i < |paths| ==> request.params.fields["files"].items[i] == String(paths[i])
  }

  /** Two commands are answered, the first with a description of an input that takes files. */
  ghost predicate SelectionAnswered(s: Session, k: nat, described: Value, m: nat, taken: Value) {
    && Answered(s, 0, 0, k, described) && TakesFiles(Content(described))
    && Answered(s, 1, k + 1, m, taken)
  }

  lemma DescribedTakes(content: Value)
    ensures TakesFiles(content) <==>
      Pointer(content, ["node", "attributes"]).Some? && Pointer(content, ["node", "attributes"]).value.Array? &&
      !HasDirectoryAttribute(Pointer(content, ["node", "attributes"]).value.items)
  {
    assert ["node", "attributes"][1..] == ["attributes"] && ["attributes"][1..] == [];
    if content.Object? && "node" in content.fields {
      assert Pointer(content, ["node", "attributes"]) == Pointer(content.fields["node"], ["attributes"]);
    }
  }

  lemma AcceptablePaths(chooser: Chooser, paths: seq<string>, check: string -> PathCheck)
    ensures Acceptable(chooser, paths, check) <==>
      (chooser.multiple || |paths| <= 1) && FirstBadPath(check, paths) == |paths|
  {}

  /** The requests of a selection went out, the file assignment last. */
  ghost predicate SelectionSent(s: Session, after: Session, chooser: Chooser, paths: seq<string>) {
    && |after.requests| == |s.requests| + 2 && after.requests[..|s.requests|] == s.requests
    && IsDescribe(after.requests[|s.requests|], s.nextId, chooser)
    && IsAssignment(after.requests[|s.requests| + 1], s.nextId + 1, chooser, paths)
  }

  ghost predicate SelectionAccepted(s: Session) {
    exists k: nat, described, m: nat, taken :: SelectionAnswered(s, k, described, m, taken)
  }

  lemma SelectionSteps(s: Session, chooser: Chooser, paths: seq<string>, check: string -> PathCheck,
                       first: Outcome<Value>, second: Outcome<Value>)
    requires first == Command(s, "DOM.describeNode", NodeParams(chooser))
    requires second == Command(first.session, "DOM.setFileInputFiles", FilesParams(chooser, paths))
    ensures var applied := SelectFiles(s, chooser, paths, check);
      && (applied.result.Ok? <==>
          Acceptable(chooser, paths, check) && first.result.Ok? && TakesFiles(first.result.value) && second.result.Ok?)
      && (applied.result.Ok? ==> applied.session == second.session)
  {
    AcceptablePaths(chooser, paths, check);
    if first.result.Ok? {
      DescribedTakes(first.result.value);
    }
  }

  lemma AssignmentSent(s: Session, after: Session, chooser: Chooser, paths: seq<string>, from: nat)
    requires Stands(s, after, 2, from, [
      Request(s.nextId, "DOM.describeNode", NodeParams(chooser)),
      Request(s.nextId + 1, "DOM.setFileInputFiles", FilesParams(chooser, paths))])
    ensures SelectionSent(s, after, chooser, paths)
  {
    var params := FilesParams(chooser, paths);
    assert params.fields.Keys == {"backendNodeId", "files"};
  }

  lemma SelectionFollows(command: Commander, s: Session, chooser: Chooser, paths: seq<string>, a: Request, b: Request)
    requires IsCommand(command)
    requires a == Request(s.nextId, "DOM.describeNode", NodeParams(chooser))
    requires b == Request(s.nextId + 1, "DOM.setFileInputFiles", FilesParams(chooser, paths))
    ensures var first := command(s, a.name, a.params);
      var second := command(first.session, b.name, b.params);
      && (SelectionAccepted(s) <==> first.result.Ok? && TakesFiles(first.result.value) && second.result.Ok?)
      && (SelectionAccepted(s) ==> SelectionSent(s, second.session, chooser, paths))
  {
    var first := command(s, a.name, a.params);
    var second := command(first.session, b.name, b.params);
    if first.result.Ok? && TakesFiles(first.result.value) && second.result.Ok? {
      var k, described, m, taken := OnlyTwoAnswered(command, s, a, b);
      TwoAnswered(command, s, a, b, k, described, m, taken);
      assert SelectionAnswered(s, k, described, m, taken);
    }
    if SelectionAccepted(s) {
      var k: nat, described, m: nat, taken :| SelectionAnswered(s, k, described, m, taken);
      TwoAnswered(command, s, a, b, k, described, m, taken);
      AssignmentSent(s, second.session, chooser, paths, m + 1);
    }
  }

  /** Main result on selections: one succeeds exactly when the paths are acceptable and both requests are
      answered without an error, the first by an input that takes files; and then both went out, the
      assignment of these paths to the chooser's node last. */
  lemma SelectionSucceeds(s: Session, chooser: Chooser, paths: seq<string>, check: string -> PathCheck)
    ensures var applied := Apply(s, chooser, Some(paths), check);
      && (applied.result.Ok? <==> Acceptable(chooser, paths, check) && SelectionAccepted(s))
      && (applied.result.Ok? ==> SelectionSent(s, applied.session, chooser, paths))
  {
    var describe := Request(s.nextId, "DOM.describeNode", NodeParams(chooser));
    var assignment := Request(s.nextId + 1, "DOM.setFileInputFiles", FilesParams(chooser, paths));
    var first := Command(s, describe.name, describe.params);
    var second := Command(first.session, assignment.name, assignment.params);
    SelectionSteps(s, chooser, paths, check, first, second);
    SelectionFollows((s, name, params) => Command(s, name, params), s, chooser, paths, describe, assignment);
  }

  /** A selection of too many paths, or with a path of no regular file, sends nothing; and one whose input
      takes directories, or has no attributes, does not get as far as the assignment. */
  lemma SelectionRefused(s: Session, chooser: Chooser, paths: seq<string>, check: string -> PathCheck)
    ensures var applied, describe := Apply(s, chooser, Some(paths), check), Command(s, "DOM.describeNode", NodeParams(chooser));
      && (!chooser.multiple && |paths| > 1 ==> applied == Applied(s, Err(MultipleFiles)))
      && (chooser.multiple || |paths| <= 1 ==>
        forall n :: 0 <= n < |paths| && !check(paths[n]).RegularFile? && (forall i :: 0 <= i < n ==> check(paths[i]).RegularFile?) ==>
          applied == Applied(s, Err(BadPath(paths[n]))))
      && (Acceptable(chooser, paths, check) && describe.result.Ok? && !TakesFiles(describe.result.value) ==>
        applied.session == describe.session && applied.result.Err?)
  {
    AcceptablePaths(chooser, paths, check);
    var describe := Command(s, "DOM.describeNode", NodeParams(chooser));
    if describe.result.Ok? {
      DescribedTakes(describe.result.value);
    }
  }

  // ----- Cancellation -----

  /** The id of the object that the chooser's node was resolved to. */
  ghost predicate ResolvesTo(content: Value, objectId: string) {
    && content.Object? && "object" in content.fields && content.fields["object"].Object?
    && "objectId" in content.fields["object"].fields && content.fields["object"].fields["objectId"] == String(objectId)
  }

  predicate ReportsException(content: Value) {
    content.Object? && "exceptionDetails" in content.fields
  }

  /** The replies to the three requests of a cancellation, with the positions at which they are read, and
      the object that the chooser's node was resolved to. */
  datatype CancelReplies = CancelReplies(k: nat, resolved: Value, objectId: string, m: nat, called: Value, n: nat, released: Value)

  /** Three commands are answered: the node is resolved to an object, the object's function is called,
      and the object is released. */
  ghost predicate CancelAnswered(s: Session, r: CancelReplies) {
    && Answered(s, 0, 0, r.k, r.resolved) && ResolvesTo(Content(r.resolved), r.objectId)
    && Answered(s, 1, r.k + 1, r.m, r.called)
    && Answered(s, 2, r.m + 1, r.n, r.released)
  }

  /** The three requests of a cancellation, for the object that the node was resolved to. */
  function CancelRequests(id: int, chooser: Chooser, objectId: string): seq<Request> {
    [Request(id, "DOM.resolveNode", Object(map["backendNodeId" := Integer(chooser.backendNodeId)])),
     Request(id + 1, "Runtime.callFunctionOn", Object(map[
       "objectId" := String(objectId),
       "functionDeclaration" := String("function() { this.dispatchEvent(new Event('cancel', { bubbles: true })); }")])),
     Request(id + 2, "Runtime.releaseObject", Object(map["objectId" := String(objectId)]))]
  }

  lemma ResolvedObject(content: Value, objectId: string)
    ensures ResolvesTo(content, objectId) <==> AsString(Pointer(content, ["object", "objectId"])) == Some(objectId)
  {
    assert ["object", "objectId"][1..] == ["objectId"] && ["objectId"][1..] == [];
    if content.Object? && "object" in content.fields {
      assert Pointer(content, ["object", "objectId"]) == Pointer(content.fields["object"], ["objectId"]);
    }
  }

  lemma CancelSteps(s: Session, chooser: Chooser, objectId: string, first: Outcome<Value>, second: Outcome<Value>, third: Outcome<Value>)
    requires first == Command(s, "DOM.resolveNode", NodeParams(chooser))
    requires second == Command(first.session, "Runtime.callFunctionOn", CallParams(objectId))
    requires third == Command(second.session, "Runtime.releaseObject", ReleaseParams(objectId))
    requires first.result.Ok? ==> forall other :: ResolvesTo(first.result.value, other) ==> other == objectId
    ensures var applied := Cancel(s, chooser);
      && (applied.result.Ok? <==>
          first.result.Ok? && ResolvesTo(first.result.value, objectId) && second.result.Ok? && third.result.Ok?
          && !ReportsException(second.result.value))
      && (first.result.Ok? && ResolvesTo(first.result.value, objectId) && second.result.Ok? ==> applied.session == third.session)
  {
    if first.result.Ok? {
      var found := AsString(Pointer(first.result.value, ["object", "objectId"]));
      if found.Some? {
        ResolvedObject(first.result.value, found.value);
      }
      ResolvedObject(first.result.value, objectId);
    }
  }

  /** The cancellation's commands, the first two in a row and then the third. */
  lemma ThreeAnswered(command: Commander, s: Session, a: Request, b: Request, c: Request, r: CancelReplies)
    requires IsCommand(command) && a.id == s.nextId && b.id == s.nextId + 1 && c.id == s.nextId + 2
    requires CancelAnswered(s, r)
    ensures var first := command(s, a.name, a.params);
      var second := command(first.session, b.name, b.params);
      var third := command(second.session, c.name, c.params);
      && first.result == Ok(Content(r.resolved)) && second.result == Ok(Content(r.called)) && third.result.Ok?
      && third.session.requests == s.requests + [a, b, c]
  {
    var first := command(s, a.name, a.params);
    var second := command(first.session, b.name, b.params);
    TwoAnswered(command, s, a, b, r.k, r.resolved, r.m, r.called);
    CommandAnswered(command, s, second.session, 2, r.m + 1, [a, b], c, r.n, r.released);
    assert [a, b] + [c] == [a, b, c];
  }

  lemma OnlyThreeAnswered(command: Commander, s: Session, a: Request, b: Request, c: Request, objectId: string) returns (r: CancelReplies)
    requires IsCommand(command) && a.id == s.nextId && b.id == s.nextId + 1 && c.id == s.nextId + 2
    requires var first := command(s, a.name, a.params);
      var second := command(first.session, b.name, b.params);
      && first.result.Ok? && second.result.Ok? && command(second.session, c.name, c.params).result.Ok?
      && ResolvesTo(first.result.value, objectId)
    ensures CancelAnswered(s, r)
    ensures Content(r.called) == command(command(s, a.name, a.params).session, b.name, b.params).result.value
  {
    var first := command(s, a.name, a.params);
    var second := command(first.session, b.name, b.params);
    var k, resolved, m, called := OnlyTwoAnswered(command, s, a, b);
    TwoAnswered(command, s, a, b, k, resolved, m, called);
    var n, released := OnlyAnswered(command, s, second.session, 2, m + 1, [a, b], c);
    r := CancelReplies(k, resolved, objectId, m, called, n, released);
  }

  /** An answered cancellation sends its three requests, and succeeds unless the call reports an
      exception. The object is released either way. */
  lemma AnsweredCancels(s: Session, chooser: Chooser, r: CancelReplies)
    requires CancelAnswered(s, r)
    ensures Cancel(s, chooser).session.requests == s.requests + CancelRequests(s.nextId, chooser, r.objectId)
    ensures Cancel(s, chooser).result.Ok? <==> !ReportsException(Content(r.called))
  {
    var first := Command(s, "DOM.resolveNode", NodeParams(chooser));
    var second := Command(first.session, "Runtime.callFunctionOn", CallParams(r.objectId));
    var third := Command(second.session, "Runtime.releaseObject", ReleaseParams(r.objectId));
    var requests := CancelRequests(s.nextId, chooser, r.objectId);
    ThreeAnswered((s, name, params) => Command(s, name, params), s, requests[0], requests[1], requests[2], r);
    assert [requests[0], requests[1], requests[2]] == requests;
    CancelSteps(s, chooser, r.objectId, first, second, third);
  }

  lemma ResolvedFirst(s: Session, chooser: Chooser) returns (objectId: string)
    requires Cancel(s, chooser).result.Ok?
    ensures var first := Command(s, "DOM.resolveNode", NodeParams(chooser));
      first.result.Ok? && ResolvesTo(first.result.value, objectId)
  {
    var first := Command(s, "DOM.resolveNode", NodeParams(chooser));
    objectId := AsString(Pointer(first.result.value, ["object", "objectId"])).value;
    ResolvedObject(first.result.value, objectId);
  }

  /** A cancellation that succeeds is answered, without an exception. */
  lemma CancelsAnswered(s: Session, chooser: Chooser) returns (r: CancelReplies)
    requires Cancel(s, chooser).result.Ok?
    ensures CancelAnswered(s, r) && !ReportsException(Content(r.called))
  {
    var objectId := ResolvedFirst(s, chooser);
    var first := Command(s, "DOM.resolveNode", NodeParams(chooser));
    var second := Command(first.session, "Runtime.callFunctionOn", CallParams(objectId));
    var third := Command(second.session, "Runtime.releaseObject", ReleaseParams(objectId));
    var requests := CancelRequests(s.nextId, chooser, objectId);
    CancelSteps(s, chooser, objectId, first, second, third);
    r := OnlyThreeAnswered((s, name, params) => Command(s, name, params), s, requests[0], requests[1], requests[2], objectId);
  }

  ghost predicate CancelAccepted(s: Session) {
    exists r :: CancelAnswered(s, r) && !ReportsException(Content(r.called))
  }

  /** The requests of a cancellation of this chooser went out. */
  ghost predicate CancelSent(s: Session, after: Session, chooser: Chooser) {
    exists objectId :: after.requests == s.requests + CancelRequests(s.nextId, chooser, objectId)
  }

  /** Main result on cancellations: one succeeds exactly when its three requests are answered without an
      error and the call reports no exception, and then the three went out in order. */
  lemma CancellationSucceeds(s: Session, chooser: Chooser, check: string -> PathCheck)
    ensures var applied := Apply(s, chooser, None, check);
      && (applied.result.Ok? <==> CancelAccepted(s))
      && (applied.result.Ok? ==> CancelSent(s, applied.session, chooser))
  {
    if Cancel(s, chooser).result.Ok? {
      var r := CancelsAnswered(s, chooser);
      AnsweredCancels(s, chooser, r);
    }
    if CancelAccepted(s) {
      var r :| CancelAnswered(s, r) && !ReportsException(Content(r.called));
      AnsweredCancels(s, chooser, r);
    }
  }

  // ----- Whole uploads -----

  /** The chooser's operation is accepted by the page. */
  ghost predicate OperationAccepted(s: Session, chooser: Chooser, request: Upload) {
    match request.paths
    case Some(paths) => Acceptable(chooser, paths, request.check) && SelectionAccepted(s)
    case None => CancelAccepted(s)
  }

  /** The requests of the chooser's operation went out between the two sessions, and nothing else. */
  ghost predicate OperationSent(s: Session, after: Session, chooser: Chooser, request: Upload) {
    match request.paths
    case Some(paths) => SelectionSent(s, after, chooser, paths)
    case None => CancelSent(s, after, chooser)
  }

  /** The chooser that the first collection of an upload leaves. */
  function Pending(render: Renderer, s: Session, record: Record, request: Upload): Option<Chooser> {
    After(render, record, Collected(s, request.first).added).chooser
  }

  /** Main result on uploads: the chooser is reset exactly when the first collection finishes, leaves a
      chooser, and the page accepts that chooser's operation; the operation's requests have then gone
      out. The upload succeeds exactly when the collection after the reset finishes too. */
  lemma UploadSucceeds(render: Renderer, s: Session, record: Record, request: Upload)
    ensures var first, chooser := Collected(s, request.first), Pending(render, s, record, request);
      var outcome, committed := Uploading(render, s, record, request), Committed(render, s, record, request);
      && (committed.Some? <==> first.result.Ok? && chooser.Some? && OperationAccepted(first.session, chooser.value, request))
      && (committed.Some? ==> OperationSent(first.session, committed.value, chooser.value, request))
      && (outcome.result.Ok? <==> committed.Some? && Collected(committed.value, request.second).result.Ok?)
  {
    var first, chooser := Collected(s, request.first), Pending(render, s, record, request);
    if first.result.Ok? && chooser.Some? {
      match request.paths
      case Some(paths) => SelectionSucceeds(first.session, chooser.value, paths, request.check);
      case None => CancellationSucceeds(first.session, chooser.value, request.check);
    }
  }
}
