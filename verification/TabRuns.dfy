/** Whole runs of a tab over its session: which of the events the session hands over are recorded,
    which are looked at, and which are lost. */
module TabRuns {
  import opened Wrappers
  import opened Json
  import opened Cdp
  import opened CdpRuns
  import opened BrowserEvents
  import opened TabEvents
  import opened Sequences

  // ----- Batches -----

  /** The events a collection takes from the session: none where the drain fails. */
  function Batch(s: Session, budget: nat): seq<seq<Value>> {
    var drained := Drain(s, budget);
    if drained.result.Ok? then [drained.session.pending] else []
  }

  function Batches(render: Renderer, run: TabRun, operation: TabOperation): seq<seq<Value>> {
    match operation
    case Collect(budget) => Batch(run.session, budget)
    case FileUpload(request) =>
      var committed := Committed(render, run.session, run.record, request);
      Batch(run.session, request.first) + if committed.Some? then Batch(committed.value, request.second) else []
    case OneCommand(name, params) => []
  }

  /** The batches of a whole run, in order. */
  function RunBatches(render: Renderer, s: Session, operations: seq<TabOperation>): seq<seq<Value>> {
    if operations == [] then []
    else
      var last := |operations| - 1;
      RunBatches(render, s, operations[..last]) + Batches(render, RunTab(render, s, operations[..last]), operations[last])
  }

  function Flat(batches: seq<seq<Value>>): seq<Value> {
    if batches == [] then [] else Flat(batches[..|batches| - 1]) + batches[|batches| - 1]
  }

  /** How many events of a batch come through. */
  type Cut = seq<Value> -> nat

  function First(batch: seq<Value>, cut: Cut): (first: seq<Value>)
    ensures |first| <= |batch|
    ensures first == batch <==> |batch| <= cut(batch)
  {
    if cut(batch) <= |batch| then batch[..cut(batch)] else batch
  }

  function Firsts(batches: seq<seq<Value>>, cut: Cut): seq<Value> {
    if batches == [] then [] else Firsts(batches[..|batches| - 1], cut) + First(batches[|batches| - 1], cut)
  }

  lemma {:induction false} FlatConcat(a: seq<seq<Value>>, b: seq<seq<Value>>)
    ensures Flat(a + b) == Flat(a) + Flat(b)
  {
    if b == [] {
      assert a + b == a;
    } else {
      var last := |b| - 1;
      FlatConcat(a, b[..last]);
      assert (a + b)[..|a + b| - 1] == a + b[..last];
      Assoc(Flat(a), Flat(b[..last]), b[last]);
    }
  }

  lemma FirstsSnoc(batches: seq<seq<Value>>, batch: seq<Value>, cut: Cut)
    ensures Firsts(batches + [batch], cut) == Firsts(batches, cut) + First(batch, cut)
  {
    assert (batches + [batch])[..|batches|] == batches;
  }

  lemma {:induction false} FirstsConcat(a: seq<seq<Value>>, b: seq<seq<Value>>, cut: Cut)
    ensures Firsts(a + b, cut) == Firsts(a, cut) + Firsts(b, cut)
  {
    if b == [] {
      assert a + b == a;
    } else {
      var last := |b| - 1;
      FirstsConcat(a, b[..last], cut);
      assert a + b == a + b[..last] + [b[last]];
      FirstsSnoc(a + b[..last], b[last], cut);
      Assoc(Firsts(a, cut), Firsts(b[..last], cut), First(b[last], cut));
    }
  }

  lemma {:induction false} FirstsShorter(batches: seq<seq<Value>>, cut: Cut)
    ensures |Firsts(batches, cut)| <= |Flat(batches)|
  {
    if batches != [] {
      FirstsShorter(batches[..|batches| - 1], cut);
    }
  }

  lemma PartsEqual(a: seq<Value>, b: seq<Value>, a': seq<Value>, b': seq<Value>)
    requires |a| <= |a'| && |b| <= |b'|
    ensures a + b == a' + b' <==> a == a' && b == b'
  {
    if a + b == a' + b' {
      assert |a + b| == |a' + b'|;
      assert a == (a + b)[..|a|] && a' == (a' + b')[..|a|];
      assert b == (a + b)[|a|..] && b' == (a' + b')[|a|..];
    }
  }

  ghost predicate NoneCut(batches: seq<seq<Value>>, cut: Cut) {
    forall i :: 0 <= i < |batches| ==> |batches[i]| <= cut(batches[i])
  }

  /** Cutting each batch loses nothing exactly when no batch is cut. */
  lemma {:induction false} FirstsAll(batches: seq<seq<Value>>, cut: Cut)
    ensures Firsts(batches, cut) == Flat(batches) <==> NoneCut(batches, cut)
  {
    if batches != [] {
      var front, last := batches[..|batches| - 1], batches[|batches| - 1];
      FirstsAll(front, cut);
      FirstsShorter(front, cut);
      PartsEqual(Firsts(front, cut), First(last, cut), Flat(front), last);
      assert NoneCut(batches, cut) <==> NoneCut(front, cut) && |last| <= cut(last);
    }
  }

  // ----- What is recorded -----

  /** The events before the first that does not decode are recorded; that one is looked at as well. */
  const RECORDED: Cut := batch => Decodable(batch)
  const LOOKED_AT: Cut := batch => Decodable(batch) + 1

  function EventsIn(history: seq<Happening>): seq<Value> {
    if history == [] then []
    else
      var last := |history| - 1;
      EventsIn(history[..last]) + if history[last].Event? then [history[last].value] else []
  }

  lemma {:induction false} EventsInConcat(a: seq<Happening>, b: seq<Happening>)
    ensures EventsIn(a + b) == EventsIn(a) + EventsIn(b)
  {
    if b == [] {
      assert a + b == a;
    } else {
      var last := |b| - 1;
      EventsInConcat(a, b[..last]);
      assert (a + b)[..|a + b| - 1] == a + b[..last];
      Assoc(EventsIn(a), EventsIn(b[..last]), if b[last].Event? then [b[last].value] else []);
    }
  }

  lemma {:induction false} EventsInEvents(values: seq<Value>)
    ensures EventsIn(Events(values)) == values
  {
    if values != [] {
      var last := |values| - 1;
      EventsInEvents(values[..last]);
      assert Events(values)[..last] == Events(values[..last]);
      assert values == values[..last] + [values[last]];
    }
  }

  lemma FirstsOne(batch: seq<Value>, cut: Cut)
    ensures Firsts([batch], cut) == First(batch, cut)
  {
    assert [batch][..0] == [];
  }

  lemma CollectedRecords(s: Session, budget: nat)
    ensures EventsIn(Collected(s, budget).added) == Firsts(Batch(s, budget), RECORDED)
  {
    var drained := Drain(s, budget);
    if drained.result.Ok? {
      var pending := drained.session.pending;
      EventsInEvents(pending[..Decodable(pending)]);
      FirstsOne(pending, RECORDED);
    }
  }

  lemma UploadRecords(first: seq<Happening>, second: seq<Happening>)
    ensures EventsIn(first + [Uploaded] + second) == EventsIn(first) + EventsIn(second)
  {
    EventsInConcat(first + [Uploaded], second);
    assert (first + [Uploaded])[..|first|] == first;
    assert EventsIn(first) + [] == EventsIn(first);
  }

  lemma UploadingRecords(render: Renderer, run: TabRun, request: Upload)
    ensures EventsIn(Uploading(render, run.session, run.record, request).added)
      == Firsts(Batches(render, run, FileUpload(request)), RECORDED)
  {
    var committed := Committed(render, run.session, run.record, request);
    var batch := Batch(run.session, request.first);
    UploadAdds(render, run.session, run.record, request);
    CollectedRecords(run.session, request.first);
    if committed.Some? {
      CollectedRecords(committed.value, request.second);
      UploadRecords(Collected(run.session, request.first).added, Collected(committed.value, request.second).added);
      FirstsConcat(batch, Batch(committed.value, request.second), RECORDED);
    } else {
      assert batch + [] == batch;
    }
  }

  lemma PerformedRecords(render: Renderer, run: TabRun, operation: TabOperation)
    ensures EventsIn(Performed(render, run, operation).added) == Firsts(Batches(render, run, operation), RECORDED)
  {
    match operation
    case Collect(budget) => CollectedRecords(run.session, budget);
    case FileUpload(request) => UploadingRecords(render, run, request);
    case OneCommand(name, params) =>
  }

  /** What a run records of each batch: the events before the first that does not decode. */
  lemma {:induction false} RunRecords(render: Renderer, s: Session, operations: seq<TabOperation>)
    ensures EventsIn(RunTab(render, s, operations).history) == Firsts(RunBatches(render, s, operations), RECORDED)
  {
    if operations != [] {
      var last := |operations| - 1;
      var run := RunTab(render, s, operations[..last]);
      RunRecords(render, s, operations[..last]);
      PerformedRecords(render, run, operations[last]);
      EventsInConcat(run.history, Performed(render, run, operations[last]).added);
      FirstsConcat(RunBatches(render, s, operations[..last]), Batches(render, run, operations[last]), RECORDED);
    }
  }

  /** Every event at a position before `end` decodes. */
  ghost predicate DecodesBefore(batch: seq<Value>, end: int) {
    forall j :: 0 <= j < |batch| && j < end ==> Decodes(batch[j])
  }

  lemma DecodableBefore(batch: seq<Value>, extra: nat)
    requires extra <= 1
    ensures |batch| <= Decodable(batch) + extra <==> DecodesBefore(batch, |batch| - extra)
  {
    var n := Decodable(batch);
    if n < |batch| - extra {
      assert !Decodes(batch[n]);
    }
  }

  /** In each batch every event decodes, leaving aside the last `extra`. */
  ghost predicate AllDecodeBefore(batches: seq<seq<Value>>, extra: nat) {
    forall i :: 0 <= i < |batches| ==> DecodesBefore(batches[i], |batches[i]| - extra)
  }

  lemma CutExactly(batches: seq<seq<Value>>, extra: nat, cut: Cut)
    requires extra <= 1 && forall batch :: cut(batch) == Decodable(batch) + extra
    ensures Firsts(batches, cut) == Flat(batches) <==> AllDecodeBefore(batches, extra)
  {
    FirstsAll(batches, cut);
    forall i | 0 <= i < |batches|
      ensures |batches[i]| <= cut(batches[i]) <==> DecodesBefore(batches[i], |batches[i]| - extra)
    {
      DecodableBefore(batches[i], extra);
    }
  }

  /** Main result on recording: the history holds every event the session handed over exactly when
      every one of them decodes, and every event is looked at exactly when none but the last of a
      batch fails to. */
  lemma EventsLost(render: Renderer, s: Session, operations: seq<TabOperation>)
    ensures var batches, run := RunBatches(render, s, operations), RunTab(render, s, operations);
      && (EventsIn(run.history) == Flat(batches) <==> AllDecodeBefore(batches, 0))
      && (Firsts(batches, LOOKED_AT) == Flat(batches) <==> AllDecodeBefore(batches, 1))
  {
    RunRecords(render, s, operations);
    CutExactly(RunBatches(render, s, operations), 0, RECORDED);
    CutExactly(RunBatches(render, s, operations), 1, LOOKED_AT);
  }

  // ----- The session underneath -----

  /** Some run of session operations leads from `s` to `session` and takes `taken` on the way. */
  ghost predicate Reached(s: Session, session: Session, taken: seq<Value>) {
    exists operations :: Run(s, operations).session == session && Run(s, operations).taken == taken
  }

  lemma OperationReached(s: Session, session: Session, taken: seq<Value>, operation: Operation)
    requires Reached(s, session, taken)
    ensures operation.RunCommand? ==> Reached(s, Command(session, operation.name, operation.params).session, taken)
    ensures operation.DrainEvents? ==> Reached(s, Drain(session, operation.budget).session, taken)
    ensures operation.TakeEvents? ==> Reached(s, session.(pending := []), taken + session.pending)
  {
    var operations :| Run(s, operations).session == session && Run(s, operations).taken == taken;
    var longer := operations + [operation];
    assert longer[..|longer| - 1] == operations;
    assert Run(s, longer) == Extend(Run(s, operations), operation);
  }

  lemma CollectedReached(s: Session, session: Session, taken: seq<Value>, budget: nat)
    requires Reached(s, session, taken)
    ensures Reached(s, Collected(session, budget).session, taken + Flat(Batch(session, budget)))
  {
    var drained := Drain(session, budget);
    OperationReached(s, session, taken, DrainEvents(budget));
    if drained.result.Ok? {
      OperationReached(s, drained.session, taken, TakeEvents);
      assert Flat([drained.session.pending]) == drained.session.pending by {
        assert [drained.session.pending][..0] == [];
      }
    } else {
      assert taken + [] == taken;
    }
  }

  lemma SelectedReached(s: Session, session: Session, taken: seq<Value>, chooser: Chooser, paths: seq<string>, check: string -> PathCheck)
    requires Reached(s, session, taken)
    ensures Reached(s, SelectFiles(session, chooser, paths, check).session, taken)
  {
    var described := Command(session, "DOM.describeNode", NodeParams(chooser)).session;
    OperationReached(s, session, taken, RunCommand("DOM.describeNode", NodeParams(chooser)));
    OperationReached(s, described, taken, RunCommand("DOM.setFileInputFiles", FilesParams(chooser, paths)));
  }

  lemma CancelledReached(s: Session, session: Session, taken: seq<Value>, chooser: Chooser)
    requires Reached(s, session, taken)
    ensures Reached(s, Cancel(session, chooser).session, taken)
  {
    var resolved := Command(session, "DOM.resolveNode", NodeParams(chooser));
    OperationReached(s, session, taken, RunCommand("DOM.resolveNode", NodeParams(chooser)));
    if resolved.result.Ok? && AsString(Pointer(resolved.result.value, ["object", "objectId"])).Some? {
      var objectId := AsString(Pointer(resolved.result.value, ["object", "objectId"])).value;
      var called := Command(resolved.session, "Runtime.callFunctionOn", CallParams(objectId)).session;
      OperationReached(s, resolved.session, taken, RunCommand("Runtime.callFunctionOn", CallParams(objectId)));
      OperationReached(s, called, taken, RunCommand("Runtime.releaseObject", ReleaseParams(objectId)));
    }
  }

  lemma UploadReached(render: Renderer, s: Session, taken: seq<Value>, run: TabRun, request: Upload)
    requires Reached(s, run.session, taken)
    ensures Reached(s, Uploading(render, run.session, run.record, request).session,
                    taken + Flat(Batches(render, run, FileUpload(request))))
  {
    var first := Collected(run.session, request.first);
    var batch := Batch(run.session, request.first);
    var chooser := After(render, run.record, first.added).chooser;
    CollectedReached(s, run.session, taken, request.first);
    assert batch + [] == batch;
    if first.result.Ok? && chooser.Some? {
      if request.paths.Some? {
        SelectedReached(s, first.session, taken + Flat(batch), chooser.value, request.paths.value, request.check);
      } else {
        CancelledReached(s, first.session, taken + Flat(batch), chooser.value);
      }
      var applied := Apply(first.session, chooser.value, request.paths, request.check);
      if applied.result.Ok? {
        CollectedReached(s, applied.session, taken + Flat(batch), request.second);
        FlatConcat(batch, Batch(applied.session, request.second));
        Assoc(taken, Flat(batch), Flat(Batch(applied.session, request.second)));
      }
    }
  }

  lemma {:induction false} RunReached(render: Renderer, s: Session, operations: seq<TabOperation>)
    ensures Reached(s, RunTab(render, s, operations).session, Flat(RunBatches(render, s, operations)))
  {
    if operations == [] {
      assert Run(s, []).session == s && Run(s, []).taken == [];
    } else {
      var last := |operations| - 1;
      var run, before := RunTab(render, s, operations[..last]), RunBatches(render, s, operations[..last]);
      RunReached(render, s, operations[..last]);
      FlatConcat(before, Batches(render, run, operations[last]));
      match operations[last]
      case Collect(budget) => CollectedReached(s, run.session, Flat(before), budget);
      case FileUpload(request) => UploadReached(render, s, Flat(before), run, request);
      case OneCommand(name, params) =>
        OperationReached(s, run.session, Flat(before), RunCommand(name, params));
        assert Flat(before) + [] == Flat(before);
    }
  }

  /** The values queued before the run and read in it are `events`, the queue after it and some
      replies, merged in order. */
  ghost predicate Accounted(s: Session, after: Session, events: seq<Value>) {
    && |after.incoming| <= |s.incoming|
    && exists answers :: Shuffle(s.pending + Values(Consumed(s, after)), events + after.pending, Replies(answers))
  }

  lemma ReachedAccounted(s: Session, session: Session, taken: seq<Value>)
    requires Reached(s, session, taken)
    ensures Accounted(s, session, taken)
  {
    var operations :| Run(s, operations).session == session && Run(s, operations).taken == taken;
    RunConserves(s, operations);
    var answers := Run(s, operations).answers;
    assert Shuffle(s.pending + Values(Consumed(s, session)), taken + session.pending, Replies(answers));
  }

  /** Main result on whole runs: what the session read is the batches it handed over, its queue and
      replies. The history can stand for the batches exactly when every event in them decodes. */
  lemma TabRunAccounted(render: Renderer, s: Session, operations: seq<TabOperation>)
    ensures var batches, run := RunBatches(render, s, operations), RunTab(render, s, operations);
      && Accounted(s, run.session, Flat(batches))
      && (EventsIn(run.history) == Flat(batches) <==> AllDecodeBefore(batches, 0))
  {
    RunReached(render, s, operations);
    ReachedAccounted(s, RunTab(render, s, operations).session, Flat(RunBatches(render, s, operations)));
    EventsLost(render, s, operations);
  }
}
