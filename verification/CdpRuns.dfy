/** Conservation over whole runs of a DevTools session. */
module CdpRuns {
  import opened Wrappers
  import opened Json
  import opened Cdp
  import opened Sequences

  datatype Operation = RunCommand(name: string, params: Value) | DrainEvents(budget: nat) | TakeEvents

  /** A reply matched to a command. */
  datatype Answer = Answer(id: int, reply: Value)

  /** What a run leaves: the session, the batches taken, the replies matched, and for each command
      its id and what it returned. */
  datatype Trace = Trace(
    session: Session, taken: seq<Value>, answers: seq<Answer>, issued: seq<int>, results: seq<Result<Value, CdpError>>)

  /** The well-formed values among some reads. */
  function Values(frames: seq<Read>): seq<Value> {
    if frames == [] then [] else ValueOf(frames[0]) + Values(frames[1..])
  }

  function ValueOf(frame: Read): seq<Value> {
    if frame.Text? && frame.json.Some? then [frame.json.value] else []
  }

  /** The reads by which `after` is ahead of `before`. */
  function Consumed(before: Session, after: Session): seq<Read>
    requires |after.incoming| <= |before.incoming|
  {
    before.incoming[..|before.incoming| - |after.incoming|]
  }

  /** Whether a command's last read was its reply. */
  predicate Matched(before: Session, after: Session, id: int)
    requires |after.incoming| <= |before.incoming|
  {
    var frames := Consumed(before, after);
    frames != [] && frames[|frames| - 1].Text? && frames[|frames| - 1].json.Some? &&
    HasId(frames[|frames| - 1].json.value, id)
  }

  function Answers(before: Session, after: Session, id: int): seq<Answer>
    requires |after.incoming| <= |before.incoming|
  {
    if Matched(before, after, id) then
      var frames := Consumed(before, after);
      [Answer(id, frames[|frames| - 1].json.value)]
    else []
  }

  function Replies(answers: seq<Answer>): seq<Value> {
    seq(|answers|, i requires 0 <= i < |answers| => answers[i].reply)
  }

  /** `whole` is `a` and `b` merged: each keeps its order, and nothing is added or lost. */
  ghost predicate Shuffle(whole: seq<Value>, a: seq<Value>, b: seq<Value>) {
    if whole == [] then a == [] && b == []
    else
      || (a != [] && whole[0] == a[0] && Shuffle(whole[1..], a[1..], b))
      || (b != [] && whole[0] == b[0] && Shuffle(whole[1..], a, b[1..]))
  }

  lemma {:induction false} ShuffleConcat(w: seq<Value>, a: seq<Value>, b: seq<Value>, w': seq<Value>, a': seq<Value>, b': seq<Value>)
    requires Shuffle(w, a, b) && Shuffle(w', a', b')
    ensures Shuffle(w + w', a + a', b + b')
  {
    if w == [] {
      assert w + w' == w' && a + a' == a' && b + b' == b';
    } else {
      assert (w + w')[1..] == w[1..] + w';
      if a != [] && w[0] == a[0] && Shuffle(w[1..], a[1..], b) {
        ShuffleConcat(w[1..], a[1..], b, w', a', b');
        assert (a + a')[1..] == a[1..] + a';
      } else {
        ShuffleConcat(w[1..], a, b[1..], w', a', b');
        assert (b + b')[1..] == b[1..] + b';
      }
    }
  }

  lemma {:induction false} ShuffleLeft(w: seq<Value>)
    ensures Shuffle(w, w, [])
  {
    if w != [] {
      ShuffleLeft(w[1..]);
    }
  }

  lemma {:induction false} ValuesConcat(a: seq<Read>, b: seq<Read>)
    ensures Values(a + b) == Values(a) + Values(b)
  {
    if a == [] {
      Unit(b);
      Unit(Values(b));
    } else {
      ValuesConcat(a[1..], b);
      TailOfConcat(a, b);
      Assoc(ValueOf(a[0]), Values(a[1..]), Values(b));
    }
  }

  /** `after` follows `before` by reading: its reads are gone and its queue has grown. */
  ghost predicate Advances(before: Session, after: Session) {
    && |after.incoming| <= |before.incoming|
    && after.incoming == before.incoming[|before.incoming| - |after.incoming|..]
    && before.pending <= after.pending
  }

  /** The values read between the two are those queued and those that answered. */
  ghost predicate Conserves(before: Session, after: Session, answers: seq<Answer>)
    requires Advances(before, after)
  {
    Shuffle(Values(Consumed(before, after)), after.pending[|before.pending|..], Replies(answers))
  }

  /** One more read in front keeps the values conserved. */
  lemma ConservesOne(s: Session, next: Session, after: Session, answers: seq<Answer>)
    requires s.incoming != [] && next.incoming == s.incoming[1..]
    requires next.pending == s.pending + ValueOf(s.incoming[0])
    requires Advances(next, after) && Conserves(next, after, answers)
    ensures Advances(s, after) && Conserves(s, after, answers)
    ensures Consumed(s, after) == [s.incoming[0]] + Consumed(next, after)
  {
    var first := ValueOf(s.incoming[0]);
    assert Values([s.incoming[0]]) == first + Values([]);
    assert first + [] == first;
    ValuesConcat([s.incoming[0]], Consumed(next, after));
    ShuffleLeft(first);
    ShuffleConcat(first, first, [], Values(Consumed(next, after)), after.pending[|next.pending|..], Replies(answers));
    assert Consumed(s, after) == [s.incoming[0]] + Consumed(next, after);
    assert after.pending[|s.pending|..] == first + after.pending[|next.pending|..];
    assert [] + Replies(answers) == Replies(answers);
  }

  lemma ConservesNone(s: Session, after: Session)
    requires after.incoming == s.incoming && after.pending == s.pending
    ensures Advances(s, after) && Conserves(s, after, [])
  {
    assert Consumed(s, after) == [];
  }

  /** A first read that is not the reply does not change what a command matched. */
  lemma AnswersAfter(s: Session, next: Session, after: Session, id: int)
    requires Advances(s, after) && Advances(next, after)
    requires Consumed(s, after) != [] && Consumed(s, after) == [Consumed(s, after)[0]] + Consumed(next, after)
    requires var first := Consumed(s, after)[0];
      first.Text? && first.json.Some? ==> !HasId(first.json.value, id)
    ensures Answers(s, after, id) == Answers(next, after, id)
  {
    var rest := Consumed(next, after);
    if rest != [] {
      assert Consumed(s, after)[|Consumed(s, after)| - 1] == rest[|rest| - 1];
    }
  }

  /** What a command's result says about the frame it matched. */
  ghost predicate ResultFits(answers: seq<Answer>, result: Result<Value, CdpError>) {
    if answers == [] then result.Err? && !result.error.CommandFailed? else result == Reply(answers[0].reply)
  }

  lemma AwaitReply(s: Session, id: int)
    requires s.incoming != [] && s.incoming[0].Text? && s.incoming[0].json.Some? && HasId(s.incoming[0].json.value, id)
    ensures var after := PopRead(s);
      && Advances(s, after) && Answers(s, after, id) == [Answer(id, s.incoming[0].json.value)]
      && Conserves(s, after, Answers(s, after, id))
  {
    var after, v := PopRead(s), s.incoming[0].json.value;
    assert Consumed(s, after) == [s.incoming[0]];
    assert Values([s.incoming[0]]) == [v] + Values([]);
    assert Replies([Answer(id, v)]) == [v];
    assert after.pending[|s.pending|..] == [];
    assert Shuffle([v][1..], [], [v][1..]);
  }

  lemma AwaitStopped(s: Session, id: int)
    requires s.incoming != [] && ValueOf(s.incoming[0]) == []
    ensures var after := PopRead(s);
      Advances(s, after) && Answers(s, after, id) == [] && Conserves(s, after, [])
  {
    var after := PopRead(s);
    ConservesNone(after, after);
    ConservesOne(s, after, after, []);
    assert Consumed(s, after) == [s.incoming[0]];
  }

  lemma AwaitContinued(s: Session, next: Session, after: Session, id: int)
    requires s.incoming != [] && next.incoming == s.incoming[1..]
    requires next.pending == s.pending + ValueOf(s.incoming[0])
    requires s.incoming[0].Text? && s.incoming[0].json.Some? ==> !HasId(s.incoming[0].json.value, id)
    requires Advances(next, after) && Conserves(next, after, Answers(next, after, id))
    ensures Advances(s, after) && Conserves(s, after, Answers(s, after, id)) && Answers(s, after, id) == Answers(next, after, id)
  {
    ConservesOne(s, next, after, Answers(next, after, id));
    AnswersAfter(s, next, after, id);
  }

  /** A command queues every value it reads but its own reply, and finishes at that reply. */
  lemma {:induction false} AwaitConserves(s: Session, id: int)
    ensures var after := Await(s, id).session;
      && Advances(s, after) && Conserves(s, after, Answers(s, after, id)) && after.nextId == s.nextId
      && ResultFits(Answers(s, after, id), Await(s, id).result)
    decreases |s.incoming|
  {
    if s.incoming == [] {
      ConservesNone(s, s);
    } else {
      var next := PopRead(s);
      var after := Await(s, id).session;
      match s.incoming[0]
      case Text(Some(v)) =>
        if HasId(v, id) {
          AwaitReply(s, id);
        } else {
          var queued := next.(pending := s.pending + [v]);
          AwaitConserves(queued, id);
          AwaitContinued(s, queued, after, id);
        }
      case OtherFrame =>
        AwaitConserves(next, id);
        AwaitContinued(s, next, after, id);
      case _ =>
        AwaitStopped(s, id);
    }
  }

  lemma {:induction false} DrainConserves(s: Session, budget: nat)
    ensures var after := Drain(s, budget).session;
      Advances(s, after) && Conserves(s, after, []) && after.nextId == s.nextId
    decreases budget
  {
    if budget == 0 || s.incoming == [] {
      ConservesNone(s, s);
    } else {
      var next := PopRead(s);
      var after := Drain(s, budget).session;
      match s.incoming[0]
      case Text(Some(v)) =>
        var queued := next.(pending := s.pending + [v]);
        DrainConserves(queued, budget - 1);
        ConservesOne(s, queued, after, []);
      case OtherFrame =>
        DrainConserves(next, budget - 1);
        ConservesOne(s, next, after, []);
      case _ =>
        ConservesNone(next, next);
        ConservesOne(s, next, next, []);
    }
  }

  // ----- Runs -----

  function Run(s: Session, operations: seq<Operation>): Trace {
    if operations == [] then Trace(s, [], [], [], [])
    else
      var last := |operations| - 1;
      Extend(Run(s, operations[..last]), operations[last])
  }

  function Extend(t: Trace, operation: Operation): Trace {
    match operation
    case RunCommand(name, params) =>
      var Outcome(after, result) := Command(t.session, name, params);
      t.(session := after, issued := t.issued + [t.session.nextId], results := t.results + [result],
         answers := t.answers + if |after.incoming| <= |t.session.incoming| then Answers(t.session, after, t.session.nextId) else [])
    case DrainEvents(budget) => t.(session := Drain(t.session, budget).session)
    case TakeEvents => t.(session := t.session.(pending := []), taken := t.taken + t.session.pending)
  }

  /** The queue before the run and the values read in it are the batches taken, the queue after
      it and the replies, merged. */
  ghost predicate Conserved(s: Session, t: Trace) {
    && |t.session.incoming| <= |s.incoming|
    && t.session.incoming == s.incoming[|s.incoming| - |t.session.incoming|..]
    && Shuffle(s.pending + Values(Consumed(s, t.session)), t.taken + t.session.pending, Replies(t.answers))
  }

  /** Ids are issued in order from `s.nextId`, each answer belongs to one of them, and no two
      answers to the same. */
  ghost predicate IdsOrdered(s: Session, t: Trace) {
    && t.session.nextId == s.nextId + |t.issued|
    && (forall i :: 0 <= i < |t.issued| ==> t.issued[i] == s.nextId + i)
    && (forall i :: 0 <= i < |t.answers| ==>
      s.nextId <= t.answers[i].id < t.session.nextId && HasId(t.answers[i].reply, t.answers[i].id))
    && (forall i, j :: 0 <= i < j < |t.answers| ==> t.answers[i].id < t.answers[j].id)
  }

  /** What a command returned: the content of the one reply matched to its own id, which carries that
      id, or, where no reply was matched to it, a failure that is no reply's. */
  ghost predicate Returned(answers: seq<Answer>, id: int, result: Result<Value, CdpError>) {
    if exists j :: 0 <= j < |answers| && answers[j].id == id
    then exists j :: 0 <= j < |answers| && answers[j].id == id && HasId(answers[j].reply, id) && result == Reply(answers[j].reply)
    else result.Err? && !result.error.CommandFailed?
  }

  ghost predicate AllReturned(t: Trace) {
    |t.results| == |t.issued| && forall i :: 0 <= i < |t.issued| ==> Returned(t.answers, t.issued[i], t.results[i])
  }

  /** Replies matched to other ids do not matter. */
  lemma ReturnedLater(answers: seq<Answer>, more: seq<Answer>, id: int, result: Result<Value, CdpError>)
    requires Returned(answers, id, result) && forall j :: 0 <= j < |more| ==> more[j].id != id
    ensures Returned(answers + more, id, result)
  {
    if j :| 0 <= j < |answers| && answers[j].id == id && HasId(answers[j].reply, id) && result == Reply(answers[j].reply) {
      assert (answers + more)[j] == answers[j];
    }
  }

  lemma ReturnedNow(answers: seq<Answer>, more: seq<Answer>, id: int, result: Result<Value, CdpError>)
    requires forall j :: 0 <= j < |answers| ==> answers[j].id != id
    requires |more| <= 1 && (more != [] ==> more[0].id == id && HasId(more[0].reply, id)) && ResultFits(more, result)
    ensures Returned(answers + more, id, result)
  {
    if more != [] {
      assert (answers + more)[|answers|] == more[0];
    }
  }

  lemma ExtendedReturned(s: Session, t: Trace, operation: Operation)
    requires IdsOrdered(s, t) && AllReturned(t)
    ensures AllReturned(Extend(t, operation))
  {
    if operation.RunCommand? {
      CommandConserves(t.session, operation.name, operation.params);
      var Outcome(after, result) := Command(t.session, operation.name, operation.params);
      var more := Answers(t.session, after, t.session.nextId);
      forall i | 0 <= i < |t.issued| ensures Returned(t.answers + more, t.issued[i], t.results[i]) {
        ReturnedLater(t.answers, more, t.issued[i], t.results[i]);
      }
      ReturnedNow(t.answers, more, t.session.nextId, result);
    }
  }

  lemma ShuffleTo(w: seq<Value>, a: seq<Value>, b: seq<Value>, w': seq<Value>, a': seq<Value>, b': seq<Value>,
                  whole: seq<Value>, left: seq<Value>, right: seq<Value>)
    requires Shuffle(w, a, b) && Shuffle(w', a', b')
    requires whole == w + w' && left == a + a' && right == b + b'
    ensures Shuffle(whole, left, right)
  {
    ShuffleConcat(w, a, b, w', a', b');
  }

  lemma TailAppended(front: seq<Value>, short: seq<Value>, long: seq<Value>)
    requires short <= long
    ensures front + long == front + short + long[|short|..]
  {}

  lemma ExtendConserves(s: Session, t: Trace, middle: Session, answers: seq<Answer>)
    requires Conserved(s, t) && Advances(t.session, middle) && Conserves(t.session, middle, answers)
    ensures Conserved(s, t.(session := middle, answers := t.answers + answers))
  {
    var before, added := Consumed(s, t.session), Consumed(t.session, middle);
    assert Consumed(s, middle) == before + added;
    ValuesConcat(before, added);
    Assoc(s.pending, Values(before), Values(added));
    assert Replies(t.answers) + Replies(answers) == Replies(t.answers + answers);
    TailAppended(t.taken, t.session.pending, middle.pending);
    ShuffleTo(s.pending + Values(before), t.taken + t.session.pending, Replies(t.answers),
              Values(added), middle.pending[|t.session.pending|..], Replies(answers),
              s.pending + Values(before + added), t.taken + middle.pending, Replies(t.answers + answers));
  }

  /** Only the reads and the queue of the first session matter. */
  lemma SameStart(s: Session, other: Session, after: Session, id: int)
    requires s.incoming == other.incoming && s.pending == other.pending
    requires Advances(other, after) && Conserves(other, after, Answers(other, after, id))
    ensures Advances(s, after) && Conserves(s, after, Answers(s, after, id)) && Answers(s, after, id) == Answers(other, after, id)
  {
    assert Consumed(s, after) == Consumed(other, after);
  }

  lemma CommandConserves(s: Session, name: string, params: Value)
    ensures var after := Command(s, name, params).session;
      && Advances(s, after) && Conserves(s, after, Answers(s, after, s.nextId)) && after.nextId == s.nextId + 1
      && ResultFits(Answers(s, after, s.nextId), Command(s, name, params).result)
  {
    if s.sends != [] && !s.sends[0] {
      ConservesNone(s, Sent(s, name, params));
    } else {
      AwaitConserves(Sent(s, name, params), s.nextId);
      SameStart(s, Sent(s, name, params), Command(s, name, params).session, s.nextId);
    }
  }

  lemma TakeConserves(s: Session, t: Trace)
    requires Conserved(s, t)
    ensures Conserved(s, Extend(t, TakeEvents))
  {
    assert t.taken + t.session.pending + [] == t.taken + t.session.pending;
  }

  lemma DrainedConserved(s: Session, t: Trace, budget: nat)
    requires Conserved(s, t)
    ensures Conserved(s, Extend(t, DrainEvents(budget)))
  {
    DrainConserves(t.session, budget);
    ExtendConserves(s, t, Drain(t.session, budget).session, []);
    assert t.answers + [] == t.answers;
  }

  lemma CommandConserved(s: Session, t: Trace, name: string, params: Value)
    requires Conserved(s, t)
    ensures Conserved(s, Extend(t, RunCommand(name, params)))
  {
    CommandConserves(t.session, name, params);
    var after := Command(t.session, name, params).session;
    ExtendConserves(s, t, after, Answers(t.session, after, t.session.nextId));
  }

  lemma ExtendedConserved(s: Session, t: Trace, operation: Operation)
    requires Conserved(s, t)
    ensures Conserved(s, Extend(t, operation))
  {
    match operation
    case RunCommand(name, params) => CommandConserved(s, t, name, params);
    case DrainEvents(budget) => DrainedConserved(s, t, budget);
    case TakeEvents => TakeConserves(s, t);
  }

  lemma ExtendedOrdered(s: Session, t: Trace, operation: Operation)
    requires IdsOrdered(s, t)
    ensures IdsOrdered(s, Extend(t, operation))
  {
    match operation
    case RunCommand(name, params) => CommandConserves(t.session, name, params);
    case DrainEvents(budget) => DrainConserves(t.session, budget);
    case TakeEvents =>
  }

  /** Main result: over every run no value is lost, duplicated or reordered, and every reply that a
      command returned carries that command's own id, whatever fails on the way. */
  lemma {:induction false} RunConserves(s: Session, operations: seq<Operation>)
    ensures Conserved(s, Run(s, operations)) && IdsOrdered(s, Run(s, operations)) && AllReturned(Run(s, operations))
  {
    if operations == [] {
      assert Consumed(s, s) == [];
      assert s.pending + Values([]) == s.pending == [] + s.pending;
      ShuffleLeft(s.pending);
    } else {
      var last := |operations| - 1;
      RunConserves(s, operations[..last]);
      ExtendedConserved(s, Run(s, operations[..last]), operations[last]);
      ExtendedOrdered(s, Run(s, operations[..last]), operations[last]);
      ExtendedReturned(s, Run(s, operations[..last]), operations[last]);
    }
  }
}
