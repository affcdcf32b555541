/** How a command and a drain end, told from the reads of the socket alone. */
module CdpResults {
  import opened Wrappers
  import opened Json
  import opened Cdp
  import opened CdpRuns
  import opened Sequences

  /** The value is an object whose `id` is the 64-bit integer `id`. */
  predicate Carries(v: Value, id: int) {
    && v.Object? && "id" in v.fields && v.fields["id"] == Integer(id)
    && -0x8000_0000_0000_0000 <= id < 0x8000_0000_0000_0000
  }

  /** A read that a command waiting for `id` passes over. */
  predicate PassedOver(read: Read, id: int) {
    read.OtherFrame? || (read.Text? && read.json.Some? && !Carries(read.json.value, id))
  }

  /** The first read that is not passed over is the reply `v`. */
  ghost predicate RepliesAt(frames: seq<Read>, id: int, k: nat, v: Value) {
    && k < |frames| && frames[k] == Text(Some(v)) && Carries(v, id)
    && forall j :: 0 <= j < k ==> PassedOver(frames[j], id)
  }

  /** What a reply without an error hands back. */
  function Content(v: Value): Value
    requires v.Object?
  {
    if "result" in v.fields then v.fields["result"] else Null
  }

  lemma CarriesId(v: Value, id: int)
    ensures Carries(v, id) <==> HasId(v, id)
  {}

  lemma {:induction false} AwaitReplied(s: Session, id: int, k: nat, v: Value)
    requires RepliesAt(s.incoming, id, k, v)
    ensures var ended := Await(s, id);
      && ended.session.incoming == s.incoming[k + 1..]
      && ended.result == if "error" in v.fields then Err(CommandFailed(v.fields["error"])) else Ok(Content(v))
    decreases k
  {
    CarriesId(v, id);
    if k > 0 {
      var first := s.incoming[0];
      assert PassedOver(first, id);
      if first.Text? {
        CarriesId(first.json.value, id);
      }
      var next := if first.Text? then PopRead(s).(pending := s.pending + [first.json.value]) else PopRead(s);
      assert Await(s, id) == Await(next, id);
      AwaitReplied(next, id, k - 1, v);
      assert s.incoming[1..][k..] == s.incoming[k + 1..];
    }
  }

  /** A command that ended Ok found its reply. */
  lemma {:induction false} AwaitFound(s: Session, id: int) returns (k: nat, v: Value)
    requires Await(s, id).result.Ok?
    ensures RepliesAt(s.incoming, id, k, v)
    decreases |s.incoming|
  {
    var first := s.incoming[0];
    if first.Text? {
      CarriesId(first.json.value, id);
    }
    if first.Text? && HasId(first.json.value, id) {
      k, v := 0, first.json.value;
    } else {
      var next := if first.Text? then PopRead(s).(pending := s.pending + [first.json.value]) else PopRead(s);
      k, v := AwaitFound(next, id);
      k := k + 1;
      assert forall j :: 0 < j < k ==> s.incoming[j] == next.incoming[j - 1];
    }
  }

  lemma {:induction false} AwaitKeepsRequests(s: Session, id: int)
    ensures Await(s, id).session.requests == s.requests && Await(s, id).session.sends == s.sends
    ensures Await(s, id).session.nextId == s.nextId
    decreases |s.incoming|
  {
    if s.incoming != [] {
      match s.incoming[0]
      case Text(Some(v)) =>
        if !HasId(v, id) {
          AwaitKeepsRequests(PopRead(s).(pending := s.pending + [v]), id);
        }
      case OtherFrame => AwaitKeepsRequests(PopRead(s), id);
      case _ =>
    }
  }

  /** What a command does to the outside: its request goes out under the next id, if the send succeeds,
      and nothing else does. */
  lemma CommandSends(s: Session, name: string, params: Value)
    ensures var after := Command(s, name, params).session;
      && after.requests == (if Sends(s) then s.requests + [Request(s.nextId, name, params)] else s.requests)
      && after.nextId == s.nextId + 1 && after.sends == if s.sends == [] then [] else s.sends[1..]
  {
    AwaitKeepsRequests(Sent(s, name, params), s.nextId);
  }

  /** Main result on a command: it ends Ok exactly when its request went out and its reply, the first
      read that is not passed over, has no `error` member, and then gives the reply's `result`. */
  lemma CommandEnds(s: Session, name: string, params: Value, content: Value)
    ensures Command(s, name, params).result == Ok(content) <==>
      Sends(s) && exists k: nat, v :: RepliesAt(s.incoming, s.nextId, k, v) && "error" !in v.fields && content == Content(v)
  {
    var sent := Sent(s, name, params);
    if Sends(s) && Await(sent, s.nextId).result.Ok? {
      var k, v := AwaitFound(sent, s.nextId);
      AwaitReplied(sent, s.nextId, k, v);
    }
    if k: nat, v :| RepliesAt(s.incoming, s.nextId, k, v) && "error" !in v.fields && content == Content(v) {
      AwaitReplied(sent, s.nextId, k, v);
    }
  }

  // ----- Drains -----

  /** A read after which a drain goes on. */
  predicate GoesOn(read: Read) {
    read.OtherFrame? || (read.Text? && read.json.Some?)
  }

  lemma ValuesCons(first: Read, rest: seq<Read>)
    ensures Values([first] + rest) == ValueOf(first) + Values(rest)
  {
    assert ([first] + rest)[1..] == rest;
  }

  /** Main result on a drain: it reads on up to its deadline, the end of the stream or the first pause,
      close, failure or bad text, queues what it read, and ends Ok unless that read failed or was bad. */
  lemma {:induction false} DrainReads(s: Session, budget: nat) returns (k: nat)
    ensures k <= budget && k <= |s.incoming| && forall j :: 0 <= j < k ==> GoesOn(s.incoming[j])
    ensures var Outcome(after, result) := Drain(s, budget);
      && after.pending == s.pending + Values(s.incoming[..k])
      && after.requests == s.requests && after.nextId == s.nextId && after.sends == s.sends
      && if k == budget || k == |s.incoming| then result == Ok(()) && after.incoming == s.incoming[k..]
         else
           && !GoesOn(s.incoming[k]) && after.incoming == s.incoming[k + 1..]
           && result == (match s.incoming[k]
             case TimedOut => Ok(())
             case Closed => Ok(())
             case Failed => Err(ReadFailed)
             case _ => Err(InvalidJson))
    decreases budget
  {
    if budget == 0 || s.incoming == [] || !GoesOn(s.incoming[0]) {
      k := 0;
      assert s.pending + Values(s.incoming[..0]) == s.pending;
    } else {
      var first := s.incoming[0];
      var next := if first.Text? then PopRead(s).(pending := s.pending + [first.json.value]) else PopRead(s);
      assert Drain(s, budget) == Drain(next, budget - 1);
      k := DrainReads(next, budget - 1);
      assert s.incoming[..k + 1] == [first] + next.incoming[..k];
      ValuesCons(first, next.incoming[..k]);
      Assoc(s.pending, ValueOf(first), Values(next.incoming[..k]));
      assert s.pending + [] == s.pending;
      k := k + 1;
    }
  }
}
