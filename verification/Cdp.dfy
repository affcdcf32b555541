/** The DevTools session: commands and their replies, matched by id over one event stream. */
module Cdp {
  import opened Wrappers
  import opened Json

  /** What one read of the socket gives. A text frame holds a JSON value or does not parse. */
  datatype Read = Text(json: Option<Value>) | OtherFrame | TimedOut | Closed | Failed

  datatype CdpError = SendFailed | ReadFailed | InvalidJson | CommandFailed(error: Value)

  /** A request as it goes out. */
  datatype Request = Request(id: int, name: string, params: Value)

  /** The session and its environment: what the coming reads and sends will give, and the requests
      that went out. Once a script is used up, reads find the connection closed and sends succeed. */
  datatype Session = Session(
    nextId: int, pending: seq<Value>, incoming: seq<Read>, sends: seq<bool>, requests: seq<Request>)

  datatype Outcome<T> = Outcome(session: Session, result: Result<T, CdpError>)

  predicate HasId(v: Value, id: int) {
    AsI64(Get(v, "id")) == Some(id)
  }

  function Reply(v: Value): Result<Value, CdpError> {
    match Get(v, "error")
    case Some(error) => Err(CommandFailed(error))
    case None => Ok(if Get(v, "result").Some? then Get(v, "result").value else Null)
  }

  function PopRead(s: Session): Session {
    s.(incoming := if s.incoming == [] then [] else s.incoming[1..])
  }

  /** Reads until the reply to `id`; every other value is queued as an event. */
  function Await(s: Session, id: int): Outcome<Value>
    decreases |s.incoming|
  {
    if s.incoming == [] then Outcome(s, Err(ReadFailed))
    else
      var next := PopRead(s);
      match s.incoming[0]
      case Text(None) => Outcome(next, Err(InvalidJson))
      case Text(Some(v)) =>
        if HasId(v, id) then Outcome(next, Reply(v))
        else Await(next.(pending := s.pending + [v]), id)
      case OtherFrame => Await(next, id)
      case _ => Outcome(next, Err(ReadFailed))
  }

  predicate Sends(s: Session) {
    s.sends == [] || s.sends[0]
  }

  /** The id is used up whether or not the request goes out. */
  function Sent(s: Session, name: string, params: Value): Session {
    s.(nextId := s.nextId + 1, sends := if s.sends == [] then [] else s.sends[1..],
       requests := if Sends(s) then s.requests + [Request(s.nextId, name, params)] else s.requests)
  }

  function Command(s: Session, name: string, params: Value): Outcome<Value> {
    if !Sends(s) then Outcome(Sent(s, name, params), Err(SendFailed))
    else Await(Sent(s, name, params), s.nextId)
  }

  /** Reads events until the stream pauses or closes, or the deadline passes after `budget` reads. */
  function Drain(s: Session, budget: nat): Outcome<()>
    decreases budget
  {
    if budget == 0 || s.incoming == [] then Outcome(s, Ok(()))
    else
      var next := PopRead(s);
      match s.incoming[0]
      case Text(None) => Outcome(next, Err(InvalidJson))
      case Text(Some(v)) => Drain(next.(pending := s.pending + [v]), budget - 1)
      case OtherFrame => Drain(next, budget - 1)
      case TimedOut => Outcome(next, Ok(()))
      case Closed => Outcome(next, Ok(()))
      case Failed => Outcome(next, Err(ReadFailed))
  }

  class CdpSession {
    var nextId: int
    var pendingEvents: seq<Value>
    var incoming: seq<Read>
    var sends: seq<bool>
    var requests: seq<Request>

    constructor Connect(incoming: seq<Read>, sends: seq<bool>)
      ensures State() == Session(1, [], incoming, sends, [])
    {
      this.nextId, this.pendingEvents, this.requests := 1, [], [];
      this.incoming, this.sends := incoming, sends;
    }

    function State(): Session
      reads this
    {
      Session(nextId, pendingEvents, incoming, sends, requests)
    }

    method ReadSocket() returns (message: Read)
      modifies this`incoming
      ensures State() == PopRead(old(State()))
      ensures message == if old(incoming) == [] then Closed else old(incoming)[0]
    {
      if incoming == [] {
        return Closed;
      }
      message := incoming[0];
      incoming := incoming[1..];
    }

    method Send(request: Request) returns (sent: bool)
      modifies this`sends, this`requests
      ensures sends == if old(sends) == [] then [] else old(sends)[1..]
      ensures sent == (old(sends) == [] || old(sends)[0])
      ensures requests == if sent then old(requests) + [request] else old(requests)
    {
      sent := true;
      if sends != [] {
        sent := sends[0];
        sends := sends[1..];
      }
      if sent {
        requests := requests + [request];
      }
    }

    method RunCommand(name: string, params: Value) returns (result: Result<Value, CdpError>)
      modifies this
      ensures Outcome(State(), result) == Command(old(State()), name, params)
    {
      var id := nextId;
      nextId := nextId + 1;
      var sent := Send(Request(id, name, params));
      if !sent {
        return Err(SendFailed);
      }
      while true
        invariant Await(State(), id) == Command(old(State()), name, params)
        decreases |incoming|
      {
        if incoming == [] {
          return Err(ReadFailed);
        }
        var message := ReadSocket();
        match message {
          case OtherFrame =>
          case Text(None) =>
            return Err(InvalidJson);
          case Text(Some(value)) =>
            if HasId(value, id) {
              return Reply(value);
            }
            pendingEvents := pendingEvents + [value];
          case _ =>
            return Err(ReadFailed);
        }
      }
    }

    method DrainEvents(budget: nat) returns (result: Result<(), CdpError>)
      modifies this
      ensures Outcome(State(), result) == Drain(old(State()), budget)
    {
      var left := budget;
      while left > 0
        invariant Drain(State(), left) == Drain(old(State()), budget)
      {
        if incoming == [] {
          return Ok(());
        }
        var message := ReadSocket();
        match message {
          case Text(None) =>
            return Err(InvalidJson);
          case Text(Some(value)) =>
            pendingEvents := pendingEvents + [value];
          case OtherFrame =>
          case TimedOut =>
            return Ok(());
          case Closed =>
            return Ok(());
          case Failed =>
            return Err(ReadFailed);
        }
        left := left - 1;
      }
      return Ok(());
    }

    method TakeEvents() returns (events: seq<Value>)
      modifies this`pendingEvents
      ensures events == old(pendingEvents) && pendingEvents == []
    {
      events := pendingEvents;
      pendingEvents := [];
    }
  }
}
