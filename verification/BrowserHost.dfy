/** The automation host: its tab list, its focus, and the browser process it owns. */
module BrowserHost {
  import opened Wrappers

  type Target = string

  datatype HostError =
    | StartFailed
    | NoSession
    | IndexOutOfBounds(index: nat)
    | DevToolsFailed
    | ActionFailed
    | BadRequest

  /** How far starting a browser gets: `start_state` step by step. */
  datatype Start = PortFails | ProfileFails | SpawnFails | WaitFails | TabFails | Starts(first: Target)

  /** Children are numbered in spawn order. `cleaned` lists those killed, in order, and `profiles`
      counts the profile directories left on disk. */
  datatype Ledger = Ledger(spawned: nat, cleaned: seq<nat>, profiles: nat)

  datatype Browser = Browser(child: nat, tabs: seq<Target>, activeIndex: nat)

  datatype Host = Host(browser: Option<Browser>, ledger: Ledger)

  function Spawned(l: Ledger): Ledger {
    l.(spawned := l.spawned + 1)
  }

  function MadeProfile(l: Ledger): Ledger {
    l.(profiles := l.profiles + 1)
  }

  /** `cleanup_browser`: kill the child and remove its profile. */
  function Cleaned(l: Ledger, child: nat): Ledger {
    l.(cleaned := l.cleaned + [child], profiles := if l.profiles > 0 then l.profiles - 1 else 0)
  }

  // ----- Specification of one call -----

  datatype Called = Called(host: Host, result: Result<(), HostError>)

  function Started(h: Host, start: Start): Called {
    match start
    case PortFails => Called(h, Err(StartFailed))
    case ProfileFails => Called(h, Err(StartFailed))
    case SpawnFails => Called(h.(ledger := MadeProfile(h.ledger)), Err(StartFailed))
    case WaitFails => Called(h.(ledger := Cleaned(Spawned(MadeProfile(h.ledger)), h.ledger.spawned)), Err(StartFailed))
    case TabFails => Called(h.(ledger := Cleaned(Spawned(MadeProfile(h.ledger)), h.ledger.spawned)), Err(StartFailed))
    case Starts(first) =>
      Called(Host(Some(Browser(h.ledger.spawned, [first], 0)), Spawned(MadeProfile(h.ledger))), Ok(()))
  }

  /** The session is taken out of the host and dropped. */
  function Dropped(h: Host): Host {
    match h.browser
    case None => h
    case Some(b) => Host(None, Cleaned(h.ledger, b.child))
  }

  function Selected(b: Browser, index: nat, activates: bool): Result<Browser, HostError> {
    if index >= |b.tabs| then Err(IndexOutOfBounds(index))
    else if !activates then Err(DevToolsFailed)
    else Ok(b.(activeIndex := index))
  }

  function Removed(tabs: seq<Target>, index: nat): seq<Target>
    requires index < |tabs|
  {
    tabs[..index] + tabs[index + 1..]
  }

  function TabClosed(b: Browser, index: nat, closes: bool): Result<Browser, HostError> {
    if index >= |b.tabs| then Err(IndexOutOfBounds(index))
    else if !closes then Err(DevToolsFailed)
    else
      var tabs := Removed(b.tabs, index);
      Ok(b.(tabs := tabs,
            activeIndex := if b.activeIndex < |tabs| then b.activeIndex else if |tabs| > 0 then |tabs| - 1 else 0))
  }

  /** The tool calls. A flag or target says how the DevTools request of the call turns out. */
  datatype Call =
    | WithState(start: Start, succeeds: bool)
    | WithExistingState(succeeds: bool)
    | Close(closes: bool)
    | CloseAll
    | TabsList(succeeds: bool)
    | TabsCreate(start: Start, created: Option<Target>, succeeds: bool)
    | TabsSelect(index: Option<nat>, activates: bool, succeeds: bool)
    | TabsClose(index: Option<nat>, closes: bool)
    | Malformed

  function ActionResult(succeeds: bool): Result<(), HostError> {
    if succeeds then Ok(()) else Err(ActionFailed)
  }

  function ClosedAt(h: Host, b: Browser, index: nat, closes: bool): Called {
    if |b.tabs| <= 1 then Called(Dropped(h), Ok(()))
    else match TabClosed(b, index, closes)
      case Ok(after) => Called(h.(browser := Some(after)), Ok(()))
      case Err(e) => Called(h, Err(e))
  }

  function Perform(h: Host, call: Call): Called {
    match call
    case WithState(start, succeeds) =>
      var ready := if h.browser.Some? then Called(h, Ok(())) else Started(h, start);
      if ready.result.Err? then ready else ready.(result := ActionResult(succeeds))
    case WithExistingState(succeeds) =>
      Called(h, if h.browser.Some? then ActionResult(succeeds) else Err(NoSession))
    case Close(closes) =>
      (match h.browser
       case None => Called(h, Ok(()))
       case Some(b) => ClosedAt(h, b, b.activeIndex, closes))
    case CloseAll => Called(Dropped(h), Ok(()))
    case TabsList(succeeds) => Called(h, if h.browser.Some? then ActionResult(succeeds) else Ok(()))
    case TabsCreate(start, created, succeeds) =>
      (match h.browser
       case None => var ready := Started(h, start); if ready.result.Err? then ready else ready.(result := ActionResult(succeeds))
       case Some(b) =>
         match created
         case None => Called(h, Err(DevToolsFailed))
         case Some(target) =>
           Called(h.(browser := Some(b.(tabs := b.tabs + [target], activeIndex := |b.tabs|))), ActionResult(succeeds)))
    case TabsSelect(index, activates, succeeds) =>
      (match h.browser
       case None => Called(h, Err(NoSession))
       case Some(b) =>
         if index.None? then Called(h, Err(BadRequest))
         else match Selected(b, index.value, activates)
           case Ok(after) => Called(h.(browser := Some(after)), ActionResult(succeeds))
           case Err(e) => Called(h, Err(e)))
    case TabsClose(index, closes) =>
      (match h.browser
       case None => Called(h, Ok(()))
       case Some(b) => ClosedAt(h, b, if index.Some? then index.value else b.activeIndex, closes))
    case Malformed => Called(h, Err(BadRequest))
  }

  // ----- The host itself -----

  class BrowserState {
    const child: nat
    var tabs: seq<Target>
    var activeIndex: nat

    constructor (child: nat, first: Target)
      ensures Value() == Browser(child, [first], 0)
    {
      this.child := child;
      tabs, activeIndex := [first], 0;
    }

    function Value(): Browser
      reads this
    {
      Browser(child, tabs, activeIndex)
    }

    method SelectTab(index: nat, activates: bool) returns (result: Result<(), HostError>)
      modifies this
      ensures match Selected(old(Value()), index, activates)
        case Ok(after) => result == Ok(()) && Value() == after
        case Err(e) => result == Err(e) && Value() == old(Value())
    {
      if index >= |tabs| {
        return Err(IndexOutOfBounds(index));
      }
      if !activates {
        return Err(DevToolsFailed);
      }
      activeIndex := index;
      return Ok(());
    }

    method CloseTab(index: nat, closes: bool) returns (result: Result<(), HostError>)
      modifies this
      ensures match TabClosed(old(Value()), index, closes)
        case Ok(after) => result == Ok(()) && Value() == after
        case Err(e) => result == Err(e) && Value() == old(Value())
    {
      if index >= |tabs| {
        return Err(IndexOutOfBounds(index));
      }
      if !closes {
        return Err(DevToolsFailed);
      }
      tabs := tabs[..index] + tabs[index + 1..];
      if activeIndex >= |tabs| {
        activeIndex := if |tabs| > 0 then |tabs| - 1 else 0;
      }
      return Ok(());
    }
  }

  class ChromiumHost {
    var state: BrowserState?
    var ledger: Ledger

    constructor ()
      ensures Value() == Host(None, Ledger(0, [], 0))
    {
      state, ledger := null, Ledger(0, [], 0);
    }

    function Value(): Host
      reads this, state
    {
      Host(if state == null then None else Some(state.Value()), ledger)
    }

    method StartState(start: Start) returns (browser: BrowserState?, result: Result<(), HostError>)
      modifies this`ledger
      ensures var started := Started(Host(None, old(ledger)), start);
        && ledger == started.host.ledger && result == started.result
        && (browser == null <==> started.host.browser.None?)
        && (browser != null ==> fresh(browser) && browser.Value() == started.host.browser.value)
    {
      browser := null;
      if start.PortFails? || start.ProfileFails? {
        return null, Err(StartFailed);
      }
      ledger := MadeProfile(ledger);
      if start.SpawnFails? {
        return null, Err(StartFailed);
      }
      var child := ledger.spawned;
      ledger := Spawned(ledger);
      if start.WaitFails? || start.TabFails? {
        ledger := Cleaned(ledger, child);
        return null, Err(StartFailed);
      }
      browser := new BrowserState(child, start.first);
      result := Ok(());
    }

    /** Starts a session unless there is one. */
    method EnsureState(start: Start) returns (result: Result<(), HostError>)
      modifies this
      ensures Called(Value(), result) == if old(state) != null then Called(old(Value()), Ok(())) else Started(old(Value()), start)
    {
      if state != null {
        return Ok(());
      }
      state, result := StartState(start);
    }

    method TakeState()
      modifies this
      ensures Value() == Dropped(old(Value()))
    {
      if state != null {
        ledger := Cleaned(ledger, state.child);
        state := null;
      }
    }

    method CloseAt(index: nat, closes: bool) returns (result: Result<(), HostError>)
      requires state != null
      modifies this, state
      ensures Called(Value(), result) == ClosedAt(old(Value()), old(state.Value()), index, closes)
    {
      if |state.tabs| <= 1 {
        TakeState();
        return Ok(());
      }
      result := state.CloseTab(index, closes);
    }

    method CreateTab(created: Option<Target>) returns (result: Result<(), HostError>)
      requires state != null
      modifies state
      ensures match created
        case None => result == Err(DevToolsFailed) && Value() == old(Value())
        case Some(target) => result == Ok(()) && Value() == old(Value()).(browser :=
          Some(old(state.Value()).(tabs := old(state.tabs) + [target], activeIndex := |old(state.tabs)|)))
    {
      if created.None? {
        return Err(DevToolsFailed);
      }
      state.tabs := state.tabs + [created.value];
      state.activeIndex := |state.tabs| - 1;
      return Ok(());
    }

    method ExecuteBrowserTool(call: Call) returns (result: Result<(), HostError>)
      modifies this, state
      ensures Called(Value(), result) == Perform(old(Value()), call)
    {
      match call {
        case WithState(start, succeeds) =>
          result := EnsureState(start);
          if result.Ok? {
            result := ActionResult(succeeds);
          }
        case WithExistingState(succeeds) =>
          result := if state == null then Err(NoSession) else ActionResult(succeeds);
        case Close(closes) =>
          if state == null {
            return Ok(());
          }
          result := CloseAt(state.activeIndex, closes);
        case CloseAll =>
          TakeState();
          result := Ok(());
        case TabsList(succeeds) =>
          result := if state == null then Ok(()) else ActionResult(succeeds);
        case TabsCreate(start, created, succeeds) =>
          if state == null {
            result := EnsureState(start);
          } else {
            result := CreateTab(created);
          }
          if result.Ok? {
            result := ActionResult(succeeds);
          }
        case TabsSelect(index, activates, succeeds) =>
          if state == null {
            return Err(NoSession);
          }
          if index.None? {
            return Err(BadRequest);
          }
          result := state.SelectTab(index.value, activates);
          if result.Ok? {
            result := ActionResult(succeeds);
          }
        case TabsClose(index, closes) =>
          if state == null {
            return Ok(());
          }
          result := CloseAt(if index.Some? then index.value else state.activeIndex, closes);
        case Malformed =>
          result := Err(BadRequest);
      }
    }
  }

  // ----- Invariants over runs -----

  ghost predicate Distinct(s: seq<nat>) {
    forall i, j :: 0 <= i < j < |s| ==> s[i] != s[j]
  }

  /** The children that were spawned and not cleaned up. */
  ghost function Live(l: Ledger): set<nat> {
    set c: nat | c < l.spawned && c !in l.cleaned
  }

  /** The host's promises: a session has tabs and a tab in focus, and exactly its own browser
      process is alive. */
  ghost predicate Sound(h: Host) {
    && (h.browser.Some? ==> h.browser.value.activeIndex < |h.browser.value.tabs|)
    && Live(h.ledger) == (if h.browser.Some? then {h.browser.value.child} else {})
    && Distinct(h.ledger.cleaned)
    && (forall i :: 0 <= i < |h.ledger.cleaned| ==> h.ledger.cleaned[i] < h.ledger.spawned)
  }

  /** A call that starts a browser fails to spawn it, and leaves its profile directory behind. */
  predicate LeavesProfile(h: Host, call: Call) {
    h.browser.None? && (call.WithState? || call.TabsCreate?) && call.start.SpawnFails?
  }

  ghost function Held(h: Host): nat {
    if h.browser.Some? then 1 else 0
  }

  lemma StartedSound(h: Host, start: Start)
    requires Sound(h) && h.browser.None?
    ensures Sound(Started(h, start).host)
  {
    var child, after := h.ledger.spawned, Started(h, start).host;
    assert child !in h.ledger.cleaned;
    forall c: nat ensures c in Live(after.ledger) <==> after.browser.Some? && c == child {
      assert c in Live(h.ledger) <==> c < child && c !in h.ledger.cleaned;
    }
  }

  lemma DroppedSound(h: Host)
    requires Sound(h)
    ensures Sound(Dropped(h))
  {
    if h.browser.Some? {
      var child, after := h.browser.value.child, Dropped(h);
      assert child in Live(h.ledger);
      forall c: nat ensures c !in Live(after.ledger) {
        assert c in Live(h.ledger) <==> c == child;
      }
    }
  }

  lemma PerformSound(h: Host, call: Call)
    requires Sound(h)
    ensures Sound(Perform(h, call).host)
  {
    if h.browser.None? && (call.WithState? || call.TabsCreate?) {
      StartedSound(h, call.start);
    }
    DroppedSound(h);
  }

  function RunCalls(h: Host, calls: seq<Call>): Host {
    if calls == [] then h else Perform(RunCalls(h, calls[..|calls| - 1]), calls[|calls| - 1]).host
  }

  const FRESH_HOST := Host(None, Ledger(0, [], 0))

  /** Main result: after every sequence of tool calls, failing ones included, the session has a tab
      in focus, the only live child is the session's, and no child was cleaned up twice. */
  lemma {:induction false} RunSound(calls: seq<Call>)
    ensures Sound(RunCalls(FRESH_HOST, calls))
  {
    if calls == [] {
    } else {
      RunSound(calls[..|calls| - 1]);
      PerformSound(RunCalls(FRESH_HOST, calls[..|calls| - 1]), calls[|calls| - 1]);
    }
  }

  /** How many calls of a run left a profile directory behind. */
  function LeftProfiles(calls: seq<Call>): nat {
    if calls == [] then 0
    else
      var last := |calls| - 1;
      LeftProfiles(calls[..last]) + if LeavesProfile(RunCalls(FRESH_HOST, calls[..last]), calls[last]) then 1 else 0
  }

  lemma ProfilesStep(h: Host, call: Call)
    requires h.ledger.profiles >= Held(h)
    ensures var after := Perform(h, call).host;
      after.ledger.profiles + Held(h) == h.ledger.profiles + Held(after) + if LeavesProfile(h, call) then 1 else 0
  {}

  /** Profile directories on disk: the session's own, and one for each failed spawn. */
  lemma {:induction false} ProfilesCounted(calls: seq<Call>)
    ensures var h := RunCalls(FRESH_HOST, calls); h.ledger.profiles == Held(h) + LeftProfiles(calls)
  {
    if calls == [] {
    } else {
      var last := |calls| - 1;
      ProfilesCounted(calls[..last]);
      ProfilesStep(RunCalls(FRESH_HOST, calls[..last]), calls[last]);
    }
  }

  /** Dropping the host leaves no live child. */
  lemma DropLeavesNone(calls: seq<Call>)
    ensures Live(Dropped(RunCalls(FRESH_HOST, calls)).ledger) == {}
  {
    RunSound(calls);
    DroppedSound(RunCalls(FRESH_HOST, calls));
  }

  // ----- Closing -----

  /** `after` is `tabs` without the one at `index`. */
  ghost predicate Without(tabs: seq<Target>, index: nat, after: seq<Target>) {
    && index < |tabs| && |after| == |tabs| - 1
    && (forall k :: 0 <= k < index ==> after[k] == tabs[k])
    && forall k :: index <= k < |after| ==> after[k] == tabs[k + 1]
  }

  /** The session is gone, and its browser process was cleaned up last. */
  ghost predicate Ended(h: Host, after: Host) {
    && h.browser.Some? && after.browser.None?
    && after.ledger.cleaned == h.ledger.cleaned + [h.browser.value.child] && after.ledger.spawned == h.ledger.spawned
  }

  /** What closing the tab at `index` leaves: no session where it was the only tab; else the other tabs,
      with the focus where it was, or on the last tab if there are not that many. */
  ghost predicate ClosedTab(h: Host, index: nat, closes: bool, called: Called)
    requires h.browser.Some?
  {
    var b := h.browser.value;
    if |b.tabs| <= 1 then Ended(h, called.host) && called.result == Ok(())
    else if index >= |b.tabs| then called == Called(h, Err(IndexOutOfBounds(index)))
    else if !closes then called == Called(h, Err(DevToolsFailed))
    else
      && called.result == Ok(()) && called.host.ledger == h.ledger && called.host.browser.Some?
      && called.host.browser.value.child == b.child && Without(b.tabs, index, called.host.browser.value.tabs)
      && called.host.browser.value.activeIndex == if b.activeIndex < |b.tabs| - 1 then b.activeIndex else |b.tabs| - 2
  }

  /** What each of the three closing calls does: `Close` takes the tab in focus, `TabsClose` the one it
      names or else the one in focus, and `CloseAll` the whole session. */
  lemma ClosesExactly(h: Host, index: Option<nat>, closes: bool)
    requires Sound(h)
    ensures h.browser.None? ==> Perform(h, Close(closes)) == Perform(h, TabsClose(index, closes)) == Called(h, Ok(()))
    ensures h.browser.Some? ==> ClosedTab(h, h.browser.value.activeIndex, closes, Perform(h, Close(closes)))
    ensures h.browser.Some? ==>
      ClosedTab(h, if index.Some? then index.value else h.browser.value.activeIndex, closes, Perform(h, TabsClose(index, closes)))
    ensures Perform(h, CloseAll).result == Ok(())
    ensures if h.browser.Some? then Ended(h, Perform(h, CloseAll).host) else Perform(h, CloseAll).host == h
  {}

  /** A call that needs a session starts one exactly where there is none, with one tab in focus. */
  lemma StartsExactly(h: Host, first: Target, created: Option<Target>, succeeds: bool)
    requires h.browser.None?
    ensures Perform(h, WithState(Starts(first), succeeds)).host.browser == Some(Browser(h.ledger.spawned, [first], 0))
    ensures Perform(h, TabsCreate(Starts(first), created, succeeds)).host.browser == Some(Browser(h.ledger.spawned, [first], 0))
    ensures Perform(h, WithExistingState(succeeds)) == Called(h, Err(NoSession))
  {}

  /** When each call succeeds. */
  lemma SucceedsExactly(h: Host, call: Call)
    requires Sound(h)
    ensures var b := h.browser;
      Perform(h, call).result.Ok? <==> match call
        case WithState(start, succeeds) => (b.Some? || start.Starts?) && succeeds
        case WithExistingState(succeeds) => b.Some? && succeeds
        case Close(closes) => b.None? || |b.value.tabs| == 1 || closes
        case CloseAll => true
        case TabsList(succeeds) => b.None? || succeeds
        case TabsCreate(start, created, succeeds) => (if b.None? then start.Starts? else created.Some?) && succeeds
        case TabsSelect(index, activates, succeeds) =>
          b.Some? && index.Some? && index.value < |b.value.tabs| && activates && succeeds
        case TabsClose(index, closes) =>
          b.None? || |b.value.tabs| == 1 || ((index.Some? ==> index.value < |b.value.tabs|) && closes)
        case Malformed => false
  {}

  // ----- Focus -----

  /** Which tab is in focus after closing tab `index`. */
  lemma FocusAfterClose(b: Browser, index: nat)
    requires 1 < |b.tabs| && b.activeIndex < |b.tabs| && index < |b.tabs|
    ensures TabClosed(b, index, true).Ok?
    ensures var after := TabClosed(b, index, true).value;
      var n, a := |b.tabs|, b.activeIndex;
      && after.activeIndex < |after.tabs|
      && after.tabs[after.activeIndex] ==
        (if a < index then b.tabs[a]
         else if a < n - 1 then b.tabs[a + 1]
         else if index < a then b.tabs[n - 1] else b.tabs[n - 2])
  {}

  /** Closing another tab keeps the focus exactly when that tab comes after the focused one, or the
      focused tab is the last. */
  lemma FocusKept(b: Browser, index: nat)
    requires 1 < |b.tabs| && b.activeIndex < |b.tabs| && index < |b.tabs| && index != b.activeIndex
    requires forall i, j :: 0 <= i < j < |b.tabs| ==> b.tabs[i] != b.tabs[j]
    ensures var after := TabClosed(b, index, true).value;
      after.tabs[after.activeIndex] == b.tabs[b.activeIndex] <==> b.activeIndex < index || b.activeIndex == |b.tabs| - 1
  {
    FocusAfterClose(b, index);
  }

  /** The target in focus. */
  function Focus(h: Host): Option<Target> {
    if h.browser.Some? && h.browser.value.activeIndex < |h.browser.value.tabs|
    then Some(h.browser.value.tabs[h.browser.value.activeIndex]) else None
  }

  /** A created tab is appended and gets the focus; a selected tab gets it and nothing else moves. */
  lemma FocusMoves(h: Host, start: Start, created: Target, index: nat, succeeds: bool)
    requires Sound(h) && h.browser.Some? && index < |h.browser.value.tabs|
    ensures var after := Perform(h, TabsCreate(start, Some(created), succeeds)).host;
      Focus(after) == Some(created) && after.browser.value.tabs == h.browser.value.tabs + [created]
    ensures var after := Perform(h, TabsSelect(Some(index), true, succeeds)).host;
      Focus(after) == Some(h.browser.value.tabs[index]) && after.browser.value.tabs == h.browser.value.tabs
  {}

  /** A call that fails before its action ran leaves the session as it was. */
  lemma FailureKeepsSession(h: Host, call: Call)
    requires Perform(h, call).result.Err? && !Perform(h, call).result.error.ActionFailed?
    ensures Perform(h, call).host.browser == h.browser
    ensures h.browser.Some? ==> Perform(h, call).host.ledger == h.ledger
  {}
}
