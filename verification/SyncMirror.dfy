/** Synchronization of an output directory: the plan, the reconciliation, and the dry run. */
module SyncMirror {
  import opened Wrappers
  import opened Utf8

  type Content = seq<Byte>

  // ----- File names -----

  /** The position of the last dot, or `|name|`. */
  function LastDot(name: string): (i: nat)
    ensures i <= |name|
    ensures i < |name| ==> name[i] == '.'
    ensures forall k :: i < k < |name| ==> name[k] != '.'
    ensures i == |name| ==> forall k :: 0 <= k < |name| ==> name[k] != '.'
  {
    if name == "" then 0
    else
      var last := |name| - 1;
      if name[last] == '.' then last
      else
        var i := LastDot(name[..last]);
        if i == last then |name| else i
  }

  /** A name has a suffix if its last dot is neither its first nor its last character. */
  function Suffix(name: string): string {
    var i := LastDot(name);
    if 0 < i < |name| - 1 then name[i..] else ""
  }

  function Stem(name: string): string {
    name[..|name| - |Suffix(name)|]
  }

  lemma SuffixOf(stem: string, suffix: string)
    requires stem != "" && |suffix| > 1 && suffix[0] == '.'
    requires forall k :: 1 <= k < |suffix| ==> suffix[k] != '.'
    ensures Suffix(stem + suffix) == suffix
  {
    var name := stem + suffix;
    assert name[|stem|] == '.';
    assert forall k :: |stem| < k < |name| ==> name[k] == suffix[k - |stem|];
    assert LastDot(name) == |stem|;
  }

  /** How names are lower-cased; plain lower-case suffixes stay as they are. */
  type Lowering = string -> string

  predicate KeepsLower(lower: Lowering) {
    lower("") == "" && lower(".js") == ".js" && lower(".toolpkg") == ".toolpkg"
  }

  predicate Syncable(lower: Lowering, name: string) {
    lower(Suffix(name)) == ".js" || lower(Suffix(name)) == ".toolpkg"
  }

  // ----- The plan -----

  datatype Mode = Copy | CompileTs | CopyScriptToolpkg | Pack

  /** What the item's copy or pack step finds: the content to write, or None where the step raises. */
  datatype PlanItem = PlanItem(mode: Mode, destination: string, content: Option<Content>)

  /** A child of the source directory: a file, or a directory with or without a manifest. The contents
      are those its copy, compile or pack step would produce. */
  datatype SourceChild =
    | SourceFile(name: string, content: Content, compiled: Option<Content>)
    | SourceDirectory(name: string, hasManifest: bool, scriptPacked: bool, archive: Option<Content>)

  predicate EndsWith(name: string, ending: string) {
    |ending| <= |name| && name[|name| - |ending|..] == ending
  }

  function PlanFor(lower: Lowering, child: SourceChild): seq<PlanItem> {
    if child.name == "types" || child.name == "node_modules" then []
    else match child
      case SourceFile(name, content, compiled) =>
        if Syncable(lower, name) then [PlanItem(Copy, name, Some(content))]
        else if lower(Suffix(name)) == ".ts" && !EndsWith(name, ".d.ts") then [PlanItem(CompileTs, Stem(name) + ".js", compiled)]
        else []
      case SourceDirectory(name, hasManifest, scriptPacked, archive) =>
        if hasManifest then [PlanItem(if scriptPacked then CopyScriptToolpkg else Pack, name + ".toolpkg", archive)] else []
  }

  function Plan(lower: Lowering, children: seq<SourceChild>): seq<PlanItem> {
    if children == [] then []
    else Plan(lower, children[..|children| - 1]) + PlanFor(lower, children[|children| - 1])
  }

  /** The children come sorted by lower-cased name. */
  method CollectSyncPlan(lower: Lowering, children: seq<SourceChild>) returns (plans: seq<PlanItem>)
    ensures plans == Plan(lower, children)
  {
    plans := [];
    for i := 0 to |children|
      invariant plans == Plan(lower, children[..i])
    {
      assert children[..i + 1][..i] == children[..i];
      var child := children[i];
      if child.name == "types" || child.name == "node_modules" {
        continue;
      }
      if child.SourceFile? && Syncable(lower, child.name) {
        plans := plans + [PlanItem(Copy, child.name, Some(child.content))];
      } else if child.SourceFile? && lower(Suffix(child.name)) == ".ts" && !EndsWith(child.name, ".d.ts") {
        plans := plans + [PlanItem(CompileTs, Stem(child.name) + ".js", child.compiled)];
      } else if child.SourceDirectory? && child.hasManifest {
        plans := plans + [PlanItem(if child.scriptPacked then CopyScriptToolpkg else Pack, child.name + ".toolpkg", child.archive)];
      }
    }
    assert children[..|children|] == children;
  }

  ghost predicate AllSyncable(lower: Lowering, plans: seq<PlanItem>) {
    forall i :: 0 <= i < |plans| ==> Syncable(lower, plans[i].destination)
  }

  lemma PlanForSyncable(lower: Lowering, child: SourceChild)
    requires KeepsLower(lower) && child.name != ""
    ensures AllSyncable(lower, PlanFor(lower, child))
  {
    match child
    case SourceFile(name, content, compiled) =>
      if lower(Suffix(name)) == ".ts" {
        SuffixOf(Stem(name), ".js");
      }
    case SourceDirectory(name, hasManifest, scriptPacked, archive) =>
      SuffixOf(name, ".toolpkg");
  }

  /** Every planned destination is a syncable name. */
  lemma {:induction false} PlanSyncable(lower: Lowering, children: seq<SourceChild>)
    requires KeepsLower(lower) && forall i :: 0 <= i < |children| ==> children[i].name != ""
    ensures AllSyncable(lower, Plan(lower, children))
  {
    if children != [] {
      PlanSyncable(lower, children[..|children| - 1]);
      PlanForSyncable(lower, children[|children| - 1]);
    }
  }

  // ----- The output directory -----

  datatype Entry = File(content: Content) | Directory(inside: map<string, Content>)

  /** The directory's entries, or None while it does not exist. */
  type Output = Option<map<string, Entry>>

  datatype SyncError = SourceMissing(name: string) | SameFile(name: string) | DestinationIsDirectory(name: string)

  datatype Counts = Counts(copied: nat, packed: nat, deleted: nat)

  function PlannedNames(plans: seq<PlanItem>): set<string> {
    set i | 0 <= i < |plans| :: plans[i].destination
  }

  predicate IsUnplanned(lower: Lowering, out: map<string, Entry>, planned: set<string>, name: string)
    requires name in out
  {
    out[name].File? && Syncable(lower, name) && name !in planned
  }

  /** The syncable files that the plan does not name. */
  function Unplanned(lower: Lowering, out: map<string, Entry>, planned: set<string>): set<string> {
    set name | name in out && IsUnplanned(lower, out, planned, name)
  }

  function Entries(out: Output): map<string, Entry> {
    match out
    case None => map[]
    case Some(entries) => entries
  }

  /** Writing one item. A copy onto a directory lands inside it; packing onto one raises. With
      `shared` the compiler writes into the output directory itself, so that a compiled file would be
      copied onto itself. */
  function Written(entries: map<string, Entry>, item: PlanItem, shared: bool): Result<map<string, Entry>, SyncError> {
    if item.mode.CompileTs? && shared then
      Err(if item.destination in entries && entries[item.destination].File?
          then SameFile(item.destination) else SourceMissing(item.destination))
    else if item.content.None? then Err(SourceMissing(item.destination))
    else if item.destination in entries && entries[item.destination].Directory? then
      if item.mode.Pack? then Err(DestinationIsDirectory(item.destination))
      else Ok(entries[item.destination := Directory(entries[item.destination].inside[item.destination := item.content.value])])
    else Ok(entries[item.destination := File(item.content.value)])
  }

  /** Writing the items from `k` on. */
  function WrittenFrom(entries: map<string, Entry>, plans: seq<PlanItem>, k: nat, shared: bool): Result<map<string, Entry>, SyncError>
    decreases |plans| - k
  {
    if k >= |plans| then Ok(entries)
    else match Written(entries, plans[k], shared)
      case Err(e) => Err(e)
      case Ok(next) => WrittenFrom(next, plans, k + 1, shared)
  }

  function Copies(plans: seq<PlanItem>): (n: nat)
    ensures n <= |plans|
  {
    if plans == [] then 0
    else
      var last := |plans| - 1;
      Copies(plans[..last]) + if plans[last].mode.Copy? || plans[last].mode.CompileTs? then 1 else 0
  }

  function SyncCounts(lower: Lowering, out: Output, plans: seq<PlanItem>): Counts {
    Counts(Copies(plans), |plans| - Copies(plans), |Unplanned(lower, Entries(out), PlannedNames(plans))|)
  }

  lemma MinusNone(m: map<string, Entry>)
    ensures m - {} == m
  {}

  lemma MinusOne(m: map<string, Entry>, gone: set<string>, name: string)
    ensures m - gone - {name} == m - (gone + {name})
  {}

  class OutputDirectory {
    var output: Output

    constructor (output: Output)
      ensures this.output == output
    {
      this.output := output;
    }

    method DeleteUnplannedOutputs(lower: Lowering, planned: set<string>, dry: bool) returns (deleted: nat)
      modifies this
      ensures var gone := Unplanned(lower, Entries(old(output)), planned);
        && deleted == |gone|
        && output == if dry || old(output).None? then old(output) else Some(Entries(old(output)) - gone)
    {
      if output.None? {
        assert Unplanned(lower, Entries(output), planned) == {};
        return 0;
      }
      var listing := output.value;
      MinusNone(listing);
      var names, gone: set<string> := listing.Keys, {};
      deleted := 0;
      while names != {}
        invariant names <= listing.Keys
        invariant forall name :: name in gone <==> name in listing && name !in names && IsUnplanned(lower, listing, planned, name)
        invariant deleted == |gone|
        invariant output == Some(if dry then listing else listing - gone)
        decreases names
      {
        var name :| name in names;
        names := names - {name};
        if IsUnplanned(lower, listing, planned, name) {
          if !dry {
            output := Some(output.value - {name});
            MinusOne(listing, gone, name);
          }
          gone := gone + {name};
          deleted := deleted + 1;
        }
      }
      assert gone == Unplanned(lower, listing, planned);
    }

    method Sync(lower: Lowering, plans: seq<PlanItem>, shared: bool, dry: bool) returns (result: Result<Counts, SyncError>)
      modifies this
      ensures dry ==> output == old(output) && result == Ok(SyncCounts(lower, old(output), plans))
      ensures !dry ==>
        match WrittenFrom(Entries(old(output)) - Unplanned(lower, Entries(old(output)), PlannedNames(plans)), plans, 0, shared)
        case Ok(entries) => output == Some(entries) && result == Ok(SyncCounts(lower, old(output), plans))
        case Err(e) => result == Err(e)
    {
      if !dry && output.None? {
        output := Some(map[]);
      }
      var planned := set i | 0 <= i < |plans| :: plans[i].destination;
      var deleted := DeleteUnplannedOutputs(lower, planned, dry);
      ghost var written := WrittenFrom(Entries(old(output)) - Unplanned(lower, Entries(old(output)), planned), plans, 0, shared);
      var copied, packed := 0, 0;
      for i := 0 to |plans|
        invariant copied == Copies(plans[..i]) && packed == i - copied
        invariant dry ==> output == old(output)
        invariant !dry ==> output.Some? && WrittenFrom(output.value, plans, i, shared) == written
      {
        assert plans[..i + 1][..i] == plans[..i];
        if !dry {
          var next := Written(output.value, plans[i], shared);
          if next.Err? {
            return Err(next.error);
          }
          output := Some(next.value);
        }
        if plans[i].mode.Copy? || plans[i].mode.CompileTs? {
          copied := copied + 1;
        } else {
          packed := packed + 1;
        }
      }
      assert plans[..|plans|] == plans;
      return Ok(Counts(copied, packed, deleted));
    }
  }

  // ----- What a real synchronization leaves -----

  /** The content of the last item for a name, from position `k` on. */
  function LastContent(plans: seq<PlanItem>, name: string): Option<Content> {
    if plans == [] then None
    else
      var last := |plans| - 1;
      if plans[last].destination == name then plans[last].content else LastContent(plans[..last], name)
  }

  ghost predicate Names(plans: seq<PlanItem>, name: string) {
    exists i :: 0 <= i < |plans| && plans[i].destination == name
  }

  /** What a directory entry becomes when the items are written, in order, onto it. */
  ghost predicate Became(before: Option<Entry>, plans: seq<PlanItem>, name: string, after: Option<Entry>) {
    if !Names(plans, name) then after == before
    else if before.Some? && before.value.Directory? then after.Some? && after.value.Directory?
    else after.Some? && LastContent(plans, name).Some? && after.value == File(LastContent(plans, name).value)
  }

  function Lookup(entries: map<string, Entry>, name: string): Option<Entry> {
    if name in entries then Some(entries[name]) else None
  }

  lemma BecameSnoc(
      before: Option<Entry>, plans: seq<PlanItem>, item: PlanItem, name: string, middle: map<string, Entry>,
      after: map<string, Entry>, shared: bool)
    requires Became(before, plans, name, Lookup(middle, name))
    requires Written(middle, item, shared) == Ok(after)
    ensures Became(before, plans + [item], name, Lookup(after, name))
  {
    var longer := plans + [item];
    assert longer[..|plans|] == plans;
    assert longer[|plans|] == item;
    if Names(plans, name) {
      var i :| 0 <= i < |plans| && plans[i].destination == name;
      assert longer[i].destination == name;
    }
    if Names(longer, name) && item.destination != name {
      var i :| 0 <= i < |longer| && longer[i].destination == name;
      assert plans[i].destination == name;
    }
  }

  lemma {:induction false} WrittenBecomes(
      entries: map<string, Entry>, current: map<string, Entry>, plans: seq<PlanItem>, k: nat, shared: bool,
      name: string)
    requires k <= |plans| && Became(Lookup(entries, name), plans[..k], name, Lookup(current, name))
    requires WrittenFrom(current, plans, k, shared).Ok?
    ensures Became(Lookup(entries, name), plans, name, Lookup(WrittenFrom(current, plans, k, shared).value, name))
    decreases |plans| - k
  {
    if k == |plans| {
      assert plans[..k] == plans;
    } else {
      var next := Written(current, plans[k], shared).value;
      assert plans[..k + 1] == plans[..k] + [plans[k]];
      BecameSnoc(Lookup(entries, name), plans[..k], plans[k], name, current, next, shared);
      WrittenBecomes(entries, next, plans, k + 1, shared, name);
    }
  }

  lemma PlannedNamed(plans: seq<PlanItem>, name: string)
    ensures name in PlannedNames(plans) <==> Names(plans, name)
  {}

  /** A synchronization that succeeds took `before` to `after`. */
  ghost predicate Synced(lower: Lowering, before: map<string, Entry>, plans: seq<PlanItem>, shared: bool, after: map<string, Entry>) {
    WrittenFrom(before - Unplanned(lower, before, PlannedNames(plans)), plans, 0, shared) == Ok(after)
  }

  /** Main result on entries: planned names hold the result of their last item, unplanned syncable
      files are gone, and everything else is as it was. */
  lemma SyncedEntry(
      lower: Lowering, before: map<string, Entry>, plans: seq<PlanItem>, shared: bool,
      after: map<string, Entry>, name: string)
    requires Synced(lower, before, plans, shared, after)
    ensures
      if name in PlannedNames(plans) then
        (if name in before && before[name].Directory? then name in after && after[name].Directory?
         else LastContent(plans, name).Some? && Lookup(after, name) == Some(File(LastContent(plans, name).value)))
      else if name in Unplanned(lower, before, PlannedNames(plans)) then name !in after
      else Lookup(after, name) == Lookup(before, name)
  {
    var kept := before - Unplanned(lower, before, PlannedNames(plans));
    assert plans[..0] == [];
    WrittenBecomes(kept, kept, plans, 0, shared, name);
    PlannedNamed(plans, name);
  }

  function SyncableFiles(lower: Lowering, entries: map<string, Entry>): set<string> {
    set name | name in entries && entries[name].File? && Syncable(lower, name)
  }

  /** Main result on the directory: after a successful run its syncable files are exactly the planned
      names, unless and only unless a planned name was a directory. */
  lemma SyncMirrors(lower: Lowering, before: map<string, Entry>, plans: seq<PlanItem>, shared: bool, after: map<string, Entry>)
    requires Synced(lower, before, plans, shared, after) && AllSyncable(lower, plans)
    ensures SyncableFiles(lower, after) == PlannedNames(plans) <==>
      forall name :: name in PlannedNames(plans) && name in before ==> before[name].File?
  {
    forall name
      ensures name in SyncableFiles(lower, after) <==> name in PlannedNames(plans) && (name in before ==> before[name].File?)
    {
      SyncedEntry(lower, before, plans, shared, after, name);
    }
  }

  /** A second run finds nothing to delete. */
  lemma SecondRunDeletesNothing(lower: Lowering, before: map<string, Entry>, plans: seq<PlanItem>, shared: bool, after: map<string, Entry>)
    requires Synced(lower, before, plans, shared, after)
    ensures Unplanned(lower, after, PlannedNames(plans)) == {}
  {
    forall name ensures name !in Unplanned(lower, after, PlannedNames(plans)) {
      SyncedEntry(lower, before, plans, shared, after, name);
    }
  }

  // ----- When a synchronization succeeds -----

  /** Nothing about the item makes its step raise, given what the directory holds. */
  predicate CanWrite(entries: map<string, Entry>, item: PlanItem, shared: bool) {
    && item.content.Some? && !(item.mode.CompileTs? && shared)
    && !(item.mode.Pack? && item.destination in entries && entries[item.destination].Directory?)
  }

  /** Main result on success: the items from `k` on are written exactly when each can be written into
      the directory as it is at the start. Writing one never gets in the way of another. */
  lemma {:induction false} WrittenExactly(entries: map<string, Entry>, plans: seq<PlanItem>, k: nat, shared: bool)
    requires k <= |plans|
    ensures WrittenFrom(entries, plans, k, shared).Ok? <==> forall i :: k <= i < |plans| ==> CanWrite(entries, plans[i], shared)
    decreases |plans| - k
  {
    if k < |plans| {
      var written := Written(entries, plans[k], shared);
      if written.Ok? {
        WrittenExactly(written.value, plans, k + 1, shared);
        assert forall i :: k < i < |plans| ==>
          CanWrite(written.value, plans[i], shared) == CanWrite(entries, plans[i], shared);
      } else {
        assert !CanWrite(entries, plans[k], shared);
      }
    }
  }

  /** A synchronization of `before` succeeds exactly when every item can be written there. */
  lemma SyncsExactly(lower: Lowering, before: map<string, Entry>, plans: seq<PlanItem>, shared: bool)
    ensures (exists after :: Synced(lower, before, plans, shared, after)) <==>
      forall i :: 0 <= i < |plans| ==> CanWrite(before, plans[i], shared)
  {
    var kept := before - Unplanned(lower, before, PlannedNames(plans));
    WrittenExactly(kept, plans, 0, shared);
    forall i | 0 <= i < |plans| ensures CanWrite(kept, plans[i], shared) == CanWrite(before, plans[i], shared) {
      var name := plans[i].destination;
      assert name in kept <==> name in before && name !in Unplanned(lower, before, PlannedNames(plans));
    }
    if WrittenFrom(kept, plans, 0, shared).Ok? {
      assert Synced(lower, before, plans, shared, WrittenFrom(kept, plans, 0, shared).value);
    }
  }

  /** Where the compiler writes into the output directory itself, a plan with a compiled script never
      synchronizes. */
  lemma SharedNeverSyncs(entries: map<string, Entry>, plans: seq<PlanItem>, k: nat, i: nat)
    requires k <= i < |plans| && plans[i].mode.CompileTs?
    ensures WrittenFrom(entries, plans, k, true).Err?
  {
    WrittenExactly(entries, plans, k, true);
  }

  /** There, a plan synchronizes exactly when it compiles no script and could be synchronized into a
      directory of its own. */
  lemma SharedExactly(lower: Lowering, before: map<string, Entry>, plans: seq<PlanItem>)
    ensures (exists after :: Synced(lower, before, plans, true, after)) <==>
      forall i :: 0 <= i < |plans| ==> !plans[i].mode.CompileTs? && CanWrite(before, plans[i], false)
  {
    SyncsExactly(lower, before, plans, true);
    assert forall i :: 0 <= i < |plans| ==>
      (CanWrite(before, plans[i], true) <==> !plans[i].mode.CompileTs? && CanWrite(before, plans[i], false));
  }
}
