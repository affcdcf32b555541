/** A whole run of the sync tool: what a synchronization writes after the prebuild step finished. */
module SyncedBuild {
  import opened Wrappers
  import opened IncrementalBuild
  import opened BuildSoundness
  import opened SyncMirror
  import opened SyncPlanning

  function FileAt(files: Files, path: string): Option<Content> {
    if path in files then Some(files[path]) else None
  }

  /** Where a script-packed child leaves its archive. */
  function ArchivePath(name: string): string {
    "dist/" + name + ".toolpkg"
  }

  predicate IsScript(lower: Lowering, name: string) {
    lower(Suffix(name)) == ".ts" && !EndsWith(name, ".d.ts")
  }

  /** The copy steps find what the prebuild step left. */
  ghost predicate FromBuild(lower: Lowering, children: seq<SourceChild>, w: Workspace) {
    forall i :: 0 <= i < |children| ==> match children[i]
      case SourceFile(name, content, compiled) => compiled == FileAt(Dir(w, ROOT_UNIT), Stem(name) + ".js")
      case SourceDirectory(name, hasManifest, scriptPacked, archive) =>
        scriptPacked ==> archive == FileAt(Dir(w, name), ArchivePath(name))
  }

  /** The prebuild step was given the scripts and the script-packed directories of the same plan. */
  ghost predicate Describes(s: Sources, lower: Lowering, children: seq<SourceChild>) {
    forall i :: 0 <= i < |children| ==> match children[i]
      case SourceFile(name, content, compiled) => IsScript(lower, name) ==> Stem(name) + ".js" in s.planned
      case SourceDirectory(name, hasManifest, scriptPacked, archive) =>
        hasManifest && scriptPacked ==> exists j :: 0 <= j < |s.children| && s.children[j].name == name && s.children[j].scriptPacked
  }

  lemma {:induction false} PlanFrom(lower: Lowering, children: seq<SourceChild>, k: nat) returns (i: nat)
    requires k < |Plan(lower, children)|
    ensures i < |children| && PlanFor(lower, children[i]) == [Plan(lower, children)[k]]
  {
    var last := |children| - 1;
    if k < |Plan(lower, children[..last])| {
      i := PlanFrom(lower, children[..last], k);
    } else {
      i := last;
    }
  }

  /** What compiling the present inputs gives for a plan item, where its command emits the file. */
  ghost predicate UpToDate(tools: Tools, s: Sources, item: PlanItem, content: Content) {
    match item.mode
    case CompileTs =>
      var files := tools.compile(ROOT_UNIT, s.rootInputs);
      item.destination in files ==> content == files[item.destination]
    case CopyScriptToolpkg =>
      forall j :: 0 <= j < |s.children| && s.children[j].scriptPacked && item.destination == s.children[j].name + ".toolpkg" ==>
        var files := tools.compile(s.children[j].name, s.children[j].inputs);
        ArchivePath(s.children[j].name) in files ==> content == files[ArchivePath(s.children[j].name)]
    case _ => true
  }

  lemma SuffixCancels(a: string, b: string, suffix: string)
    requires a + suffix == b + suffix
    ensures a == b
  {
    assert (a + suffix)[..|a|] == a && (b + suffix)[..|b|] == b;
  }

  lemma ItemUpToDate(tools: Tools, s: Sources, w: Workspace, lower: Lowering, children: seq<SourceChild>, i: nat, item: PlanItem)
    requires Full(tools, s, w) && FromBuild(lower, children, w) && Describes(s, lower, children)
    requires i < |children| && PlanFor(lower, children[i]) == [item] && item.content.Some?
    ensures UpToDate(tools, s, item, item.content.value)
  {
    match children[i]
    case SourceFile(name, content, compiled) =>
      assert item.mode.CompileTs? ==> item == [PlanItem(CompileTs, Stem(name) + ".js", compiled)][0];
    case SourceDirectory(name, hasManifest, scriptPacked, archive) =>
      assert item == [PlanItem(if scriptPacked then CopyScriptToolpkg else Pack, name + ".toolpkg", archive)][0];
      forall j | 0 <= j < |s.children| && s.children[j].scriptPacked && item.destination == s.children[j].name + ".toolpkg"
        ensures s.children[j].name == name
      {
        SuffixCancels(s.children[j].name, name, ".toolpkg");
      }
      assert forall j :: 0 <= j < |s.children| && s.children[j].scriptPacked ==> IsBuilt(s.children[j]);
  }

  /** Main result on a whole run: once the prebuild finished and the synchronization succeeded, the
      file of each compiled or script-packed item is what compiling the present inputs emits for it,
      whether its unit was built or skipped. */
  lemma SyncedUpToDate(tools: Tools, s: Sources, failing: Failing, w: Workspace, lower: Lowering, children: seq<SourceChild>,
                    before: map<string, Entry>, after: map<string, Entry>, k: nat)
    requires ValidSources(s) && Sound(tools, w) && Prebuilt(tools, s, false, failing, w).error.None?
    requires FromBuild(lower, children, Prebuilt(tools, s, false, failing, w).workspace) && Describes(s, lower, children)
    requires Synced(lower, before, Plan(lower, children), false, after)
    requires k < |Plan(lower, children)|
    requires var plans := Plan(lower, children); forall j :: k < j < |plans| ==> plans[j].destination != plans[k].destination
    requires var name := Plan(lower, children)[k].destination; name in before ==> before[name].File?
    ensures var item := Plan(lower, children)[k];
      && item.destination in after && after[item.destination].File?
      && UpToDate(tools, s, item, after[item.destination].content)
  {
    var plans := Plan(lower, children);
    IncrementalIsFull(tools, s, failing, w);
    LastArrives(lower, before, plans, false, after, k);
    var i := PlanFrom(lower, children, k);
    ItemUpToDate(tools, s, Prebuilt(tools, s, false, failing, w).workspace, lower, children, i, plans[k]);
  }
}
