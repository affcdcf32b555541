/** Properties of the prebuild step: when a skipped unit's files are those of its inputs, over one
    run and over whole histories, and where stale files survive. */
module BuildSoundness {
  import opened Wrappers
  import opened Utf8
  import opened SyncSignature
  import opened IncrementalBuild

  /** Hash collisions do not occur. */
  ghost predicate CollisionFree(tools: Tools) {
    forall s: seq<Byte>, t: seq<Byte> :: tools.digest(s) == tools.digest(t) ==> s == t
  }

  ghost predicate DistinctNames(children: seq<Child>) {
    forall i, j :: 0 <= i < j < |children| ==> children[i].name != children[j].name
  }

  /** Children are directories of their own, and no input holds a NUL. */
  ghost predicate ValidSources(s: Sources) {
    && DistinctNames(s.children) && NulFree(s.rootInputs)
    && forall i :: 0 <= i < |s.children| ==> s.children[i].name != ROOT_UNIT && NulFree(s.children[i].inputs)
  }

  // ----- What a real run does, told from the workspace it starts in -----

  predicate RootRuns(tools: Tools, s: Sources, w: Workspace) {
    s.planned != [] && s.rootTsconfig && !RootSkips(tools, s, w.saved, w)
  }

  predicate RootStops(tools: Tools, s: Sources, failing: Failing, w: Workspace) {
    s.planned != [] && (!s.rootTsconfig || (RootRuns(tools, s, w) && ROOT_UNIT in failing))
  }

  /** The child's command is run if the run gets that far. */
  predicate Runs(tools: Tools, state: map<string, string>, c: Child) {
    c.scriptPacked || (c.hasTsconfig && !Recorded(state, c.name, Signature(tools, c.inputs)))
  }

  predicate Stops(tools: Tools, state: map<string, string>, failing: Failing, c: Child) {
    Runs(tools, state, c) && c.name in failing
  }

  ghost predicate NoneStops(tools: Tools, state: map<string, string>, failing: Failing, children: seq<Child>, from: nat, to: nat)
    requires to <= |children|
  {
    forall j :: from <= j < to ==> !Stops(tools, state, failing, children[j])
  }

  /** The run gets to child `k` and runs its command. */
  ghost predicate RunsAt(tools: Tools, s: Sources, failing: Failing, w: Workspace, k: nat)
    requires k < |s.children|
  {
    && !RootStops(tools, s, failing, w) && NoneStops(tools, w.saved, failing, s.children, 0, k)
    && Runs(tools, w.saved, s.children[k])
  }

  /** The run raises. */
  ghost predicate Raises(tools: Tools, s: Sources, failing: Failing, w: Workspace) {
    RootStops(tools, s, failing, w) || !NoneStops(tools, w.saved, failing, s.children, 0, |s.children|)
  }

  /** What a unit's command writes in this run, whether or not it fails. */
  function Output(tools: Tools, unit: string, inputs: seq<SourceFile>, failing: Failing): Files {
    if unit in failing then failing[unit] else tools.compile(unit, inputs)
  }

  // ----- The run's effect, unit by unit -----

  lemma KeysDiffer(a: string, b: string)
    requires a != b
    ensures Key(a) != Key(b)
  {
    assert Key(a)[|"prebuild:"|..] == a && Key(b)[|"prebuild:"|..] == b;
  }

  /** Recording one unit does not touch the record of another. */
  lemma RecordedElsewhere(state: map<string, string>, unit: string, signature: string)
    ensures forall u, x :: Recorded(state[Key(unit) := signature], u, x) <==>
      if u == unit then x == signature else Recorded(state, u, x)
  {
    forall u, x
      ensures Recorded(state[Key(unit) := signature], u, x) <==> if u == unit then x == signature else Recorded(state, u, x)
    {
      if u != unit {
        KeysDiffer(u, unit);
      }
    }
  }

  lemma ChildStep(tools: Tools, c: Child, failing: Failing, p: Progress)
    ensures var step := BuildChild(tools, c, false, failing, p);
      && (step.error.Some? <==> Stops(tools, p.state, failing, c))
      && step.progress.workspace
        == (if Runs(tools, p.state, c) then Wrote(p.workspace, c.name, Output(tools, c.name, c.inputs, failing)) else p.workspace)
      && (forall u, x :: Recorded(step.progress.state, u, x) <==>
        if u == c.name && Runs(tools, p.state, c) && !c.scriptPacked && step.error.None?
        then x == Signature(tools, c.inputs) else Recorded(p.state, u, x))
  {
    RecordedElsewhere(p.state, c.name, Signature(tools, c.inputs));
  }

  /** The children from `k` on leave every other unit alone. */
  lemma {:induction false} ChildrenElsewhere(tools: Tools, children: seq<Child>, k: nat, failing: Failing, p: Progress, unit: string)
    requires forall i :: k <= i < |children| ==> children[i].name != unit
    ensures var after := BuildChildren(tools, children, k, false, failing, p).progress;
      && Dir(after.workspace, unit) == Dir(p.workspace, unit)
      && forall x :: Recorded(after.state, unit, x) <==> Recorded(p.state, unit, x)
    decreases |children| - k
  {
    if k < |children| {
      ChildStep(tools, children[k], failing, p);
      var step := BuildChild(tools, children[k], false, failing, p);
      if step.error.None? {
        ChildrenElsewhere(tools, children, k + 1, failing, step.progress, unit);
      }
    }
  }

  lemma {:induction false} ChildrenRaise(tools: Tools, children: seq<Child>, k: nat, failing: Failing, p: Progress)
    requires DistinctNames(children) && k <= |children|
    ensures BuildChildren(tools, children, k, false, failing, p).error.None?
      <==> NoneStops(tools, p.state, failing, children, k, |children|)
    decreases |children| - k
  {
    if k < |children| {
      ChildStep(tools, children[k], failing, p);
      var step := BuildChild(tools, children[k], false, failing, p);
      if step.error.None? {
        ChildrenRaise(tools, children, k + 1, failing, step.progress);
        assert forall j :: k < j < |children| ==>
          Stops(tools, step.progress.state, failing, children[j]) == Stops(tools, p.state, failing, children[j]);
      }
    }
  }

  /** What the children from `k` on do to child `i`. */
  lemma {:induction false} ChildrenAt(tools: Tools, children: seq<Child>, k: nat, failing: Failing, p: Progress, i: nat)
    requires DistinctNames(children) && k <= i < |children|
    ensures var after, c := BuildChildren(tools, children, k, false, failing, p).progress, children[i];
      var runs := NoneStops(tools, p.state, failing, children, k, i) && Runs(tools, p.state, c);
      && Dir(after.workspace, c.name)
        == (if runs then Dir(p.workspace, c.name) + Output(tools, c.name, c.inputs, failing) else Dir(p.workspace, c.name))
      && forall x :: Recorded(after.state, c.name, x) <==>
        if runs && !c.scriptPacked && c.name !in failing then x == Signature(tools, c.inputs) else Recorded(p.state, c.name, x)
    decreases |children| - k
  {
    ChildStep(tools, children[k], failing, p);
    var step := BuildChild(tools, children[k], false, failing, p);
    if i == k {
      if step.error.None? {
        ChildrenElsewhere(tools, children, k + 1, failing, step.progress, children[k].name);
      }
    } else if step.error.None? {
      ChildrenAt(tools, children, k + 1, failing, step.progress, i);
      assert forall j :: k < j < |children| ==>
        Stops(tools, step.progress.state, failing, children[j]) == Stops(tools, p.state, failing, children[j]);
    }
  }

  /** A run that changed nothing has the state it loaded, and only its end saves. */
  lemma {:induction false} Unchanged(tools: Tools, children: seq<Child>, k: nat, dry: bool, failing: Failing, p: Progress)
    ensures var after := BuildChildren(tools, children, k, dry, failing, p).progress;
      && (p.changed ==> after.changed)
      && (!after.changed ==> after.state == p.state)
      && (dry ==> after.workspace == p.workspace)
      && after.workspace.saved == p.workspace.saved
    decreases |children| - k
  {
    if k < |children| {
      var step := BuildChild(tools, children[k], dry, failing, p);
      if step.error.None? {
        Unchanged(tools, children, k + 1, dry, failing, step.progress);
      }
    }
  }

  /** A dry run leaves the whole workspace as it was. */
  lemma DryRunChangesNothing(tools: Tools, s: Sources, failing: Failing, w: Workspace)
    ensures Prebuilt(tools, s, true, failing, w).workspace == w
  {
    var root := BuildRoot(tools, s, true, failing, Progress(w, w.saved, false));
    Unchanged(tools, s.children, 0, true, failing, root.progress);
  }

  lemma RootStep(tools: Tools, s: Sources, failing: Failing, w: Workspace)
    ensures var step := BuildRoot(tools, s, false, failing, Progress(w, w.saved, false));
      && (step.error.Some? <==> RootStops(tools, s, failing, w))
      && step.progress.workspace
        == (if RootRuns(tools, s, w) then Wrote(w, ROOT_UNIT, Output(tools, ROOT_UNIT, s.rootInputs, failing)) else w)
      && (!step.progress.changed ==> step.progress.state == w.saved)
      && (forall u, x :: Recorded(step.progress.state, u, x) <==>
        if u == ROOT_UNIT && RootRuns(tools, s, w) && step.error.None?
        then x == Signature(tools, s.rootInputs) else Recorded(w.saved, u, x))
  {
    RecordedElsewhere(w.saved, ROOT_UNIT, Signature(tools, s.rootInputs));
  }

  /** A run saves its state exactly when it does not raise, and raises exactly where its sources, the
      saved state and the failing commands say so. */
  lemma RunSaves(tools: Tools, s: Sources, failing: Failing, w: Workspace)
    requires ValidSources(s)
    ensures var built, all := Prebuilt(tools, s, false, failing, w), BuildAll(tools, s, false, failing, w).progress;
      && (built.error.Some? <==> Raises(tools, s, failing, w))
      && built.workspace == all.workspace.(saved := if Raises(tools, s, failing, w) then w.saved else all.state)
  {
    RootStep(tools, s, failing, w);
    var root := BuildRoot(tools, s, false, failing, Progress(w, w.saved, false)).progress;
    Unchanged(tools, s.children, 0, false, failing, root);
    ChildrenRaise(tools, s.children, 0, failing, root);
    assert forall i :: 0 <= i < |s.children| ==>
      Stops(tools, root.state, failing, s.children[i]) == Stops(tools, w.saved, failing, s.children[i]);
  }

  /** The files and the record of a child after a real run. */
  lemma ChildAfter(tools: Tools, s: Sources, failing: Failing, w: Workspace, i: nat)
    requires ValidSources(s) && i < |s.children|
    ensures var after, c := Prebuilt(tools, s, false, failing, w).workspace, s.children[i];
      && Dir(after, c.name) == (if RunsAt(tools, s, failing, w, i)
         then Dir(w, c.name) + Output(tools, c.name, c.inputs, failing) else Dir(w, c.name))
      && forall x :: Recorded(after.saved, c.name, x) <==>
        if RunsAt(tools, s, failing, w, i) && !c.scriptPacked && !Raises(tools, s, failing, w)
        then x == Signature(tools, c.inputs) else Recorded(w.saved, c.name, x)
  {
    RunSaves(tools, s, failing, w);
    RootStep(tools, s, failing, w);
    var root := BuildRoot(tools, s, false, failing, Progress(w, w.saved, false)).progress;
    assert forall j :: 0 <= j < |s.children| ==>
      Stops(tools, root.state, failing, s.children[j]) == Stops(tools, w.saved, failing, s.children[j]);
    if !RootStops(tools, s, failing, w) {
      ChildrenAt(tools, s.children, 0, failing, root, i);
    }
  }

  /** The files and the record of every other unit, the root among them. */
  lemma OtherAfter(tools: Tools, s: Sources, failing: Failing, w: Workspace, unit: string)
    requires ValidSources(s) && forall i :: 0 <= i < |s.children| ==> s.children[i].name != unit
    ensures var after, runs := Prebuilt(tools, s, false, failing, w).workspace, unit == ROOT_UNIT && RootRuns(tools, s, w);
      && Dir(after, unit) == (if runs then Dir(w, unit) + Output(tools, unit, s.rootInputs, failing) else Dir(w, unit))
      && forall x :: Recorded(after.saved, unit, x) <==>
        if runs && !Raises(tools, s, failing, w) then x == Signature(tools, s.rootInputs) else Recorded(w.saved, unit, x)
  {
    RunSaves(tools, s, failing, w);
    RootStep(tools, s, failing, w);
    var root := BuildRoot(tools, s, false, failing, Progress(w, w.saved, false)).progress;
    if !RootStops(tools, s, failing, w) {
      ChildrenElsewhere(tools, s.children, 0, failing, root, unit);
    }
  }

  // ----- Soundness -----

  /** The signature on record for the unit is that of `inputs`. */
  ghost predicate OnRecord(tools: Tools, state: map<string, string>, unit: string, inputs: seq<SourceFile>) {
    NulFree(inputs) && Recorded(state, unit, Signature(tools, inputs))
  }

  ghost predicate Agree(a: Files, b: Files) {
    forall name :: name in a && name in b ==> a[name] == b[name]
  }

  /** Every one of the files is there and right. */
  ghost predicate Holds(dir: Files, files: Files) {
    forall name :: name in files ==> name in dir && dir[name] == files[name]
  }

  /** What a record promises: a child's files are all there. For the root those that are there are
      right, because presence is checked again. */
  ghost predicate Promised(unit: string, dir: Files, files: Files) {
    if unit == ROOT_UNIT then Agree(dir, files) else Holds(dir, files)
  }

  ghost predicate UnitSound(tools: Tools, w: Workspace, unit: string) {
    forall inputs :: OnRecord(tools, w.saved, unit, inputs) ==> Promised(unit, Dir(w, unit), tools.compile(unit, inputs))
  }

  /** Skipping is sound: every record keeps its promise. */
  ghost predicate Sound(tools: Tools, w: Workspace) {
    forall unit :: UnitSound(tools, w, unit)
  }

  /** Writing `written` keeps the files of the inputs on record. */
  ghost predicate Kept(tools: Tools, state: map<string, string>, unit: string, written: Files) {
    forall inputs :: OnRecord(tools, state, unit, inputs) ==> Agree(written, tools.compile(unit, inputs))
  }

  /** The root's command, where its inputs do not enter the record because the run raises, keeps the
      files of the inputs that are on record. */
  ghost predicate RootKept(tools: Tools, s: Sources, failing: Failing, w: Workspace) {
    RootRuns(tools, s, w) && Raises(tools, s, failing, w) ==>
      Kept(tools, w.saved, ROOT_UNIT, Output(tools, ROOT_UNIT, s.rootInputs, failing))
  }

  /** The same for a child, whose inputs do not enter the record either if it is script-packed. */
  ghost predicate ChildKept(tools: Tools, s: Sources, failing: Failing, w: Workspace, k: nat)
    requires k < |s.children|
  {
    var c := s.children[k];
    RunsAt(tools, s, failing, w, k) && (Raises(tools, s, failing, w) || c.scriptPacked) ==>
      Kept(tools, w.saved, c.name, Output(tools, c.name, c.inputs, failing))
  }

  ghost predicate Undisturbed(tools: Tools, s: Sources, failing: Failing, w: Workspace) {
    RootKept(tools, s, failing, w) && forall k :: 0 <= k < |s.children| ==> ChildKept(tools, s, failing, w, k)
  }

  lemma SignatureInjective(tools: Tools, a: seq<SourceFile>, b: seq<SourceFile>)
    requires CollisionFree(tools) && NulFree(a) && NulFree(b) && Signature(tools, a) == Signature(tools, b)
    ensures a == b
  {
    StreamInjective(a, b);
  }

  /** A unit that was compiled and recorded is sound. */
  lemma RecordedSound(tools: Tools, w: Workspace, unit: string, inputs: seq<SourceFile>, before: Files)
    requires CollisionFree(tools) && NulFree(inputs) && Dir(w, unit) == before + tools.compile(unit, inputs)
    requires forall x :: Recorded(w.saved, unit, x) <==> x == Signature(tools, inputs)
    ensures UnitSound(tools, w, unit)
  {
    forall other | OnRecord(tools, w.saved, unit, other) ensures other == inputs {
      SignatureInjective(tools, other, inputs);
    }
  }

  /** A unit that was written to and kept its record is sound exactly when the writes kept its files. */
  lemma WrittenSound(tools: Tools, before: Workspace, after: Workspace, unit: string, written: Files)
    requires UnitSound(tools, before, unit) && Dir(after, unit) == Dir(before, unit) + written
    requires forall x :: Recorded(after.saved, unit, x) <==> Recorded(before.saved, unit, x)
    ensures UnitSound(tools, after, unit) <==> Kept(tools, before.saved, unit, written)
  {
    forall inputs | OnRecord(tools, before.saved, unit, inputs)
      ensures Promised(unit, Dir(after, unit), tools.compile(unit, inputs)) <==> Agree(written, tools.compile(unit, inputs))
    {
      var files := tools.compile(unit, inputs);
      assert OnRecord(tools, after.saved, unit, inputs) && Promised(unit, Dir(before, unit), files);
      assert forall name :: name in written ==> Dir(after, unit)[name] == written[name];
    }
    assert forall inputs :: OnRecord(tools, after.saved, unit, inputs) <==> OnRecord(tools, before.saved, unit, inputs);
  }

  lemma ChildSound(tools: Tools, s: Sources, failing: Failing, w: Workspace, i: nat)
    requires CollisionFree(tools) && ValidSources(s) && Sound(tools, w) && i < |s.children|
    ensures UnitSound(tools, Prebuilt(tools, s, false, failing, w).workspace, s.children[i].name)
      <==> ChildKept(tools, s, failing, w, i)
  {
    var after, c := Prebuilt(tools, s, false, failing, w).workspace, s.children[i];
    ChildAfter(tools, s, failing, w, i);
    assert UnitSound(tools, w, c.name);
    if RunsAt(tools, s, failing, w, i) {
      if Raises(tools, s, failing, w) || c.scriptPacked {
        WrittenSound(tools, w, after, c.name, Output(tools, c.name, c.inputs, failing));
      } else {
        assert !Stops(tools, w.saved, failing, c);
        RecordedSound(tools, after, c.name, c.inputs, Dir(w, c.name));
      }
    } else {
      assert forall inputs :: OnRecord(tools, after.saved, c.name, inputs) <==> OnRecord(tools, w.saved, c.name, inputs);
    }
  }

  lemma OtherSound(tools: Tools, s: Sources, failing: Failing, w: Workspace, unit: string)
    requires CollisionFree(tools) && ValidSources(s) && Sound(tools, w)
    requires forall i :: 0 <= i < |s.children| ==> s.children[i].name != unit
    ensures UnitSound(tools, Prebuilt(tools, s, false, failing, w).workspace, unit)
      <==> (unit == ROOT_UNIT ==> RootKept(tools, s, failing, w))
  {
    var after := Prebuilt(tools, s, false, failing, w).workspace;
    OtherAfter(tools, s, failing, w, unit);
    assert UnitSound(tools, w, unit);
    if unit == ROOT_UNIT && RootRuns(tools, s, w) {
      if Raises(tools, s, failing, w) {
        WrittenSound(tools, w, after, unit, Output(tools, unit, s.rootInputs, failing));
      } else {
        RecordedSound(tools, after, unit, s.rootInputs, Dir(w, unit));
      }
    } else {
      assert forall inputs :: OnRecord(tools, after.saved, unit, inputs) <==> OnRecord(tools, w.saved, unit, inputs);
    }
  }

  /** Main result on one run, raising or not: it keeps the workspace sound exactly when the commands
      that leave no record kept the files of the inputs on record. */
  lemma RunSound(tools: Tools, s: Sources, failing: Failing, w: Workspace)
    requires CollisionFree(tools) && ValidSources(s) && Sound(tools, w)
    ensures Sound(tools, Prebuilt(tools, s, false, failing, w).workspace) <==> Undisturbed(tools, s, failing, w)
  {
    var after := Prebuilt(tools, s, false, failing, w).workspace;
    forall i | 0 <= i < |s.children|
      ensures UnitSound(tools, after, s.children[i].name) <==> ChildKept(tools, s, failing, w, i)
    {
      ChildSound(tools, s, failing, w, i);
    }
    OtherSound(tools, s, failing, w, ROOT_UNIT);
    if Undisturbed(tools, s, failing, w) {
      forall unit ensures UnitSound(tools, after, unit) {
        if forall i :: 0 <= i < |s.children| ==> s.children[i].name != unit {
          OtherSound(tools, s, failing, w, unit);
        }
      }
    }
  }

  /** A run that finishes is undisturbed unless it script-packs a child that is on record. */
  lemma FinishedUndisturbed(tools: Tools, s: Sources, failing: Failing, w: Workspace)
    requires !Raises(tools, s, failing, w)
    requires forall i, x :: 0 <= i < |s.children| && s.children[i].scriptPacked ==> !Recorded(w.saved, s.children[i].name, x)
    ensures Undisturbed(tools, s, failing, w)
  {}

  // ----- The files after a run -----

  /** The child is built by a command of its own. */
  predicate IsBuilt(c: Child) {
    c.scriptPacked || c.hasTsconfig
  }

  /** Every file that compiling the present inputs emits is there and right: all of each child's, and
      of the root's the planned ones. */
  ghost predicate Full(tools: Tools, s: Sources, w: Workspace) {
    && (forall i :: 0 <= i < |s.children| && IsBuilt(s.children[i]) ==>
      Holds(Dir(w, s.children[i].name), tools.compile(s.children[i].name, s.children[i].inputs)))
    && forall name :: name in s.planned && name in tools.compile(ROOT_UNIT, s.rootInputs) ==>
      name in Dir(w, ROOT_UNIT) && Dir(w, ROOT_UNIT)[name] == tools.compile(ROOT_UNIT, s.rootInputs)[name]
  }

  lemma ChildFull(tools: Tools, s: Sources, failing: Failing, w: Workspace, i: nat)
    requires ValidSources(s) && Sound(tools, w) && !Raises(tools, s, failing, w)
    requires i < |s.children| && IsBuilt(s.children[i])
    ensures var after, c := Prebuilt(tools, s, false, failing, w).workspace, s.children[i];
      Holds(Dir(after, c.name), tools.compile(c.name, c.inputs))
  {
    ChildAfter(tools, s, failing, w, i);
    var c := s.children[i];
    if Runs(tools, w.saved, c) {
      assert !Stops(tools, w.saved, failing, c);
    } else {
      assert UnitSound(tools, w, c.name) && OnRecord(tools, w.saved, c.name, c.inputs);
    }
  }

  /** Main result on outputs: where a real run finishes, compiled and skipped units alike have the
      files that compiling their present inputs gives. */
  lemma IncrementalIsFull(tools: Tools, s: Sources, failing: Failing, w: Workspace)
    requires ValidSources(s) && Sound(tools, w) && Prebuilt(tools, s, false, failing, w).error.None?
    ensures Full(tools, s, Prebuilt(tools, s, false, failing, w).workspace)
  {
    RunSaves(tools, s, failing, w);
    forall i | 0 <= i < |s.children| && IsBuilt(s.children[i])
      ensures Holds(Dir(Prebuilt(tools, s, false, failing, w).workspace, s.children[i].name),
                    tools.compile(s.children[i].name, s.children[i].inputs))
    {
      ChildFull(tools, s, failing, w, i);
    }
    OtherAfter(tools, s, failing, w, ROOT_UNIT);
    if s.planned != [] && !RootRuns(tools, s, w) {
      assert UnitSound(tools, w, ROOT_UNIT) && OnRecord(tools, w.saved, ROOT_UNIT, s.rootInputs);
    }
  }

  /** Sources of a single child, and of root scripts alone. */
  function OneChild(unit: string, inputs: seq<SourceFile>): Sources {
    Sources([], false, [], [Child(unit, false, true, inputs)])
  }

  function RootOnly(name: string, inputs: seq<SourceFile>): Sources {
    Sources([name], true, inputs, [])
  }

  /** Every next run that finishes, whatever the sources are by then, gives full outputs. */
  ghost predicate AlwaysFull(tools: Tools, w: Workspace) {
    forall s :: ValidSources(s) && !Raises(tools, s, map[], w) ==> Full(tools, s, Prebuilt(tools, s, false, map[], w).workspace)
  }

  lemma RecordsKeep(tools: Tools, w: Workspace, unit: string, inputs: seq<SourceFile>, name: string)
    requires OnRecord(tools, w.saved, unit, inputs) && name in tools.compile(unit, inputs)
    requires unit == ROOT_UNIT ==> name in Dir(w, unit)
    requires AlwaysFull(tools, w)
    ensures name in Dir(w, unit) && Dir(w, unit)[name] == tools.compile(unit, inputs)[name]
  {
    if unit == ROOT_UNIT {
      var s := RootOnly(name, inputs);
      assert !Raises(tools, s, map[], w);
      OtherAfter(tools, s, map[], w, unit);
      assert Full(tools, s, Prebuilt(tools, s, false, map[], w).workspace);
    } else {
      var s := OneChild(unit, inputs);
      assert !Raises(tools, s, map[], w);
      ChildAfter(tools, s, map[], w, 0);
      assert Full(tools, s, Prebuilt(tools, s, false, map[], w).workspace);
      assert IsBuilt(s.children[0]);
    }
  }

  /** Main result on the invariant: it asks no more than what the next run needs. */
  lemma SoundExactly(tools: Tools, w: Workspace)
    ensures Sound(tools, w) <==> AlwaysFull(tools, w)
  {
    if Sound(tools, w) {
      forall s | ValidSources(s) && !Raises(tools, s, map[], w)
        ensures Full(tools, s, Prebuilt(tools, s, false, map[], w).workspace)
      {
        RunSaves(tools, s, map[], w);
        IncrementalIsFull(tools, s, map[], w);
      }
    }
    if AlwaysFull(tools, w) {
      forall unit, inputs | OnRecord(tools, w.saved, unit, inputs)
        ensures Promised(unit, Dir(w, unit), tools.compile(unit, inputs))
      {
        forall name | name in tools.compile(unit, inputs) && (unit == ROOT_UNIT ==> name in Dir(w, unit))
          ensures name in Dir(w, unit) && Dir(w, unit)[name] == tools.compile(unit, inputs)[name]
        {
          RecordsKeep(tools, w, unit, inputs, name);
        }
      }
    }
  }

  /** Main result on stale files: after a run that finishes, a child's directory holds exactly what
      compiling its inputs emits if and only if every file it held before is among those. */
  lemma ExactlyCompiled(tools: Tools, s: Sources, failing: Failing, w: Workspace, i: nat)
    requires ValidSources(s) && Sound(tools, w) && !Raises(tools, s, failing, w)
    requires i < |s.children| && IsBuilt(s.children[i])
    ensures var after, c := Prebuilt(tools, s, false, failing, w).workspace, s.children[i];
      Dir(after, c.name) == tools.compile(c.name, c.inputs) <==> Dir(w, c.name).Keys <= tools.compile(c.name, c.inputs).Keys
  {
    ChildFull(tools, s, failing, w, i);
    ChildAfter(tools, s, failing, w, i);
    var c := s.children[i];
    var files, after := tools.compile(c.name, c.inputs), Dir(Prebuilt(tools, s, false, failing, w).workspace, c.name);
    assert !Stops(tools, w.saved, failing, c);
    assert after.Keys == Dir(w, c.name).Keys + files.Keys;
    if Dir(w, c.name).Keys <= files.Keys {
      assert after.Keys == files.Keys;
    }
  }

  const FRESH := Workspace(map[], map[])

  lemma FreshSound(tools: Tools)
    ensures Sound(tools, FRESH)
  {}

  /** A file whose source is gone stays in the child's directory. */
  lemma StaleFileStays(tools: Tools, unit: string, before: seq<SourceFile>, now: seq<SourceFile>, name: string)
    requires unit != ROOT_UNIT && NulFree(before) && NulFree(now)
    requires name in tools.compile(unit, before) && name !in tools.compile(unit, now)
    ensures var built := Prebuilt(tools, OneChild(unit, before), false, map[], FRESH).workspace;
      var again := Prebuilt(tools, OneChild(unit, now), false, map[], built);
      && again.error.None? && name in Dir(again.workspace, unit)
      && Dir(again.workspace, unit)[name] == tools.compile(unit, before)[name]
  {
    var built := Prebuilt(tools, OneChild(unit, before), false, map[], FRESH).workspace;
    ChildAfter(tools, OneChild(unit, before), map[], FRESH, 0);
    assert !RootStops(tools, OneChild(unit, before), map[], FRESH);
    assert RunsAt(tools, OneChild(unit, before), map[], FRESH, 0);
    ChildAfter(tools, OneChild(unit, now), map[], built, 0);
    RunSaves(tools, OneChild(unit, now), map[], built);
  }

  // ----- Whole histories -----

  /** What happens to a workspace: real and dry runs over whatever the sources are by then, with
      whatever commands fail, and deletions of a unit's files. */
  datatype Happening = Run(sources: Sources, dry: bool, failing: Failing) | DeleteOutput(unit: string, name: string)

  function After(tools: Tools, h: Happening, w: Workspace): Workspace {
    match h
    case Run(s, dry, failing) => Prebuilt(tools, s, dry, failing, w).workspace
    case DeleteOutput(unit, name) => w.(out := w.out[unit := Dir(w, unit) - {name}])
  }

  /** The file is the root's, whose files are looked for again, or none that a recorded compilation of
      the unit emits. */
  ghost predicate Dispensable(tools: Tools, w: Workspace, unit: string, name: string) {
    unit == ROOT_UNIT || forall inputs :: OnRecord(tools, w.saved, unit, inputs) ==> name !in tools.compile(unit, inputs)
  }

  ghost predicate Harmless(tools: Tools, h: Happening, w: Workspace) {
    match h
    case Run(s, dry, failing) => dry || Undisturbed(tools, s, failing, w)
    case DeleteOutput(unit, name) => Dispensable(tools, w, unit, name)
  }

  function Lived(tools: Tools, history: seq<Happening>, w: Workspace): Workspace {
    if history == [] then w else Lived(tools, history[1..], After(tools, history[0], w))
  }

  ghost predicate ValidHistory(history: seq<Happening>) {
    forall i :: 0 <= i < |history| && history[i].Run? ==> ValidSources(history[i].sources)
  }

  ghost predicate SoundThroughout(tools: Tools, history: seq<Happening>, w: Workspace) {
    Sound(tools, w) && (history != [] ==> SoundThroughout(tools, history[1..], After(tools, history[0], w)))
  }

  ghost predicate UndisturbedThroughout(tools: Tools, history: seq<Happening>, w: Workspace) {
    history != [] ==>
      && Harmless(tools, history[0], w)
      && UndisturbedThroughout(tools, history[1..], After(tools, history[0], w))
  }

  /** Main result on deletions: deleting a file keeps the workspace sound exactly when the file is the
      root's or no inputs on record compile to it. */
  lemma DeletionSound(tools: Tools, w: Workspace, unit: string, name: string)
    requires Sound(tools, w)
    ensures Sound(tools, After(tools, DeleteOutput(unit, name), w)) <==> Dispensable(tools, w, unit, name)
  {
    var after := After(tools, DeleteOutput(unit, name), w);
    assert Dir(after, unit) == Dir(w, unit) - {name};
    forall other | other != unit ensures UnitSound(tools, after, other) {
      assert UnitSound(tools, w, other) && Dir(after, other) == Dir(w, other);
    }
    assert UnitSound(tools, w, unit);
    assert UnitSound(tools, after, unit) <==> Dispensable(tools, w, unit, name) by {
      forall inputs | OnRecord(tools, w.saved, unit, inputs)
        ensures Promised(unit, Dir(after, unit), tools.compile(unit, inputs))
          <==> unit == ROOT_UNIT || name !in tools.compile(unit, inputs)
      {
        assert Promised(unit, Dir(w, unit), tools.compile(unit, inputs));
      }
      assert forall inputs :: OnRecord(tools, after.saved, unit, inputs) <==> OnRecord(tools, w.saved, unit, inputs);
    }
  }

  /** Main result on histories: the workspace is sound at every moment exactly when no real run,
      raising or not, disturbed it and no deletion took a file that is relied on. */
  lemma {:induction false} HistorySound(tools: Tools, history: seq<Happening>, w: Workspace)
    requires CollisionFree(tools) && Sound(tools, w) && ValidHistory(history)
    ensures SoundThroughout(tools, history, w) <==> UndisturbedThroughout(tools, history, w)
    ensures UndisturbedThroughout(tools, history, w) ==> Sound(tools, Lived(tools, history, w))
  {
    if history != [] {
      var next := After(tools, history[0], w);
      match history[0] {
        case Run(s, dry, failing) =>
          if dry {
            DryRunChangesNothing(tools, s, failing, w);
          } else {
            RunSound(tools, s, failing, w);
          }
        case DeleteOutput(unit, name) =>
          DeletionSound(tools, w, unit, name);
      }
      if Sound(tools, next) {
        HistorySound(tools, history[1..], next);
      }
    }
  }

  /** And then the next run that finishes gives full outputs. */
  lemma HistoryFull(tools: Tools, history: seq<Happening>, w: Workspace, s: Sources, failing: Failing)
    requires CollisionFree(tools) && Sound(tools, w) && ValidHistory(history) && ValidSources(s)
    requires UndisturbedThroughout(tools, history, w)
    requires Prebuilt(tools, s, false, failing, Lived(tools, history, w)).error.None?
    ensures Full(tools, s, Prebuilt(tools, s, false, failing, Lived(tools, history, w)).workspace)
  {
    HistorySound(tools, history, w);
    IncrementalIsFull(tools, s, failing, Lived(tools, history, w));
  }

  // ----- Histories that need no care -----

  /** The scripts have their tsconfig, and the script-packed children are those of `packed`. */
  predicate TameSources(s: Sources, packed: set<string>) {
    && (s.planned != [] ==> s.rootTsconfig)
    && forall i :: 0 <= i < |s.children| ==> (s.children[i].scriptPacked <==> s.children[i].name in packed)
  }

  /** No command fails, no child changes how it is packed, and only root outputs are deleted. */
  predicate Tame(h: Happening, packed: set<string>) {
    match h
    case Run(s, dry, failing) => TameSources(s, packed) && failing == map[]
    case DeleteOutput(unit, name) => unit == ROOT_UNIT
  }

  ghost predicate NeverRecorded(w: Workspace, packed: set<string>) {
    forall unit, x :: unit in packed ==> !Recorded(w.saved, unit, x)
  }

  lemma TameRun(tools: Tools, s: Sources, w: Workspace, packed: set<string>)
    requires ValidSources(s) && TameSources(s, packed) && ROOT_UNIT !in packed && NeverRecorded(w, packed)
    ensures !Raises(tools, s, map[], w) && Undisturbed(tools, s, map[], w)
    ensures NeverRecorded(Prebuilt(tools, s, false, map[], w).workspace, packed)
  {
    FinishedUndisturbed(tools, s, map[], w);
    forall unit, x | unit in packed ensures !Recorded(Prebuilt(tools, s, false, map[], w).workspace.saved, unit, x) {
      if i :| 0 <= i < |s.children| && s.children[i].name == unit {
        ChildAfter(tools, s, map[], w, i);
      } else {
        OtherAfter(tools, s, map[], w, unit);
      }
    }
  }

  lemma {:induction false} TameThroughout(tools: Tools, history: seq<Happening>, w: Workspace, packed: set<string>)
    requires ValidHistory(history) && ROOT_UNIT !in packed && NeverRecorded(w, packed)
    requires forall i :: 0 <= i < |history| ==> Tame(history[i], packed)
    ensures UndisturbedThroughout(tools, history, w) && NeverRecorded(Lived(tools, history, w), packed)
  {
    if history != [] {
      assert Tame(history[0], packed);
      match history[0] {
        case Run(s, dry, failing) =>
          if dry {
            DryRunChangesNothing(tools, s, failing, w);
          } else {
            TameRun(tools, s, w, packed);
          }
        case DeleteOutput(unit, name) =>
      }
      TameThroughout(tools, history[1..], After(tools, history[0], w), packed);
    }
  }

  /** Main result for everyday use: from a fresh workspace, over every history of edits, real and dry
      runs and deleted root outputs in which no command fails and no child changes how it is packed,
      the next run finishes and gives full outputs. */
  lemma FreshHistory(tools: Tools, history: seq<Happening>, packed: set<string>, s: Sources)
    requires CollisionFree(tools) && ValidHistory(history) && ROOT_UNIT !in packed
    requires forall i :: 0 <= i < |history| ==> Tame(history[i], packed)
    requires ValidSources(s) && TameSources(s, packed)
    ensures var last := Prebuilt(tools, s, false, map[], Lived(tools, history, FRESH));
      last.error.None? && Full(tools, s, last.workspace)
  {
    FreshSound(tools);
    TameThroughout(tools, history, FRESH, packed);
    TameRun(tools, s, Lived(tools, history, FRESH), packed);
    RunSaves(tools, s, map[], Lived(tools, history, FRESH));
    HistoryFull(tools, history, FRESH, s, map[]);
  }

  // ----- Where skipping is not sound -----

  function TwoChildren(unit: string, inputs: seq<SourceFile>, other: string): Sources {
    Sources([], false, [], [Child(unit, false, true, inputs), Child(other, false, true, [])])
  }

  /** A child is compiled and recorded. */
  lemma FirstBuilt(tools: Tools, unit: string, inputs: seq<SourceFile>)
    requires unit != ROOT_UNIT && NulFree(inputs)
    ensures var built := Prebuilt(tools, OneChild(unit, inputs), false, map[], FRESH).workspace;
      && Dir(built, unit) == tools.compile(unit, inputs)
      && forall u, x :: Recorded(built.saved, u, x) <==> u == unit && x == Signature(tools, inputs)
  {
    var s := OneChild(unit, inputs);
    ChildAfter(tools, s, map[], FRESH, 0);
    assert RunsAt(tools, s, map[], FRESH, 0) && !Raises(tools, s, map[], FRESH);
    assert map[] + tools.compile(unit, inputs) == tools.compile(unit, inputs);
    forall u, x
      ensures Recorded(Prebuilt(tools, s, false, map[], FRESH).workspace.saved, u, x) <==> u == unit && x == Signature(tools, inputs)
    {
      if u != unit {
        OtherAfter(tools, s, map[], FRESH, u);
      }
    }
  }

  /** A run that raises after compiling a unit breaks the promise: if the unit's inputs then return to
      the recorded ones, the next run finishes and leaves the unit as it is, and its files are right
      exactly when both compilations agree on the files they share. */
  lemma StaleAfterRaise(tools: Tools, unit: string, other: string, before: seq<SourceFile>, changed: seq<SourceFile>, failing: Failing)
    requires CollisionFree(tools) && unit != ROOT_UNIT && other != ROOT_UNIT && other != unit
    requires NulFree(before) && NulFree(changed) && before != changed && failing.Keys == {other}
    ensures var built := Prebuilt(tools, OneChild(unit, before), false, map[], FRESH).workspace;
      var raised := Prebuilt(tools, TwoChildren(unit, changed, other), false, failing, built);
      var again := Prebuilt(tools, OneChild(unit, before), false, map[], raised.workspace);
      && raised.error.Some? && again.error.None?
      && Dir(again.workspace, unit) == tools.compile(unit, before) + tools.compile(unit, changed)
      && (Holds(Dir(again.workspace, unit), tools.compile(unit, before)) <==>
          Agree(tools.compile(unit, changed), tools.compile(unit, before)))
  {
    var built := Prebuilt(tools, OneChild(unit, before), false, map[], FRESH).workspace;
    FirstBuilt(tools, unit, before);
    var s := TwoChildren(unit, changed, other);
    if Signature(tools, changed) == Signature(tools, before) {
      SignatureInjective(tools, changed, before);
    }
    assert Stops(tools, built.saved, failing, s.children[1]);
    RunSaves(tools, s, failing, built);
    ChildAfter(tools, s, failing, built, 0);
    assert RunsAt(tools, s, failing, built, 0);
    var raised := Prebuilt(tools, s, false, failing, built);
    ChildAfter(tools, OneChild(unit, before), map[], raised.workspace, 0);
    RunSaves(tools, OneChild(unit, before), map[], raised.workspace);
  }

  /** Deleting a child's outputs is not noticed: the next run with the same inputs leaves them gone. */
  lemma DeletedChildStaysGone(tools: Tools, unit: string, inputs: seq<SourceFile>)
    requires unit != ROOT_UNIT && NulFree(inputs)
    ensures var built := Prebuilt(tools, OneChild(unit, inputs), false, map[], FRESH).workspace;
      var deleted := built.(out := built.out - {unit});
      var again := Prebuilt(tools, OneChild(unit, inputs), false, map[], deleted);
      again.error.None? && Dir(again.workspace, unit) == map[]
  {
    var built := Prebuilt(tools, OneChild(unit, inputs), false, map[], FRESH).workspace;
    FirstBuilt(tools, unit, inputs);
    ChildAfter(tools, OneChild(unit, inputs), map[], built.(out := built.out - {unit}), 0);
    RunSaves(tools, OneChild(unit, inputs), map[], built.(out := built.out - {unit}));
  }
}
