/** What a prebuild run starts and when it raises, told from the sources and the workspace alone. */
module PrebuildRuns {
  import opened Wrappers
  import opened Utf8
  import opened SyncSignature
  import opened IncrementalBuild
  import opened BuildSoundness

  /** The saved state has the digest of the unit's inputs under the unit's key. */
  predicate UpToDate(tools: Tools, w: Workspace, unit: string, inputs: seq<SourceFile>) {
    "prebuild:" + unit in w.saved && w.saved["prebuild:" + unit] == tools.digest(Stream(inputs))
  }

  /** The scripts of the root are compiled: there are some, and their inputs have changed or one of the
      compiled files is gone. */
  predicate RootDue(tools: Tools, s: Sources, w: Workspace) {
    && s.planned != [] && s.rootTsconfig
    && (UpToDate(tools, w, ".", s.rootInputs) ==> "." !in w.out || exists name :: name in s.planned && name !in w.out["."])
  }

  /** A child is packed by its own script every time, and compiled if its inputs have changed. */
  predicate ChildDue(tools: Tools, w: Workspace, c: Child) {
    c.scriptPacked || (c.hasTsconfig && !UpToDate(tools, w, c.name, c.inputs))
  }

  /** Exactly the due units are run. */
  lemma DueExactly(tools: Tools, s: Sources, w: Workspace, c: Child)
    ensures RootRuns(tools, s, w) <==> RootDue(tools, s, w)
    ensures Runs(tools, w.saved, c) <==> ChildDue(tools, w, c)
  {
    assert s.planned != [] ==> s.planned[0] in s.planned;
  }

  // ----- Errors -----

  ghost predicate RootFails(tools: Tools, s: Sources, failing: Failing, w: Workspace) {
    RootDue(tools, s, w) && "." in failing
  }

  ghost predicate ChildFails(tools: Tools, s: Sources, failing: Failing, w: Workspace, k: nat)
    requires k < |s.children|
  {
    ChildDue(tools, w, s.children[k]) && s.children[k].name in failing
  }

  /** Child `k` is the first whose command fails. */
  ghost predicate FirstFailing(tools: Tools, s: Sources, failing: Failing, w: Workspace, k: nat)
    requires k < |s.children|
  {
    ChildFails(tools, s, failing, w, k) && forall j :: 0 <= j < k ==> !ChildFails(tools, s, failing, w, j)
  }

  ghost predicate ChildRaises(tools: Tools, s: Sources, failing: Failing, w: Workspace, unit: string) {
    exists k :: 0 <= k < |s.children| && FirstFailing(tools, s, failing, w, k) && s.children[k].name == unit
  }

  /** The error of the children from `k` on is that of the first that stops. */
  lemma {:induction false} ChildrenError(tools: Tools, children: seq<Child>, k: nat, failing: Failing, p: Progress)
    requires DistinctNames(children) && k <= |children|
    ensures var error := BuildChildren(tools, children, k, false, failing, p).error;
      error.Some? ==>
        exists i :: (&& k <= i < |children| && error == Some(CommandFailed(children[i].name))
                     && Stops(tools, p.state, failing, children[i]) && NoneStops(tools, p.state, failing, children, k, i))
    decreases |children| - k
  {
    if k < |children| {
      ChildStep(tools, children[k], failing, p);
      var step := BuildChild(tools, children[k], false, failing, p);
      if step.error.None? {
        ChildrenError(tools, children, k + 1, failing, step.progress);
        assert forall j :: k < j < |children| ==>
          Stops(tools, step.progress.state, failing, children[j]) == Stops(tools, p.state, failing, children[j]);
      } else {
        assert step.error == Some(CommandFailed(children[k].name));
      }
    }
  }

  /** Main result on errors: a real run misses the tsconfig exactly if the root has scripts and none; and
      fails for a unit exactly if that unit's is the first due command that fails. */
  lemma ErrorExactly(tools: Tools, s: Sources, failing: Failing, w: Workspace, unit: string)
    requires ValidSources(s)
    ensures var error, missing := Prebuilt(tools, s, false, failing, w).error, s.planned != [] && !s.rootTsconfig;
      && (error == Some(MissingTsconfig) <==> missing)
      && (error == Some(CommandFailed(unit)) <==>
          !missing && if RootFails(tools, s, failing, w) then unit == "." else ChildRaises(tools, s, failing, w, unit))
  {
    RunSaves(tools, s, failing, w);
    RootStep(tools, s, failing, w);
    var step := BuildRoot(tools, s, false, failing, Progress(w, w.saved, false));
    forall c ensures Runs(tools, w.saved, c) <==> ChildDue(tools, w, c) {
      DueExactly(tools, s, w, c);
    }
    assert RootRuns(tools, s, w) <==> RootDue(tools, s, w) by {
      DueExactly(tools, s, w, Child("", false, false, []));
    }
    if step.error.None? {
      ChildrenError(tools, s.children, 0, failing, step.progress);
      assert forall i :: 0 <= i < |s.children| ==>
        Stops(tools, step.progress.state, failing, s.children[i]) == Stops(tools, w.saved, failing, s.children[i])
        == ChildFails(tools, s, failing, w, i);
    }
  }

  lemma {:induction false} DryChildren(tools: Tools, children: seq<Child>, k: nat, failing: Failing, p: Progress)
    ensures BuildChildren(tools, children, k, true, failing, p).error.None?
    decreases |children| - k
  {
    if k < |children| {
      DryChildren(tools, children, k + 1, failing, BuildChild(tools, children[k], true, failing, p).progress);
    }
  }

  /** A dry run raises exactly if the root has scripts and no tsconfig, whatever would fail. */
  lemma DryRunRaises(tools: Tools, s: Sources, failing: Failing, w: Workspace)
    ensures Prebuilt(tools, s, true, failing, w).error ==
      if s.planned != [] && !s.rootTsconfig then Some(MissingTsconfig) else None
  {
    DryChildren(tools, s.children, 0, failing, BuildRoot(tools, s, true, failing, Progress(w, w.saved, false)).progress);
  }

  // ----- Running again -----

  /** Nothing is due, and no tsconfig is missing. */
  ghost predicate Settled(tools: Tools, s: Sources, w: Workspace) {
    && (s.planned != [] ==> s.rootTsconfig) && !RootDue(tools, s, w)
    && forall k :: 0 <= k < |s.children| ==> !ChildDue(tools, w, s.children[k])
  }

  lemma {:induction false} IdleChildren(tools: Tools, children: seq<Child>, k: nat, failing: Failing, p: Progress)
    requires forall i :: k <= i < |children| ==> !Runs(tools, p.state, children[i])
    ensures BuildChildren(tools, children, k, false, failing, p) == Step(p, None)
    decreases |children| - k
  {
    if k < |children| {
      IdleChildren(tools, children, k + 1, failing, p);
    }
  }

  lemma SettledIdle(tools: Tools, s: Sources, failing: Failing, w: Workspace)
    requires Settled(tools, s, w)
    ensures Prebuilt(tools, s, false, failing, w) == Built(w, None)
  {
    forall c ensures RootRuns(tools, s, w) <==> RootDue(tools, s, w)
      ensures Runs(tools, w.saved, c) <==> ChildDue(tools, w, c) {
      DueExactly(tools, s, w, c);
    }
    IdleChildren(tools, s.children, 0, failing, Progress(w, w.saved, false));
  }

  /** Every compiled script of the root is there. */
  predicate AllPresent(s: Sources, w: Workspace) {
    forall name :: name in s.planned ==> "." in w.out && name in w.out["."]
  }

  predicate NonePacked(s: Sources) {
    forall k :: 0 <= k < |s.children| ==> !s.children[k].scriptPacked
  }

  ghost predicate NextIdle(tools: Tools, s: Sources, w: Workspace) {
    forall failing :: Prebuilt(tools, s, false, failing, w) == Built(w, None)
  }

  lemma FinishedSettles(tools: Tools, s: Sources, failing: Failing, w: Workspace)
    requires ValidSources(s) && Prebuilt(tools, s, false, failing, w).error.None? && NonePacked(s)
    requires AllPresent(s, Prebuilt(tools, s, false, failing, w).workspace)
    ensures Settled(tools, s, Prebuilt(tools, s, false, failing, w).workspace)
  {
    var after := Prebuilt(tools, s, false, failing, w).workspace;
    RunSaves(tools, s, failing, w);
    OtherAfter(tools, s, failing, w, ".");
    forall k | 0 <= k < |s.children| ensures !ChildDue(tools, after, s.children[k]) {
      ChildAfter(tools, s, failing, w, k);
      DueExactly(tools, s, after, s.children[k]);
    }
    DueExactly(tools, s, after, Child("", false, false, []));
  }

  /** A workspace over which a packed child or a missing script is left lets some run raise. */
  lemma UnsettledRaises(tools: Tools, s: Sources, w: Workspace)
    requires ValidSources(s) && (s.planned != [] ==> s.rootTsconfig) && NextIdle(tools, s, w)
    ensures NonePacked(s) && AllPresent(s, w)
  {
    forall k | 0 <= k < |s.children| ensures !s.children[k].scriptPacked {
      var failing := map[s.children[k].name := map[]];
      assert Prebuilt(tools, s, false, failing, w) == Built(w, None);
      RunSaves(tools, s, failing, w);
      assert s.children[k].scriptPacked ==> Stops(tools, w.saved, failing, s.children[k]);
    }
    var failing := map["." := map[]];
    assert Prebuilt(tools, s, false, failing, w) == Built(w, None);
    RunSaves(tools, s, failing, w);
  }

  /** Main result on running again: after a run that finished, the next over the same sources starts no
      command, so that none can fail, exactly if no child packs itself and every compiled script is there. */
  lemma RerunIdle(tools: Tools, s: Sources, failing: Failing, w: Workspace)
    requires ValidSources(s) && Prebuilt(tools, s, false, failing, w).error.None?
    ensures var after := Prebuilt(tools, s, false, failing, w).workspace;
      NextIdle(tools, s, after) <==> NonePacked(s) && AllPresent(s, after)
  {
    var after := Prebuilt(tools, s, false, failing, w).workspace;
    RunSaves(tools, s, failing, w);
    if NonePacked(s) && AllPresent(s, after) {
      FinishedSettles(tools, s, failing, w);
      forall f ensures Prebuilt(tools, s, false, f, after) == Built(after, None) {
        SettledIdle(tools, s, f, after);
      }
    }
    if NextIdle(tools, s, after) {
      UnsettledRaises(tools, s, after);
    }
  }
}
