/** The prebuild step of the sync tool: what it compiles, what it skips, and what it saves. */
module IncrementalBuild {
  import opened Wrappers
  import opened Utf8
  import opened SyncSignature

  /** Files by their path below a unit's directory. */
  type Files = map<string, seq<Byte>>

  const ROOT_UNIT := "."

  /** The build commands and the digest. `compile` gives the files that a unit's command writes, from
      the unit's collected inputs; `digest` is the hash of a signature stream. */
  datatype Tools = Tools(compile: (string, seq<SourceFile>) -> Files, digest: seq<Byte> -> string)

  function Signature(tools: Tools, inputs: seq<SourceFile>): string {
    tools.digest(Stream(inputs))
  }

  /** A child directory of the plan, with its collected inputs. */
  datatype Child = Child(name: string, scriptPacked: bool, hasTsconfig: bool, inputs: seq<SourceFile>)

  /** A plugin source directory: the root scripts its plan compiles, by output name, the root's own
      tsconfig and inputs, and the children in order. */
  datatype Sources = Sources(planned: seq<string>, rootTsconfig: bool, rootInputs: seq<SourceFile>, children: seq<Child>)

  /** The saved signatures, and the files each unit's commands have written. */
  datatype Workspace = Workspace(saved: map<string, string>, out: map<string, Files>)

  function Dir(w: Workspace, unit: string): Files {
    if unit in w.out then w.out[unit] else map[]
  }

  /** A command overwrites files and removes none. */
  function Wrote(w: Workspace, unit: string, files: Files): Workspace {
    w.(out := w.out[unit := Dir(w, unit) + files])
  }

  function Key(unit: string): string {
    "prebuild:" + unit
  }

  predicate Recorded(state: map<string, string>, unit: string, signature: string) {
    Key(unit) in state && state[Key(unit)] == signature
  }

  /** Units whose command fails in this run, and what it has written by then. */
  type Failing = map<string, Files>

  datatype BuildError = MissingTsconfig | CommandFailed(unit: string)

  datatype Built = Built(workspace: Workspace, error: Option<BuildError>)

  /** A checked command, which a dry run does not start. */
  function Ran(tools: Tools, unit: string, inputs: seq<SourceFile>, dry: bool, failing: Failing, w: Workspace): Built {
    if dry then Built(w, None)
    else if unit in failing then Built(Wrote(w, unit, failing[unit]), Some(CommandFailed(unit)))
    else Built(Wrote(w, unit, tools.compile(unit, inputs)), None)
  }

  /** A run in progress: the state it would save, and whether it changed anything. */
  datatype Progress = Progress(workspace: Workspace, state: map<string, string>, changed: bool)

  datatype Step = Step(progress: Progress, error: Option<BuildError>)

  function Compiled(tools: Tools, unit: string, inputs: seq<SourceFile>, dry: bool, failing: Failing, p: Progress): Step {
    var ran := Ran(tools, unit, inputs, dry, failing, p.workspace);
    if ran.error.Some? then Step(p.(workspace := ran.workspace), ran.error)
    else Step(Progress(ran.workspace, p.state[Key(unit) := Signature(tools, inputs)], true), None)
  }

  /** The root is skipped only while every planned output exists. */
  predicate RootSkips(tools: Tools, s: Sources, state: map<string, string>, w: Workspace) {
    Recorded(state, ROOT_UNIT, Signature(tools, s.rootInputs)) && forall name :: name in s.planned ==> name in Dir(w, ROOT_UNIT)
  }

  function BuildRoot(tools: Tools, s: Sources, dry: bool, failing: Failing, p: Progress): Step {
    if s.planned == [] then Step(p, None)
    else if !s.rootTsconfig then Step(p, Some(MissingTsconfig))
    else if RootSkips(tools, s, p.state, p.workspace) then Step(p, None)
    else Compiled(tools, ROOT_UNIT, s.rootInputs, dry, failing, p)
  }

  /** A script-packed child is built every time and never recorded. */
  function BuildChild(tools: Tools, c: Child, dry: bool, failing: Failing, p: Progress): Step {
    if c.scriptPacked then
      var ran := Ran(tools, c.name, c.inputs, dry, failing, p.workspace);
      Step(p.(workspace := ran.workspace), ran.error)
    else if !c.hasTsconfig || Recorded(p.state, c.name, Signature(tools, c.inputs)) then Step(p, None)
    else Compiled(tools, c.name, c.inputs, dry, failing, p)
  }

  /** The children from `k` on. A raise ends the run. */
  function BuildChildren(tools: Tools, children: seq<Child>, k: nat, dry: bool, failing: Failing, p: Progress): Step
    decreases |children| - k
  {
    if k >= |children| then Step(p, None)
    else
      var step := BuildChild(tools, children[k], dry, failing, p);
      if step.error.Some? then step else BuildChildren(tools, children, k + 1, dry, failing, step.progress)
  }

  /** The root and the children, in order. */
  function BuildAll(tools: Tools, s: Sources, dry: bool, failing: Failing, w: Workspace): Step {
    var root := BuildRoot(tools, s, dry, failing, Progress(w, w.saved, false));
    if root.error.Some? then root else BuildChildren(tools, s.children, 0, dry, failing, root.progress)
  }

  /** One run. The state is saved at the end, and only by a real run that changed something. */
  function Prebuilt(tools: Tools, s: Sources, dry: bool, failing: Failing, w: Workspace): Built {
    var all := BuildAll(tools, s, dry, failing, w);
    if all.error.None? && all.progress.changed && !dry
    then Built(all.progress.workspace.(saved := all.progress.state), None)
    else Built(all.progress.workspace, all.error)
  }

  class PluginWorkspace {
    var saved: map<string, string>
    var out: map<string, Files>

    constructor (w: Workspace)
      ensures Value() == w
    {
      saved, out := w.saved, w.out;
    }

    function Value(): Workspace
      reads this
    {
      Workspace(saved, out)
    }

    method RunCommand(tools: Tools, unit: string, inputs: seq<SourceFile>, dry: bool, failing: Failing)
      returns (error: Option<BuildError>)
      modifies this`out
      ensures Built(Value(), error) == Ran(tools, unit, inputs, dry, failing, old(Value()))
    {
      if dry {
        return None;
      }
      var before := if unit in out then out[unit] else map[];
      if unit in failing {
        out := out[unit := before + failing[unit]];
        return Some(CommandFailed(unit));
      }
      out := out[unit := before + tools.compile(unit, inputs)];
      return None;
    }

    /** The root's part of the loop state: what it saves and whether it changed. */
    method PrebuildRoot(tools: Tools, s: Sources, dry: bool, failing: Failing, loaded: map<string, string>)
      returns (error: Option<BuildError>, state: map<string, string>, changed: bool)
      modifies this`out
      ensures Step(Progress(Value(), state, changed), error)
        == BuildRoot(tools, s, dry, failing, Progress(old(Value()), loaded, false))
    {
      error, state, changed := None, loaded, false;
      if s.planned != [] {
        if !s.rootTsconfig {
          error := Some(MissingTsconfig);
          return;
        }
        var signature := tools.digest(Stream(s.rootInputs));
        var compiled := if ROOT_UNIT in out then out[ROOT_UNIT] else map[];
        var compiledOutputsExist := forall name :: name in s.planned ==> name in compiled;
        if !(Recorded(state, ROOT_UNIT, signature) && compiledOutputsExist) {
          error := RunCommand(tools, ROOT_UNIT, s.rootInputs, dry, failing);
          if error.None? {
            state, changed := state[Key(ROOT_UNIT) := signature], true;
          }
        }
      }
    }

    /** One turn of the loop over the children. */
    method PrebuildChild(tools: Tools, c: Child, dry: bool, failing: Failing, loaded: map<string, string>, before: bool)
      returns (error: Option<BuildError>, state: map<string, string>, changed: bool)
      modifies this`out
      ensures Step(Progress(Value(), state, changed), error)
        == BuildChild(tools, c, dry, failing, Progress(old(Value()), loaded, before))
    {
      error, state, changed := None, loaded, before;
      if c.scriptPacked {
        error := RunCommand(tools, c.name, c.inputs, dry, failing);
        return;
      }
      if !c.hasTsconfig {
        return;
      }
      var signature := tools.digest(Stream(c.inputs));
      if !Recorded(state, c.name, signature) {
        error := RunCommand(tools, c.name, c.inputs, dry, failing);
        if error.None? {
          state, changed := state[Key(c.name) := signature], true;
        }
      }
    }

    method PrebuildPlans(tools: Tools, s: Sources, dry: bool, failing: Failing) returns (error: Option<BuildError>)
      modifies this
      ensures Built(Value(), error) == Prebuilt(tools, s, dry, failing, old(Value()))
    {
      var state, changed;
      error, state, changed := PrebuildRoot(tools, s, dry, failing, saved);
      if error.Some? {
        return;
      }
      ghost var root := Progress(Value(), state, changed);
      for i := 0 to |s.children|
        invariant BuildChildren(tools, s.children, 0, dry, failing, root)
          == BuildChildren(tools, s.children, i, dry, failing, Progress(Value(), state, changed))
      {
        error, state, changed := PrebuildChild(tools, s.children[i], dry, failing, state, changed);
        if error.Some? {
          return;
        }
      }
      if changed && !dry {
        saved := state;
      }
      return None;
    }
  }
}
