/** What a synchronization plans and copies, told from the names and contents of the source directory. */
module SyncPlanning {
  import opened Wrappers
  import opened SyncMirror

  /** The name is a non-empty stem and a suffix of a dot and at least one character that is no dot. */
  ghost predicate Splits(name: string, stem: string, suffix: string) {
    && name == stem + suffix && stem != "" && |suffix| > 1 && suffix[0] == '.'
    && forall k :: 1 <= k < |suffix| ==> suffix[k] != '.'
  }

  ghost predicate HasSuffix(lower: Lowering, name: string, lowered: string) {
    exists stem, suffix :: Splits(name, stem, suffix) && lower(suffix) == lowered
  }

  lemma SplitSuffix(name: string, stem: string, suffix: string)
    requires Splits(name, stem, suffix)
    ensures Suffix(name) == suffix && Stem(name) == stem
  {
    SuffixOf(stem, suffix);
  }

  lemma SuffixSplits(name: string)
    requires Suffix(name) != ""
    ensures Splits(name, Stem(name), Suffix(name))
  {
    var i := LastDot(name);
    assert name == name[..i] + name[i..];
    assert Suffix(name) == name[i..] && Stem(name) == name[..i];
  }

  lemma HasSuffixExactly(lower: Lowering, name: string, lowered: string)
    requires lower("") == "" && lowered != ""
    ensures HasSuffix(lower, name, lowered) <==> lower(Suffix(name)) == lowered
  {
    if lower(Suffix(name)) == lowered {
      SuffixSplits(name);
    }
    if HasSuffix(lower, name, lowered) {
      var stem, suffix :| Splits(name, stem, suffix) && lower(suffix) == lowered;
      SplitSuffix(name, stem, suffix);
    }
  }

  /** The child is copied under its own name. */
  ghost predicate IsCopied(lower: Lowering, child: SourceChild) {
    && child.SourceFile? && child.name != "types" && child.name != "node_modules"
    && (HasSuffix(lower, child.name, ".js") || HasSuffix(lower, child.name, ".toolpkg"))
  }

  /** The child is a script and no declaration file, and compiles to the stem with `.js`. */
  ghost predicate IsCompiled(lower: Lowering, child: SourceChild, destination: string) {
    && child.SourceFile? && child.name != "types" && child.name != "node_modules"
    && !(|child.name| >= 5 && child.name[|child.name| - 5..] == ".d.ts")
    && exists stem, suffix :: Splits(child.name, stem, suffix) && lower(suffix) == ".ts" && destination == stem + ".js"
  }

  /** What a child of the source directory gives the plan. */
  ghost predicate Gives(lower: Lowering, child: SourceChild, item: PlanItem) {
    match child
    case SourceFile(name, content, compiled) =>
      || (IsCopied(lower, child) && item == PlanItem(Copy, name, Some(content)))
      || (IsCompiled(lower, child, item.destination) && item == PlanItem(CompileTs, item.destination, compiled))
    case SourceDirectory(name, hasManifest, scriptPacked, archive) =>
      && name != "types" && name != "node_modules" && hasManifest
      && item == PlanItem(if scriptPacked then CopyScriptToolpkg else Pack, name + ".toolpkg", archive)
  }

  lemma CompiledExactly(lower: Lowering, child: SourceChild, destination: string)
    requires lower("") == "" && child.SourceFile? && child.name != "types" && child.name != "node_modules"
    ensures IsCompiled(lower, child, destination) <==>
      lower(Suffix(child.name)) == ".ts" && !EndsWith(child.name, ".d.ts") && destination == Stem(child.name) + ".js"
  {
    if lower(Suffix(child.name)) == ".ts" {
      SuffixSplits(child.name);
    }
    if IsCompiled(lower, child, destination) {
      var stem, suffix :| Splits(child.name, stem, suffix) && lower(suffix) == ".ts" && destination == stem + ".js";
      SplitSuffix(child.name, stem, suffix);
    }
  }

  /** The plan's part for a child is what the child gives. */
  lemma PlanForGives(lower: Lowering, child: SourceChild, item: PlanItem)
    requires KeepsLower(lower)
    ensures |PlanFor(lower, child)| <= 1
    ensures item in PlanFor(lower, child) <==> Gives(lower, child, item)
  {
    HasSuffixExactly(lower, child.name, ".js");
    HasSuffixExactly(lower, child.name, ".toolpkg");
    if child.SourceFile? && child.name != "types" && child.name != "node_modules" {
      CompiledExactly(lower, child, item.destination);
    }
  }

  /** The plan's items come from the children `from`, in order, and no child that gives an item is left out. */
  ghost predicate PlannedFrom(lower: Lowering, children: seq<SourceChild>, plans: seq<PlanItem>, from: seq<nat>) {
    && |from| == |plans| && (forall k, m :: 0 <= k < m < |from| ==> from[k] < from[m])
    && (forall k :: 0 <= k < |from| ==> from[k] < |children| && Gives(lower, children[from[k]], plans[k]))
    && forall i, item :: 0 <= i < |children| && Gives(lower, children[i], item) ==>
         exists k :: 0 <= k < |from| && from[k] == i && plans[k] == item
  }

  lemma PlannedNone(lower: Lowering, children: seq<SourceChild>, plans: seq<PlanItem>, from: seq<nat>, child: SourceChild)
    requires PlannedFrom(lower, children, plans, from) && forall item :: !Gives(lower, child, item)
    ensures PlannedFrom(lower, children + [child], plans, from)
  {
    var all := children + [child];
    forall i, item | 0 <= i < |all| && Gives(lower, all[i], item)
      ensures exists k :: 0 <= k < |from| && from[k] == i && plans[k] == item
    {
      assert Gives(lower, children[i], item);
    }
  }

  lemma PlannedOne(lower: Lowering, children: seq<SourceChild>, plans: seq<PlanItem>, from: seq<nat>, child: SourceChild, given: PlanItem)
    requires PlannedFrom(lower, children, plans, from) && forall item :: Gives(lower, child, item) <==> item == given
    ensures PlannedFrom(lower, children + [child], plans + [given], from + [|children|])
  {
    var all, longer := children + [child], from + [|children|];
    forall i, item | 0 <= i < |all| && Gives(lower, all[i], item)
      ensures exists k :: 0 <= k < |longer| && longer[k] == i && (plans + [given])[k] == item
    {
      if i < |children| {
        assert Gives(lower, children[i], item);
        var k :| 0 <= k < |from| && from[k] == i && plans[k] == item;
        assert longer[k] == i;
      } else {
        assert longer[|from|] == i;
      }
    }
  }

  lemma PlannedSnoc(lower: Lowering, children: seq<SourceChild>, plans: seq<PlanItem>, from: seq<nat>, child: SourceChild)
    returns (longer: seq<nat>)
    requires KeepsLower(lower) && PlannedFrom(lower, children, plans, from)
    ensures PlannedFrom(lower, children + [child], plans + PlanFor(lower, child), longer)
  {
    var given := PlanFor(lower, child);
    forall item ensures |given| <= 1 && (item in given <==> Gives(lower, child, item)) {
      PlanForGives(lower, child, item);
    }
    PlanForGives(lower, child, PlanItem(Copy, "", None));
    if given == [] {
      longer := from;
      PlannedNone(lower, children, plans, from, child);
      assert plans + given == plans;
    } else {
      longer := from + [|children|];
      assert given == [given[0]];
      PlannedOne(lower, children, plans, from, child, given[0]);
    }
  }

  /** Main result on planning: the plan holds, in the order of the children, exactly what they give. */
  lemma {:induction false} PlanExactly(lower: Lowering, children: seq<SourceChild>) returns (from: seq<nat>)
    requires KeepsLower(lower)
    ensures PlannedFrom(lower, children, Plan(lower, children), from)
  {
    if children == [] {
      from := [];
    } else {
      var last := |children| - 1;
      from := PlanExactly(lower, children[..last]);
      from := PlannedSnoc(lower, children[..last], Plan(lower, children[..last]), from, children[last]);
      assert children[..last] + [children[last]] == children;
    }
  }

  lemma {:induction false} LastContentAt(plans: seq<PlanItem>, k: nat)
    requires k < |plans| && forall j :: k < j < |plans| ==> plans[j].destination != plans[k].destination
    ensures LastContent(plans, plans[k].destination) == plans[k].content
  {
    if k < |plans| - 1 {
      LastContentAt(plans[..|plans| - 1], k);
    }
  }

  /** The last item for a name that is no directory leaves its content there. */
  lemma LastArrives(lower: Lowering, before: map<string, Entry>, plans: seq<PlanItem>, shared: bool, after: map<string, Entry>, k: nat)
    requires Synced(lower, before, plans, shared, after)
    requires k < |plans| && forall j :: k < j < |plans| ==> plans[j].destination != plans[k].destination
    requires plans[k].destination in before ==> before[plans[k].destination].File?
    ensures plans[k].content.Some? && plans[k].destination in after
    ensures after[plans[k].destination] == File(plans[k].content.value)
  {
    SyncedEntry(lower, before, plans, shared, after, plans[k].destination);
    PlannedNamed(plans, plans[k].destination);
    LastContentAt(plans, k);
  }

  lemma LastOfName(lower: Lowering, children: seq<SourceChild>, plans: seq<PlanItem>, from: seq<nat>, k: nat)
    requires PlannedFrom(lower, children, plans, from) && k < |from|
    requires forall j, item :: from[k] < j < |children| && Gives(lower, children[j], item) ==>
      item.destination != plans[k].destination
    ensures forall j :: k < j < |plans| ==> plans[j].destination != plans[k].destination
  {
    forall j | k < j < |plans| ensures plans[j].destination != plans[k].destination {
      assert from[k] < from[j] && Gives(lower, children[from[j]], plans[j]);
    }
  }

  /** Main result on copies: after a synchronization that succeeds, a file that is copied is in the output
      directory with its own content, if no later child gives its name and no directory has it. */
  lemma CopiesArrive(lower: Lowering, children: seq<SourceChild>, shared: bool, before: map<string, Entry>, after: map<string, Entry>, i: nat)
    requires KeepsLower(lower) && Synced(lower, before, Plan(lower, children), shared, after)
    requires i < |children| && IsCopied(lower, children[i])
    requires forall j, item :: i < j < |children| && Gives(lower, children[j], item) ==> item.destination != children[i].name
    requires children[i].name in before ==> before[children[i].name].File?
    ensures children[i].name in after && after[children[i].name] == File(children[i].content)
  {
    var plans, child := Plan(lower, children), children[i];
    var from := PlanExactly(lower, children);
    var item := PlanItem(Copy, child.name, Some(child.content));
    assert Gives(lower, child, item);
    var k :| 0 <= k < |from| && from[k] == i && plans[k] == item;
    LastOfName(lower, children, plans, from, k);
    LastArrives(lower, before, plans, shared, after, k);
  }

  /** The first count of a run is the number of items that are copied or compiled. */
  lemma {:induction false} CopiesCounted(plans: seq<PlanItem>)
    ensures Copies(plans) == |set i | 0 <= i < |plans| && (plans[i].mode.Copy? || plans[i].mode.CompileTs?)|
  {
    if plans != [] {
      var last := |plans| - 1;
      var front := plans[..last];
      CopiesCounted(front);
      var before := set i | 0 <= i < last && (front[i].mode.Copy? || front[i].mode.CompileTs?);
      var after := set i | 0 <= i < |plans| && (plans[i].mode.Copy? || plans[i].mode.CompileTs?);
      assert after == before + if plans[last].mode.Copy? || plans[last].mode.CompileTs? then {last} else {};
    }
  }
}
