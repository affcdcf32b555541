/** Which elements a snapshot lists, told from the parent links of the page alone. */
module SnapshotRoots {
  import opened Wrappers
  import opened Text
  import opened Snapshots
  import opened SnapshotRefs

  /** Each index of the chain names an element, and the next one is its parent. */
  ghost predicate Climbs(doc: Document, chain: seq<nat>) {
    && chain != [] && (forall i :: 0 <= i < |chain| ==> chain[i] < |doc.elements|)
    && forall i :: 0 <= i < |chain| - 1 ==> doc.elements[chain[i]].parent == Some(chain[i + 1])
  }

  /** `steps` parent links lead from one element to the other. */
  ghost predicate Reaches(doc: Document, from: nat, to: nat, steps: nat) {
    exists chain :: Climbs(doc, chain) && |chain| == steps + 1 && chain[0] == from && chain[steps] == to
  }

  lemma {:induction false} DistanceReaches(doc: Valid, from: nat, to: nat)
    requires from < |doc.elements| && Distance(doc, from, to).Some?
    ensures Reaches(doc, from, to, Distance(doc, from, to).value)
  {
    if from == to {
      assert Climbs(doc, [from]);
    } else {
      var parent := doc.elements[from].parent.value;
      DistanceReaches(doc, parent, to);
      var d := Distance(doc, parent, to).value;
      var chain :| Climbs(doc, chain) && |chain| == d + 1 && chain[0] == parent && chain[d] == to;
      assert Climbs(doc, [from] + chain);
      assert ([from] + chain)[d + 1] == to;
    }
  }

  lemma {:induction false} ChainDistance(doc: Valid, chain: seq<nat>)
    requires Climbs(doc, chain)
    ensures chain[|chain| - 1] <= chain[0] && (|chain| > 1 ==> chain[|chain| - 1] < chain[0])
    ensures Distance(doc, chain[0], chain[|chain| - 1]) == Some(|chain| - 1)
  {
    if |chain| > 1 {
      assert doc.elements[chain[0]].parent == Some(chain[1]);
      assert Climbs(doc, chain[1..]);
      ChainDistance(doc, chain[1..]);
    }
  }

  lemma ReachesExactly(doc: Valid, from: nat, to: nat, steps: nat)
    requires from < |doc.elements|
    ensures Distance(doc, from, to) == Some(steps) <==> Reaches(doc, from, to, steps)
  {
    if Distance(doc, from, to).Some? {
      DistanceReaches(doc, from, to);
    }
    if Reaches(doc, from, to, steps) {
      var chain :| Climbs(doc, chain) && |chain| == steps + 1 && chain[0] == from && chain[steps] == to;
      ChainDistance(doc, chain);
    }
  }

  /** The element at a handle, if every iframe on the way holds a document that can be read. */
  function ElementAt(doc: Valid, frames: seq<nat>, element: nat): Option<Element>
    decreases |frames|
  {
    if frames == [] then if element < |doc.elements| then Some(doc.elements[element]) else None
    else if frames[0] < |doc.elements| && doc.elements[frames[0]].frame.IFrame? && doc.elements[frames[0]].frame.content.Some?
    then ElementAt(doc.elements[frames[0]].frame.content.value, frames[1..], element)
    else None
  }

  /** The element of the top document through which a handle leads. */
  function Head(h: Handle): nat {
    if h.frames == [] then h.element else h.frames[0]
  }

  /** With a root element, parent links lead to it from the element, or from the iframe that the element
      is below; for an element of the top document there are no more of them than the depth limit. */
  ghost predicate UnderRoot(top: Document, root: Root, limit: Option<int>, h: Handle) {
    root.WholeDocument? || exists steps: nat ::
      Reaches(top, Head(h), root.index, steps) && (h.frames == [] && limit.Some? ==> steps <= limit.value)
  }

  /** The element is interactive, visible and under the root. */
  ghost predicate Wanted(top: Valid, root: Root, limit: Option<int>, h: Handle) {
    && ElementAt(top, h.frames, h.element).Some?
    && ElementAt(top, h.frames, h.element).value.interactive && ElementAt(top, h.frames, h.element).value.visible
    && UnderRoot(top, root, limit, h)
  }

  // ----- Listed targets are present and pass the filters -----

  lemma {:induction false} CatalogElementPresent(doc: Valid, path: seq<string>, frames: seq<nat>, k: nat, e: Entry)
    requires e in CatalogElements(doc, path, frames, k)
    ensures e.target.frames == frames && Present(doc, |frames|, e.target)
    decreases |Select(doc, Interactive)| - k
  {
    if e in CatalogElements(doc, path, frames, k + 1) {
      CatalogElementPresent(doc, path, frames, k + 1, e);
    }
  }

  lemma {:induction false} CatalogFramePresent(doc: Valid, path: seq<string>, frames: seq<nat>, k: nat, e: Entry)
    requires e in CatalogFrames(doc, path, frames, k)
    ensures frames <= e.target.frames && |frames| < |e.target.frames| && Present(doc, |frames|, e.target)
    decreases doc, 0, |Select(doc, Frames)| - k
  {
    var all := Select(doc, Frames);
    if e in CatalogFrames(doc, path, frames, k + 1) {
      CatalogFramePresent(doc, path, frames, k + 1, e);
    } else {
      var inner := frames + [all[k]];
      CatalogPresent(doc.elements[all[k]].frame.content.value, path + [FrameSegment(k)], inner, e);
      assert e.target.frames[..|inner|] == inner;
      assert e.target.frames[|frames|] == inner[|frames|];
      assert e.target.frames[..|frames|] == inner[..|frames|] == frames;
    }
  }

  lemma {:induction false} CatalogPresent(doc: Valid, path: seq<string>, frames: seq<nat>, e: Entry)
    requires e in Catalog(doc, path, frames)
    ensures frames <= e.target.frames && Present(doc, |frames|, e.target)
    decreases doc, 1, 0
  {
    if e in CatalogElements(doc, path, frames, 0) {
      CatalogElementPresent(doc, path, frames, 0, e);
    } else {
      CatalogFramePresent(doc, path, frames, 0, e);
    }
  }

  /** Below the top document only presence and visibility matter. */
  lemma {:induction false} BelowExactly(doc: Valid, depth: nat, h: Handle)
    requires depth <= |h.frames|
    ensures var at := ElementAt(doc, h.frames[depth..], h.element);
      (Present(doc, depth, h) && Keeps(doc, WholeDocument, None, depth, h))
      <==> at.Some? && at.value.interactive && at.value.visible
    decreases |h.frames| - depth
  {
    if depth < |h.frames| {
      var f := h.frames[depth];
      assert h.frames[depth..][1..] == h.frames[depth + 1..];
      if f < |doc.elements| && doc.elements[f].frame.IFrame? && doc.elements[f].frame.content.Some? {
        BelowExactly(doc.elements[f].frame.content.value, depth + 1, h);
      }
    }
  }

  lemma UnderRootExactly(top: Valid, root: Root, limit: Option<int>, h: Handle)
    requires Head(h) < |top.elements|
    ensures UnderRoot(top, root, limit, h) <==>
      InRoot(top, root, Head(h)) && (h.frames == [] ==> WithinDepth(top, root, limit, Head(h)))
  {
    if root.RootElement? {
      forall steps: nat
        ensures Distance(top, Head(h), root.index) == Some(steps) <==> Reaches(top, Head(h), root.index, steps)
      {
        ReachesExactly(top, Head(h), root.index, steps);
      }
    }
  }

  lemma WantedExactly(top: Valid, root: Root, limit: Option<int>, h: Handle)
    ensures Present(top, 0, h) && Keeps(top, root, limit, 0, h) <==> Wanted(top, root, limit, h)
  {
    if Head(h) < |top.elements| {
      UnderRootExactly(top, root, limit, h);
    }
    if h.frames != [] {
      var f := h.frames[0];
      if f < |top.elements| && top.elements[f].frame.IFrame? && top.elements[f].frame.content.Some? {
        BelowExactly(top.elements[f].frame.content.value, 1, h);
        assert h.frames[1..] == h.frames[0..][1..];
      }
    }
  }

  /** Main result on the root: the full traversal lists an element exactly when it is interactive and
      visible and parent links lead from it, or from the iframe it is below, to the root. */
  lemma ListedExactly(top: Valid, root: Root, limit: Option<int>, h: Handle)
    ensures (exists e :: e in Listing(top, root, limit, ["el"], []) && e.target == h) <==> Wanted(top, root, limit, h)
  {
    WantedExactly(top, root, limit, h);
    ListingFiltered(top, root, limit, ["el"], []);
    if e :| e in Listing(top, root, limit, ["el"], []) && e.target == h {
      KeptMember(top, root, limit, 0, Catalog(top, ["el"], []), e);
      CatalogPresent(top, ["el"], [], e);
    }
    if Wanted(top, root, limit, h) {
      var e := ListingComplete(top, root, limit, h);
    }
  }

  /** A snapshot lists wanted elements only, and all of them unless there are more than 300. */
  lemma SnapshotExactly(top: Valid, root: Root, limit: Option<int>)
    ensures var taken, all := Snapshot(top, root, limit), Listing(top, root, limit, ["el"], []);
      && taken <= all && |taken| == (if |all| < 300 then |all| else 300)
      && (forall e :: e in taken ==> Wanted(top, root, limit, e.target))
      && (|all| <= 300 ==> forall h :: Wanted(top, root, limit, h) ==> exists e :: e in taken && e.target == h)
  {
    var taken, all := Snapshot(top, root, limit), Listing(top, root, limit, ["el"], []);
    forall e | e in taken ensures Wanted(top, root, limit, e.target) {
      assert e in all;
      ListedExactly(top, root, limit, e.target);
    }
    forall h | Wanted(top, root, limit, h) ensures exists e :: e in all && e.target == h {
      ListedExactly(top, root, limit, h);
    }
  }
}
