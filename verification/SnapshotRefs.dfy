/** Properties of snapshot refs: they resolve to the element they were emitted for, never
    collide, and do not depend on the filters. */
module SnapshotRefs {
  import opened Wrappers
  import opened Text
  import opened Snapshots
  import opened Sequences

  /** `e`'s ref extends `path` by `segments`, which lead from `doc` to `e`'s target. */
  ghost predicate Leads(number: NumberReader, doc: Valid, path: seq<string>, frames: seq<nat>, segments: seq<string>, e: Entry) {
    && segments != [] && AllFree(segments, ':')
    && e.ref == Join(path + segments, ':')
    && ResolveFrom(number, doc, frames, segments) == Found(e.target)
  }

  lemma {:induction false} ElementLeads(number: NumberReader, doc: Valid, root: Root, limit: Option<int>,
                                        path: seq<string>, frames: seq<nat>, k: nat, e: Entry)
    requires ReadsDecimals(number) && Indexable(doc)
    requires e in ElementEntries(doc, root, limit, path, frames, k)
    ensures exists segments :: Leads(number, doc, path, frames, segments, e)
    decreases |Select(doc, Interactive)| - k
  {
    var all := Select(doc, Interactive);
    if e in ElementEntries(doc, root, limit, path, frames, k + 1) {
      ElementLeads(number, doc, root, limit, path, frames, k + 1, e);
    } else {
      SelectSize(doc, Interactive, 0);
      assert Leads(number, doc, path, frames, [Decimal(k)], e);
    }
  }

  /** A frame segment resolves to the document of the iframe at that position. */
  lemma ResolveThrough(number: NumberReader, doc: Valid, frames: seq<nat>, k: nat, inner: seq<string>)
    requires ReadsDecimals(number) && Indexable(doc) && inner != []
    requires k < |Select(doc, Frames)| && doc.elements[Select(doc, Frames)[k]].frame.content.Some?
    ensures var f := Select(doc, Frames)[k];
      ResolveFrom(number, doc, frames, [FrameSegment(k)] + inner)
        == ResolveFrom(number, doc.elements[f].frame.content.value, frames + [f], inner)
  {
    var segments := [FrameSegment(k)] + inner;
    assert segments[1..] == inner && segments[0] == FrameSegment(k);
    assert FrameSegment(k)[1..] == Decimal(k);
    SelectSize(doc, Frames, 0);
  }

  /** A frame segment leads into the document of the iframe at that position. */
  lemma LeadsThrough(number: NumberReader, doc: Valid, path: seq<string>, frames: seq<nat>, k: nat, inner: seq<string>, e: Entry)
    requires ReadsDecimals(number) && Indexable(doc)
    requires k < |Select(doc, Frames)| && doc.elements[Select(doc, Frames)[k]].frame.content.Some?
    requires var f := Select(doc, Frames)[k];
      Leads(number, doc.elements[f].frame.content.value, path + [FrameSegment(k)], frames + [f], inner, e)
    ensures Leads(number, doc, path, frames, [FrameSegment(k)] + inner, e)
  {
    var segments := [FrameSegment(k)] + inner;
    ResolveThrough(number, doc, frames, k, inner);
    Assoc(path, [FrameSegment(k)], inner);
    assert Free(FrameSegment(k), ':');
  }

  lemma {:induction false} FrameLeads(number: NumberReader, doc: Valid, root: Root,
                                      path: seq<string>, frames: seq<nat>, k: nat, e: Entry)
    requires ReadsDecimals(number) && Indexable(doc)
    requires e in FrameEntries(doc, root, path, frames, k)
    ensures exists segments :: Leads(number, doc, path, frames, segments, e)
    decreases doc, 0, |Select(doc, Frames)| - k
  {
    if e in FrameEntries(doc, root, path, frames, k + 1) {
      FrameLeads(number, doc, root, path, frames, k + 1, e);
    } else {
      var f := Select(doc, Frames)[k];
      var content := doc.elements[f].frame.content.value;
      ListingLeads(number, content, WholeDocument, None, path + [FrameSegment(k)], frames + [f], e);
      var inner :| Leads(number, content, path + [FrameSegment(k)], frames + [f], inner, e);
      LeadsThrough(number, doc, path, frames, k, inner, e);
    }
  }

  lemma {:induction false} ListingLeads(number: NumberReader, doc: Valid, root: Root, limit: Option<int>,
                                        path: seq<string>, frames: seq<nat>, e: Entry)
    requires ReadsDecimals(number) && Indexable(doc)
    requires e in Listing(doc, root, limit, path, frames)
    ensures exists segments :: Leads(number, doc, path, frames, segments, e)
    decreases doc, 1, 0
  {
    if e in ElementEntries(doc, root, limit, path, frames, 0) {
      ElementLeads(number, doc, root, limit, path, frames, 0, e);
    } else {
      FrameLeads(number, doc, root, path, frames, 0, e);
    }
  }

  /** Main result: every ref in a snapshot resolves to the element it was emitted for. */
  lemma RefRoundTrip(number: NumberReader, top: Valid, root: Root, limit: Option<int>, e: Entry)
    requires ReadsDecimals(number) && Indexable(top)
    requires e in Snapshot(top, root, limit)
    ensures ResolveRef(number, top, e.ref) == Found(e.target)
  {
    ListingLeads(number, top, root, limit, ["el"], [], e);
    var segments :| Leads(number, top, ["el"], [], segments, e);
    var parts := ["el"] + segments;
    SplitJoin(parts, ':');
    assert parts[1..] == segments;
  }

  /** Distinct targets: no element is listed twice. */
  ghost predicate Distinct(entries: seq<Entry>) {
    forall i, j :: 0 <= i < j < |entries| ==> entries[i].target != entries[j].target
  }

  lemma {:induction false} ElementTargets(doc: Valid, root: Root, limit: Option<int>, path: seq<string>, frames: seq<nat>, k: nat)
    requires k <= |Select(doc, Interactive)|
    ensures var here := ElementEntries(doc, root, limit, path, frames, k);
      && Distinct(here)
      && (forall i :: 0 <= i < |here| ==> here[i].target.frames == frames)
      && (forall i :: 0 <= i < |here| ==> here[i].target.element in Select(doc, Interactive)[k..])
    decreases |Select(doc, Interactive)| - k
  {
    var all := Select(doc, Interactive);
    if k < |all| {
      ElementTargets(doc, root, limit, path, frames, k + 1);
    }
  }

  /** A target below the iframes of `doc` starts with `frames` and then one of those iframes. */
  ghost predicate Below(doc: Valid, frames: seq<nat>, k: nat, target: Handle) {
    && |frames| < |target.frames| && target.frames[..|frames|] == frames
    && exists m :: k <= m < |Select(doc, Frames)| && target.frames[|frames|] == Select(doc, Frames)[m]
  }

  lemma {:induction false} FrameTargets(doc: Valid, root: Root, path: seq<string>, frames: seq<nat>, k: nat)
    ensures var below := FrameEntries(doc, root, path, frames, k);
      Distinct(below) && forall i :: 0 <= i < |below| ==> Below(doc, frames, k, below[i].target)
    decreases doc, 0, |Select(doc, Frames)| - k
  {
    var all := Select(doc, Frames);
    if k < |all| {
      FrameTargets(doc, root, path, frames, k + 1);
      var frame := doc.elements[all[k]].frame;
      if InRoot(doc, root, all[k]) && frame.content.Some? {
        var inner := frames + [all[k]];
        var below := Listing(frame.content.value, WholeDocument, None, path + [FrameSegment(k)], inner);
        ListingTargets(frame.content.value, WholeDocument, None, path + [FrameSegment(k)], inner);
        forall i | 0 <= i < |below|
          ensures below[i].target.frames[..|frames|] == frames && below[i].target.frames[|frames|] == all[k]
        {
          assert below[i].target.frames[..|inner|] == inner;
          assert below[i].target.frames[..|frames|] == inner[..|frames|];
        }
      }
    }
  }

  lemma {:induction false} ListingTargets(doc: Valid, root: Root, limit: Option<int>, path: seq<string>, frames: seq<nat>)
    ensures var entries := Listing(doc, root, limit, path, frames);
      Distinct(entries) && forall i :: 0 <= i < |entries| ==>
        |frames| <= |entries[i].target.frames| && entries[i].target.frames[..|frames|] == frames
    decreases doc, 1, 0
  {
    ElementTargets(doc, root, limit, path, frames, 0);
    FrameTargets(doc, root, path, frames, 0);
  }

  /** Main result: the refs of a snapshot are pairwise distinct. */
  lemma RefsDistinct(number: NumberReader, top: Valid, root: Root, limit: Option<int>, i: nat, j: nat)
    requires ReadsDecimals(number) && Indexable(top)
    requires i < j < |Snapshot(top, root, limit)|
    ensures Snapshot(top, root, limit)[i].ref != Snapshot(top, root, limit)[j].ref
  {
    var taken := Snapshot(top, root, limit);
    ListingTargets(top, root, limit, ["el"], []);
    RefRoundTrip(number, top, root, limit, taken[i]);
    RefRoundTrip(number, top, root, limit, taken[j]);
  }

  // ----- Filtering -----

  /** The reference listing: every interactive element of every document within reach, by
      position alone. */
  function CatalogElements(doc: Valid, path: seq<string>, frames: seq<nat>, k: nat): seq<Entry>
    decreases |Select(doc, Interactive)| - k
  {
    var all := Select(doc, Interactive);
    if k >= |all| then []
    else [Entry(Join(path + [Decimal(k)], ':'), Handle(frames, all[k]))] + CatalogElements(doc, path, frames, k + 1)
  }

  function CatalogFrames(doc: Valid, path: seq<string>, frames: seq<nat>, k: nat): seq<Entry>
    decreases doc, 0, |Select(doc, Frames)| - k
  {
    var all := Select(doc, Frames);
    if k >= |all| then []
    else
      var content := doc.elements[all[k]].frame.content;
      (if content.None? then [] else Catalog(content.value, path + [FrameSegment(k)], frames + [all[k]]))
      + CatalogFrames(doc, path, frames, k + 1)
  }

  function Catalog(doc: Valid, path: seq<string>, frames: seq<nat>): seq<Entry>
    decreases doc, 1, 0
  {
    CatalogElements(doc, path, frames, 0) + CatalogFrames(doc, path, frames, 0)
  }

  /** The element at `h` passes the filters; `doc` is the document its first `depth` frames lead to. */
  predicate Keeps(doc: Valid, root: Root, limit: Option<int>, depth: nat, h: Handle)
    decreases |h.frames| - depth
  {
    if |h.frames| <= depth then h.element < |doc.elements| && Eligible(doc, root, limit, h.element)
    else
      var f := h.frames[depth];
      f < |doc.elements| && InRoot(doc, root, f) &&
      var frame := doc.elements[f].frame;
      frame.IFrame? && frame.content.Some? && Keeps(frame.content.value, WholeDocument, None, depth + 1, h)
  }

  function Kept(doc: Valid, root: Root, limit: Option<int>, depth: nat, entries: seq<Entry>): seq<Entry> {
    if entries == [] then []
    else
      var rest := Kept(doc, root, limit, depth, entries[1..]);
      if Keeps(doc, root, limit, depth, entries[0].target) then [entries[0]] + rest else rest
  }

  lemma {:induction false} KeptConcat(doc: Valid, root: Root, limit: Option<int>, depth: nat, a: seq<Entry>, b: seq<Entry>)
    ensures Kept(doc, root, limit, depth, a + b) == Kept(doc, root, limit, depth, a) + Kept(doc, root, limit, depth, b)
  {
    if a == [] {
      Unit(b);
      Unit(Kept(doc, root, limit, depth, b));
    } else {
      KeptConcat(doc, root, limit, depth, a[1..], b);
      TailOfConcat(a, b);
      Assoc([a[0]], Kept(doc, root, limit, depth, a[1..]), Kept(doc, root, limit, depth, b));
    }
  }

  /** Every target of the entries lies in the document that `frames` leads to, or below it. */
  ghost predicate AllUnder(frames: seq<nat>, entries: seq<Entry>) {
    forall i :: 0 <= i < |entries| ==> frames <= entries[i].target.frames
  }

  lemma {:induction false} CatalogFramesUnder(doc: Valid, path: seq<string>, frames: seq<nat>, k: nat)
    ensures AllUnder(frames, CatalogFrames(doc, path, frames, k))
    decreases doc, 0, |Select(doc, Frames)| - k
  {
    var all := Select(doc, Frames);
    if k < |all| {
      CatalogFramesUnder(doc, path, frames, k + 1);
      var content := doc.elements[all[k]].frame.content;
      if content.Some? {
        CatalogUnder(content.value, path + [FrameSegment(k)], frames + [all[k]]);
        assert frames <= frames + [all[k]];
      }
    }
  }

  lemma {:induction false} CatalogElementsUnder(doc: Valid, path: seq<string>, frames: seq<nat>, k: nat)
    ensures AllUnder(frames, CatalogElements(doc, path, frames, k))
    decreases |Select(doc, Interactive)| - k
  {
    if k < |Select(doc, Interactive)| {
      CatalogElementsUnder(doc, path, frames, k + 1);
    }
  }

  lemma {:induction false} CatalogUnder(doc: Valid, path: seq<string>, frames: seq<nat>)
    ensures AllUnder(frames, Catalog(doc, path, frames))
    decreases doc, 1, 0
  {
    CatalogElementsUnder(doc, path, frames, 0);
    CatalogFramesUnder(doc, path, frames, 0);
  }

  /** Below iframe `f` the filters of `doc` are those of the frame's document, if `f` is in the root. */
  lemma {:induction false} KeptBelow(doc: Valid, root: Root, limit: Option<int>, frames: seq<nat>, f: nat, entries: seq<Entry>)
    requires f < |doc.elements| && doc.elements[f].frame.IFrame? && doc.elements[f].frame.content.Some?
    requires AllUnder(frames + [f], entries)
    ensures Kept(doc, root, limit, |frames|, entries) ==
      if InRoot(doc, root, f) then Kept(doc.elements[f].frame.content.value, WholeDocument, None, |frames| + 1, entries) else []
  {
    if entries != [] {
      KeptBelow(doc, root, limit, frames, f, entries[1..]);
      assert frames + [f] <= entries[0].target.frames;
      assert entries[0].target.frames[|frames|] == (frames + [f])[|frames|];
    }
  }

  lemma {:induction false} ElementsFiltered(doc: Valid, root: Root, limit: Option<int>, path: seq<string>, frames: seq<nat>, k: nat)
    ensures ElementEntries(doc, root, limit, path, frames, k) ==
      Kept(doc, root, limit, |frames|, CatalogElements(doc, path, frames, k))
    decreases |Select(doc, Interactive)| - k
  {
    if k < |Select(doc, Interactive)| {
      ElementsFiltered(doc, root, limit, path, frames, k + 1);
    }
  }

  lemma {:induction false} FramesFiltered(doc: Valid, root: Root, limit: Option<int>, path: seq<string>, frames: seq<nat>, k: nat)
    ensures FrameEntries(doc, root, path, frames, k) ==
      Kept(doc, root, limit, |frames|, CatalogFrames(doc, path, frames, k))
    decreases doc, 0, |Select(doc, Frames)| - k
  {
    var all := Select(doc, Frames);
    if k < |all| {
      FramesFiltered(doc, root, limit, path, frames, k + 1);
      var content := doc.elements[all[k]].frame.content;
      if content.Some? {
        var inner := frames + [all[k]];
        var below := Catalog(content.value, path + [FrameSegment(k)], inner);
        CatalogUnder(content.value, path + [FrameSegment(k)], inner);
        ListingFiltered(content.value, WholeDocument, None, path + [FrameSegment(k)], inner);
        KeptBelow(doc, root, limit, frames, all[k], below);
        KeptConcat(doc, root, limit, |frames|, below, CatalogFrames(doc, path, frames, k + 1));
      } else {
        Unit(CatalogFrames(doc, path, frames, k + 1));
      }
    }
  }

  /** Main result: root, depth and visibility filters only drop entries of the reference listing.
      They never renumber, reorder or rename one. */
  lemma {:induction false} ListingFiltered(doc: Valid, root: Root, limit: Option<int>, path: seq<string>, frames: seq<nat>)
    ensures Listing(doc, root, limit, path, frames) == Kept(doc, root, limit, |frames|, Catalog(doc, path, frames))
    decreases doc, 1, 0
  {
    ElementsFiltered(doc, root, limit, path, frames, 0);
    FramesFiltered(doc, root, limit, path, frames, 0);
    KeptConcat(doc, root, limit, |frames|, CatalogElements(doc, path, frames, 0), CatalogFrames(doc, path, frames, 0));
  }

  // ----- Completeness -----

  /** An interactive element exists at `h`, counting frames from `depth`. */
  predicate Present(doc: Valid, depth: nat, h: Handle)
    decreases |h.frames| - depth
  {
    if |h.frames| <= depth then h.element < |doc.elements| && doc.elements[h.element].interactive
    else
      var f := h.frames[depth];
      f < |doc.elements| &&
      var frame := doc.elements[f].frame;
      frame.IFrame? && frame.content.Some? && Present(frame.content.value, depth + 1, h)
  }

  lemma {:induction false} SelectComplete(doc: Document, selector: Selector, from: nat, el: nat)
    requires from <= el < |doc.elements| && Matches(doc.elements[el], selector)
    ensures el in SelectFrom(doc, selector, from)
    decreases el - from
  {
    if from < el {
      SelectComplete(doc, selector, from + 1, el);
    }
  }

  lemma {:induction false} CatalogElementAt(doc: Valid, path: seq<string>, frames: seq<nat>, k: nat, m: nat)
    requires k <= m < |Select(doc, Interactive)|
    ensures |CatalogElements(doc, path, frames, k)| > m - k
    ensures CatalogElements(doc, path, frames, k)[m - k].target == Handle(frames, Select(doc, Interactive)[m])
    decreases m - k
  {
    if k < m {
      CatalogElementAt(doc, path, frames, k + 1, m);
    }
  }

  lemma {:induction false} CatalogFrameAt(doc: Valid, path: seq<string>, frames: seq<nat>, k: nat, m: nat, e: Entry)
    requires k <= m < |Select(doc, Frames)|
    requires var f := Select(doc, Frames)[m];
      doc.elements[f].frame.content.Some? &&
      e in Catalog(doc.elements[f].frame.content.value, path + [FrameSegment(m)], frames + [f])
    ensures e in CatalogFrames(doc, path, frames, k)
    decreases m - k
  {
    if k < m {
      CatalogFrameAt(doc, path, frames, k + 1, m, e);
    }
  }

  lemma {:induction false} CatalogComplete(doc: Valid, path: seq<string>, frames: seq<nat>, h: Handle) returns (e: Entry)
    requires frames <= h.frames && Present(doc, |frames|, h)
    ensures e in Catalog(doc, path, frames) && e.target == h
    decreases |h.frames| - |frames|
  {
    if |h.frames| == |frames| {
      SelectComplete(doc, Interactive, 0, h.element);
      var m :| 0 <= m < |Select(doc, Interactive)| && Select(doc, Interactive)[m] == h.element;
      CatalogElementAt(doc, path, frames, 0, m);
      e := CatalogElements(doc, path, frames, 0)[m];
    } else {
      var f := h.frames[|frames|];
      SelectComplete(doc, Frames, 0, f);
      var m :| 0 <= m < |Select(doc, Frames)| && Select(doc, Frames)[m] == f;
      e := CatalogComplete(doc.elements[f].frame.content.value, path + [FrameSegment(m)], frames + [f], h);
      CatalogFrameAt(doc, path, frames, 0, m, e);
    }
  }

  lemma {:induction false} KeptMember(doc: Valid, root: Root, limit: Option<int>, depth: nat, entries: seq<Entry>, e: Entry)
    ensures e in Kept(doc, root, limit, depth, entries) <==> e in entries && Keeps(doc, root, limit, depth, e.target)
  {
    if entries != [] {
      KeptMember(doc, root, limit, depth, entries[1..], e);
    }
  }

  /** Main result: the full traversal lists every present element that passes the filters. */
  lemma ListingComplete(top: Valid, root: Root, limit: Option<int>, h: Handle) returns (e: Entry)
    requires Present(top, 0, h) && Keeps(top, root, limit, 0, h)
    ensures e in Listing(top, root, limit, ["el"], []) && e.target == h
  {
    e := CatalogComplete(top, ["el"], [], h);
    ListingFiltered(top, root, limit, ["el"], []);
    KeptMember(top, root, limit, 0, Catalog(top, ["el"], []), e);
  }
}
