/** The page snapshot: how refs are collected over a tree of documents and iframes, and how a
    ref is resolved back to an element. */
module Snapshots {
  import opened Wrappers
  import opened Text

  const MAX_ITEMS := 300

  /** A document lists its elements in document order; `parent` is the index of the parent
      element. A frame's content is None where the browser withholds the document. */
  datatype Document = Document(elements: seq<Element>)

  datatype Element = Element(parent: Option<nat>, interactive: bool, visible: bool, frame: FrameKind)

  datatype FrameKind = NoFrame | IFrame(content: Option<Document>)

  /** Parents precede their children, in this document and in every document below it. */
  predicate ValidDocument(doc: Document) {
    forall i :: 0 <= i < |doc.elements| ==>
      var e := doc.elements[i];
      && (e.parent.Some? ==> e.parent.value < i)
      && (e.frame.IFrame? && e.frame.content.Some? ==> ValidDocument(e.frame.content.value))
  }

  type Valid = d: Document | ValidDocument(d) witness Document([])

  datatype Selector = Interactive | Frames

  predicate Matches(e: Element, selector: Selector) {
    match selector
    case Interactive => e.interactive
    case Frames => e.frame.IFrame?
  }

  /** `querySelectorAll`: the indices, from `from` on, of the matching elements. */
  function SelectFrom(doc: Document, selector: Selector, from: nat): (found: seq<nat>)
    ensures forall i :: 0 <= i < |found| ==>
      from <= found[i] < |doc.elements| && Matches(doc.elements[found[i]], selector)
    ensures forall i, j :: 0 <= i < j < |found| ==> found[i] < found[j]
    decreases |doc.elements| - from
  {
    if from >= |doc.elements| then []
    else
      var rest := SelectFrom(doc, selector, from + 1);
      if Matches(doc.elements[from], selector) then [from] + rest else rest
  }

  function Select(doc: Document, selector: Selector): (found: seq<nat>)
    ensures forall i :: 0 <= i < |found| ==> found[i] < |doc.elements| && Matches(doc.elements[found[i]], selector)
    ensures forall i, j :: 0 <= i < j < |found| ==> found[i] < found[j]
  {
    SelectFrom(doc, selector, 0)
  }

  lemma {:induction false} SelectSize(doc: Document, selector: Selector, from: nat)
    ensures |SelectFrom(doc, selector, from)| <= if from <= |doc.elements| then |doc.elements| - from else 0
    decreases |doc.elements| - from
  {
    if from < |doc.elements| {
      SelectSize(doc, selector, from + 1);
    }
  }

  /** An element's identity: the iframe elements that lead to its document, and its index there. */
  datatype Handle = Handle(frames: seq<nat>, element: nat)

  datatype Root = WholeDocument | RootElement(index: nat)

  datatype Entry = Entry(ref: string, target: Handle)

  // ----- The filters -----

  /** How many parent steps lead from `from` to `to`, if any do. */
  function Distance(doc: Valid, from: nat, to: nat): Option<nat>
    requires from < |doc.elements|
  {
    if from == to then Some(0)
    else match doc.elements[from].parent
      case None => None
      case Some(p) =>
        match Distance(doc, p, to)
        case None => None
        case Some(d) => Some(d + 1)
  }

  /** `root.contains(el)`, or the root is the document itself. */
  predicate InRoot(doc: Valid, root: Root, el: nat)
    requires el < |doc.elements|
  {
    root.WholeDocument? || Distance(doc, el, root.index).Some?
  }

  predicate WithinDepth(doc: Valid, root: Root, limit: Option<int>, el: nat)
    requires el < |doc.elements|
  {
    limit.None? || root.WholeDocument? ||
    (Distance(doc, el, root.index).Some? && Distance(doc, el, root.index).value <= limit.value)
  }

  predicate Eligible(doc: Valid, root: Root, limit: Option<int>, el: nat)
    requires el < |doc.elements|
  {
    InRoot(doc, root, el) && WithinDepth(doc, root, limit, el) && doc.elements[el].visible
  }

  method CheckWithinDepth(doc: Valid, root: Root, limit: Option<int>, el: nat) returns (within: bool)
    requires el < |doc.elements|
    ensures within == WithinDepth(doc, root, limit, el)
  {
    if limit.None? || root.WholeDocument? {
      return true;
    }
    var depth := 0;
    var node: Option<nat> := Some(el);
    while node.Some? && node.value != root.index
      invariant node.Some? ==> node.value < |doc.elements|
      invariant node.None? ==> Distance(doc, el, root.index) == None
      invariant node.Some? ==>
        var rest := Distance(doc, node.value, root.index);
        Distance(doc, el, root.index) == if rest.Some? then Some(rest.value + depth) else None
      decreases if node.Some? then node.value + 1 else 0
    {
      depth := depth + 1;
      node := doc.elements[node.value].parent;
    }
    return node == Some(root.index) && depth <= limit.value;
  }

  // ----- Collecting -----

  function FrameSegment(index: nat): string {
    "f" + Decimal(index)
  }

  /** The entries of the interactive elements from position `k` of the selector list on. */
  function ElementEntries(doc: Valid, root: Root, limit: Option<int>, path: seq<string>, frames: seq<nat>, k: nat): seq<Entry>
    decreases |Select(doc, Interactive)| - k
  {
    var all := Select(doc, Interactive);
    if k >= |all| then []
    else
      var rest := ElementEntries(doc, root, limit, path, frames, k + 1);
      if Eligible(doc, root, limit, all[k])
      then [Entry(Join(path + [Decimal(k)], ':'), Handle(frames, all[k]))] + rest
      else rest
  }

  /** The entries below the iframes from position `k` of the iframe list on. */
  function FrameEntries(doc: Valid, root: Root, path: seq<string>, frames: seq<nat>, k: nat): seq<Entry>
    decreases doc, 0, |Select(doc, Frames)| - k
  {
    var all := Select(doc, Frames);
    if k >= |all| then []
    else
      var frame := doc.elements[all[k]];
      var rest := FrameEntries(doc, root, path, frames, k + 1);
      if InRoot(doc, root, all[k]) && frame.frame.content.Some?
      then
        var below := Listing(frame.frame.content.value, WholeDocument, None, path + [FrameSegment(k)], frames + [all[k]]);
        below + rest
      else rest
  }

  /** The full traversal, without the item cap. Below an iframe the root is the frame's whole
      document, where no depth limit applies. */
  function Listing(doc: Valid, root: Root, limit: Option<int>, path: seq<string>, frames: seq<nat>): seq<Entry>
    decreases doc, 1, 0
  {
    ElementEntries(doc, root, limit, path, frames, 0) + FrameEntries(doc, root, path, frames, 0)
  }

  function Capped(entries: seq<Entry>): (capped: seq<Entry>)
    ensures |capped| <= MAX_ITEMS
  {
    if |entries| <= MAX_ITEMS then entries else entries[..MAX_ITEMS]
  }

  /** What the snapshot script returns when its root selector matched `root`, or was absent. */
  function Snapshot(top: Valid, root: Root, limit: Option<int>): seq<Entry> {
    Capped(Listing(top, root, limit, ["el"], []))
  }

  class Collector {
    var output: seq<Entry>

    constructor ()
      ensures output == []
    {
      output := [];
    }

    /** The recursive collector. Its two loops and every recursive call share one item guard. */
    method Collect(doc: Valid, root: Root, limit: Option<int>, path: seq<string>, frames: seq<nat>)
      requires |output| <= MAX_ITEMS
      modifies this
      ensures output == Capped(old(output) + Listing(doc, root, limit, path, frames))
      decreases doc, 1
    {
      CappedInTwo(output, ElementEntries(doc, root, limit, path, frames, 0), FrameEntries(doc, root, path, frames, 0));
      CollectElements(doc, root, limit, path, frames);
      CollectFrames(doc, root, path, frames);
    }

    method CollectElements(doc: Valid, root: Root, limit: Option<int>, path: seq<string>, frames: seq<nat>)
      requires |output| <= MAX_ITEMS
      modifies this
      ensures output == Capped(old(output) + ElementEntries(doc, root, limit, path, frames, 0))
    {
      ghost var whole := Capped(output + ElementEntries(doc, root, limit, path, frames, 0));
      var all := Select(doc, Interactive);
      var index := 0;
      while index < |all| && |output| < MAX_ITEMS
        invariant index <= |all| && |output| <= MAX_ITEMS
        invariant whole == Capped(output + ElementEntries(doc, root, limit, path, frames, index))
      {
        var el := all[index];
        ghost var rest := ElementEntries(doc, root, limit, path, frames, index + 1);
        var within := CheckWithinDepth(doc, root, limit, el);
        if InRoot(doc, root, el) && within && doc.elements[el].visible {
          var entry := Entry(Join(path + [Decimal(index)], ':'), Handle(frames, el));
          assert output + ([entry] + rest) == output + [entry] + rest;
          output := output + [entry];
        }
        index := index + 1;
      }
    }

    method CollectFrames(doc: Valid, root: Root, path: seq<string>, frames: seq<nat>)
      requires |output| <= MAX_ITEMS
      modifies this
      ensures output == Capped(old(output) + FrameEntries(doc, root, path, frames, 0))
      decreases doc, 0
    {
      ghost var whole := Capped(output + FrameEntries(doc, root, path, frames, 0));
      var inner := Select(doc, Frames);
      var frameIndex := 0;
      while frameIndex < |inner| && |output| < MAX_ITEMS
        invariant frameIndex <= |inner| && |output| <= MAX_ITEMS
        invariant whole == Capped(output + FrameEntries(doc, root, path, frames, frameIndex))
      {
        var frame := doc.elements[inner[frameIndex]].frame;
        if InRoot(doc, root, inner[frameIndex]) && frame.content.Some? {
          var framePath, frameChain := path + [FrameSegment(frameIndex)], frames + [inner[frameIndex]];
          ghost var below := Listing(frame.content.value, WholeDocument, None, framePath, frameChain);
          CappedInTwo(output, below, FrameEntries(doc, root, path, frames, frameIndex + 1));
          Collect(frame.content.value, WholeDocument, None, framePath, frameChain);
        }
        frameIndex := frameIndex + 1;
      }
    }
  }

  /** What the page's `querySelector` gives for the root selector, if one was passed. */
  datatype RootMatch = NoSelector | Matched(index: nat) | Unmatched

  datatype SnapshotError = SelectorDidNotMatch

  /** The snapshot script. */
  method TakeSnapshot(top: Valid, rootMatch: RootMatch, limit: Option<int>) returns (result: Result<seq<Entry>, SnapshotError>)
    ensures match rootMatch
      case Unmatched => result == Err(SelectorDidNotMatch)
      case NoSelector => result == Ok(Snapshot(top, WholeDocument, limit))
      case Matched(index) => result == Ok(Snapshot(top, RootElement(index), limit))
  {
    if rootMatch.Unmatched? {
      return Err(SelectorDidNotMatch);
    }
    var root := if rootMatch.Matched? then RootElement(rootMatch.index) else WholeDocument;
    var collector := new Collector();
    collector.Collect(top, root, limit, ["el"], []);
    assert [] + Listing(top, root, limit, ["el"], []) == Listing(top, root, limit, ["el"], []);
    return Ok(collector.output);
  }

  lemma CappedInTwo(a: seq<Entry>, b: seq<Entry>, c: seq<Entry>)
    requires |a| <= MAX_ITEMS
    ensures Capped(Capped(a + b) + c) == Capped(a + (b + c))
  {
    assert a + b + c == a + (b + c);
  }

  // ----- Resolving -----

  datatype Resolution =
    | Found(target: Handle)
    | Missing
    | InvalidRef
    | FrameUnavailable
    | BySelector(selector: string)

  /** The digits of a segment `f123`, or None where the pattern does not match. */
  function FrameDigits(segment: string): (digits: Option<string>)
    ensures digits.Some? <==> |segment| > 1 && segment[0] == 'f' && AllDigits(segment[1..])
    ensures digits.Some? ==> digits.value == segment[1..]
  {
    if |segment| > 1 && segment[0] == 'f' && AllDigits(segment[1..]) then Some(segment[1..]) else None
  }

  /** JavaScript's `Number`, as far as a ref needs it: None stands for NaN and fractions. */
  type NumberReader = string -> Option<int>

  /** Doubles hold every whole number up to here, and no more. */
  const EXACT_LIMIT := 0x20_0000_0000_0000

  ghost predicate ReadsDecimals(number: NumberReader) {
    forall n: nat :: n < EXACT_LIMIT ==> number(Decimal(n)) == Some(n)
  }

  /** No document of the page has more elements than numbers are exact. */
  predicate Indexable(doc: Document) {
    && |doc.elements| <= EXACT_LIMIT
    && forall i :: 0 <= i < |doc.elements| ==>
      var e := doc.elements[i]; e.frame.IFrame? && e.frame.content.Some? ==> Indexable(e.frame.content.value)
  }

  function At(all: seq<nat>, index: Option<int>): Option<nat> {
    if index.Some? && 0 <= index.value < |all| then Some(all[index.value]) else None
  }

  /** Resolving the segments of a ref below `doc`, which the iframes `frames` lead to. */
  function ResolveFrom(number: NumberReader, doc: Valid, frames: seq<nat>, segments: seq<string>): Resolution
    requires segments != []
    decreases |segments|
  {
    if |segments| == 1 then
      if number(segments[0]).None? then InvalidRef
      else match At(Select(doc, Interactive), number(segments[0]))
        case Some(el) => Found(Handle(frames, el))
        case None => Missing
    else match FrameDigits(segments[0])
      case None => InvalidRef
      case Some(digits) =>
        match At(Select(doc, Frames), number(digits))
        case None => FrameUnavailable
        case Some(f) =>
          var frame := doc.elements[f].frame;
          if !(frame.IFrame? && frame.content.Some?) then FrameUnavailable
          else ResolveFrom(number, frame.content.value, frames + [f], segments[1..])
  }

  function ResolveRef(number: NumberReader, top: Valid, target: string): Resolution {
    var parts := Split(target, ':');
    if parts[0] != "el" then BySelector(target)
    else ResolveFrom(number, top, [], if |parts| == 1 then parts else parts[1..])
  }

  method Resolve(number: NumberReader, top: Valid, target: string) returns (result: Resolution)
    ensures result == ResolveRef(number, top, target)
  {
    var parts := Split(target, ':');
    if parts[0] != "el" {
      return BySelector(target);
    }
    var doc: Valid, frames: seq<nat> := top, [];
    var index := 1;
    while index < |parts| - 1
      invariant 1 <= index && (index < |parts| || index == |parts| == 1)
      invariant index < |parts| ==> ResolveRef(number, top, target) == ResolveFrom(number, doc, frames, parts[index..])
      invariant |parts| == 1 ==> doc == top && frames == []
    {
      assert parts[index..][1..] == parts[index + 1..];
      var digits := FrameDigits(parts[index]);
      if digits.None? {
        return InvalidRef;
      }
      var frame := At(Select(doc, Frames), number(digits.value));
      if frame.None? || !doc.elements[frame.value].frame.IFrame? || doc.elements[frame.value].frame.content.None? {
        return FrameUnavailable;
      }
      doc, frames := doc.elements[frame.value].frame.content.value, frames + [frame.value];
      index := index + 1;
    }
    var elementIndex := number(parts[|parts| - 1]);
    if elementIndex.None? {
      return InvalidRef;
    }
    match At(Select(doc, Interactive), elementIndex) {
      case Some(el) => return Found(Handle(frames, el));
      case None => return Missing;
    }
  }
}
