/** What any target given as a ref or a selector resolves to, told from the page and the target's text. */
module RefOutcomes {
  import opened Wrappers
  import opened Text
  import opened Snapshots
  import opened SnapshotRefs

  /** The elements before `el` that match the selector. */
  function Before(doc: Document, selector: Selector, el: nat): set<nat>
    requires el <= |doc.elements|
  {
    set i: nat | i < el && Matches(doc.elements[i], selector)
  }

  /** `el` matches the selector, and exactly `k` elements before it do. */
  predicate Nth(doc: Document, selector: Selector, k: int, el: nat) {
    el < |doc.elements| && Matches(doc.elements[el], selector) && |Before(doc, selector, el)| == k
  }

  lemma Selected(doc: Document, selector: Selector, i: nat) returns (m: nat)
    requires i < |doc.elements| && Matches(doc.elements[i], selector)
    ensures m < |Select(doc, selector)| && Select(doc, selector)[m] == i
  {
    SelectComplete(doc, selector, 0, i);
    m :| 0 <= m < |Select(doc, selector)| && Select(doc, selector)[m] == i;
  }

  lemma BeforeNext(doc: Document, selector: Selector, m: nat)
    requires m + 1 < |Select(doc, selector)|
    ensures var all := Select(doc, selector);
      Before(doc, selector, all[m + 1]) == Before(doc, selector, all[m]) + {all[m]}
  {
    var all := Select(doc, selector);
    forall i: nat | i in Before(doc, selector, all[m + 1]) ensures i in Before(doc, selector, all[m]) + {all[m]} {
      var j := Selected(doc, selector, i);
      assert j <= m;
    }
  }

  lemma BeforeFirst(doc: Document, selector: Selector)
    requires Select(doc, selector) != []
    ensures Before(doc, selector, Select(doc, selector)[0]) == {}
  {
    forall i | i in Before(doc, selector, Select(doc, selector)[0]) ensures false {
      var j := Selected(doc, selector, i);
    }
  }

  lemma {:induction false} BeforeSelect(doc: Document, selector: Selector, m: nat)
    requires m < |Select(doc, selector)|
    ensures |Before(doc, selector, Select(doc, selector)[m])| == m
  {
    if m == 0 {
      BeforeFirst(doc, selector);
    } else {
      BeforeSelect(doc, selector, m - 1);
      BeforeNext(doc, selector, m - 1);
    }
  }

  /** Picking by index finds the element with that many before it, and none exactly where there is none. */
  lemma AtExactly(doc: Document, selector: Selector, k: int, el: nat)
    ensures Snapshots.At(Select(doc, selector), Some(k)) == Some(el) <==> Nth(doc, selector, k, el)
  {
    var all := Select(doc, selector);
    if el < |doc.elements| && Matches(doc.elements[el], selector) {
      var m := Selected(doc, selector, el);
      BeforeSelect(doc, selector, m);
    }
    if 0 <= k < |all| {
      BeforeSelect(doc, selector, k);
    }
  }

  // ----- The documents a ref leads through -----

  /** A segment `f` and digits. */
  predicate NamesFrame(segment: string) {
    |segment| > 1 && segment[0] == 'f' && forall i :: 1 <= i < |segment| ==> '0' <= segment[i] <= '9'
  }

  /** The segment names, by its number, an iframe whose document can be read. */
  ghost predicate Enters(number: NumberReader, doc: Document, segment: string, f: nat) {
    && NamesFrame(segment) && number(segment[1..]).Some? && Nth(doc, Frames, number(segment[1..]).value, f)
    && doc.elements[f].frame.IFrame? && doc.elements[f].frame.content.Some?
  }

  /** The segments lead from `doc` through the iframes to `inner`. */
  ghost predicate LeadsTo(number: NumberReader, doc: Document, segments: seq<string>, frames: seq<nat>, inner: Document) {
    if segments == [] then frames == [] && inner == doc
    else
      && frames != [] && Enters(number, doc, segments[0], frames[0])
      && LeadsTo(number, doc.elements[frames[0]].frame.content.value, segments[1..], frames[1..], inner)
  }

  /** The first segment neither leads on nor is the last. */
  ghost predicate Blocked(number: NumberReader, doc: Document, segments: seq<string>, result: Resolution) {
    && |segments| > 1
    && result == (if NamesFrame(segments[0]) then FrameUnavailable else InvalidRef)
    && forall f :: !Enters(number, doc, segments[0], f)
  }

  /** The last segment is the number of an interactive element, or of none, or no number at all. */
  ghost predicate Ends(number: NumberReader, doc: Document, segment: string, frames: seq<nat>, result: Resolution) {
    if number(segment).None? then result == InvalidRef
    else
      var k := number(segment).value;
      || (exists el :: Nth(doc, Interactive, k, el) && result == Found(Handle(frames, el)))
      || (result == Missing && forall el :: !Nth(doc, Interactive, k, el))
  }

  /** The first `i` segments lead from `doc` through `frames` to `inner`, and the next one gives the result. */
  ghost predicate StopsAt(number: NumberReader, doc: Document, pre: seq<nat>, segments: seq<string>, result: Resolution,
                          i: nat, frames: seq<nat>, inner: Document)
    requires i < |segments|
  {
    && LeadsTo(number, doc, segments[..i], frames, inner)
    && if i == |segments| - 1 then Ends(number, inner, segments[i], pre + frames, result)
       else Blocked(number, inner, segments[i..], result)
  }

  /** The outcome of a ref's segments below `doc`, which the iframes `pre` lead to. */
  ghost predicate Outcome(number: NumberReader, doc: Document, pre: seq<nat>, segments: seq<string>, result: Resolution) {
    exists i, frames, inner :: 0 <= i < |segments| && StopsAt(number, doc, pre, segments, result, i, frames, inner)
  }

  lemma FrameDigitsExactly(segment: string)
    ensures FrameDigits(segment) == if NamesFrame(segment) then Some(segment[1..]) else None
  {
    if NamesFrame(segment) {
      forall i | 0 <= i < |segment[1..]| ensures IsDigit(segment[1..][i]) {
        assert segment[1..][i] == segment[i + 1];
      }
    } else if |segment| > 1 && segment[0] == 'f' {
      var i :| 1 <= i < |segment| && !('0' <= segment[i] <= '9');
      assert segment[1..][i - 1] == segment[i];
    }
  }

  lemma EntersExactly(number: NumberReader, doc: Valid, segment: string, f: nat)
    ensures Enters(number, doc, segment, f) <==>
      && FrameDigits(segment).Some? && Snapshots.At(Select(doc, Frames), number(FrameDigits(segment).value)) == Some(f)
      && doc.elements[f].frame.IFrame? && doc.elements[f].frame.content.Some?
  {
    FrameDigitsExactly(segment);
    if NamesFrame(segment) && number(segment[1..]).Some? {
      AtExactly(doc, Frames, number(segment[1..]).value, f);
    }
  }

  lemma EndsExactly(number: NumberReader, doc: Valid, segment: string, frames: seq<nat>, result: Resolution)
    ensures Ends(number, doc, segment, frames, result) <==> ResolveFrom(number, doc, frames, [segment]) == result
  {
    if number(segment).Some? {
      var k := number(segment).value;
      forall el: nat ensures Snapshots.At(Select(doc, Interactive), Some(k)) == Some(el) <==> Nth(doc, Interactive, k, el) {
        AtExactly(doc, Interactive, k, el);
      }
      var found := Snapshots.At(Select(doc, Interactive), Some(k));
      assert found.Some? ==> Nth(doc, Interactive, k, found.value);
    }
  }

  lemma BlockedResolves(number: NumberReader, doc: Valid, pre: seq<nat>, segments: seq<string>, result: Resolution)
    requires Blocked(number, doc, segments, result)
    ensures ResolveFrom(number, doc, pre, segments) == result
  {
    FrameDigitsExactly(segments[0]);
    if FrameDigits(segments[0]).Some? {
      var f := Snapshots.At(Select(doc, Frames), number(FrameDigits(segments[0]).value));
      if f.Some? {
        EntersExactly(number, doc, segments[0], f.value);
      }
    }
  }

  /** The document that an entered segment leads to. */
  function Inside(doc: Valid, f: nat): Valid
    requires f < |doc.elements| && doc.elements[f].frame.IFrame? && doc.elements[f].frame.content.Some?
  {
    doc.elements[f].frame.content.value
  }

  lemma EnteredResolves(number: NumberReader, doc: Valid, pre: seq<nat>, segments: seq<string>, f: nat)
    requires |segments| > 1 && Enters(number, doc, segments[0], f)
    ensures ResolveFrom(number, doc, pre, segments) == ResolveFrom(number, Inside(doc, f), pre + [f], segments[1..])
  {
    EntersExactly(number, doc, segments[0], f);
  }

  lemma {:induction false} StopsResolves(number: NumberReader, doc: Valid, pre: seq<nat>, segments: seq<string>, result: Resolution,
                                         i: nat, frames: seq<nat>, inner: Document)
    requires i < |segments| && StopsAt(number, doc, pre, segments, result, i, frames, inner)
    ensures ResolveFrom(number, doc, pre, segments) == result
    decreases i
  {
    if i == 0 {
      assert pre + [] == pre && segments[0..] == segments;
      if |segments| == 1 {
        assert segments == [segments[0]];
        EndsExactly(number, doc, segments[0], pre, result);
      } else {
        BlockedResolves(number, doc, pre, segments, result);
      }
    } else {
      var f, rest := frames[0], segments[1..];
      assert segments[..i][0] == segments[0] && segments[..i][1..] == rest[..i - 1];
      assert pre + frames == pre + [f] + frames[1..] && segments[i..] == rest[i - 1..];
      EnteredResolves(number, doc, pre, segments, f);
      StopsResolves(number, Inside(doc, f), pre + [f], rest, result, i - 1, frames[1..], inner);
    }
  }

  lemma {:induction false} ResolvesStop(number: NumberReader, doc: Valid, pre: seq<nat>, segments: seq<string>)
    returns (i: nat, frames: seq<nat>, inner: Document)
    requires segments != []
    ensures i < |segments| && StopsAt(number, doc, pre, segments, ResolveFrom(number, doc, pre, segments), i, frames, inner)
    decreases |segments|
  {
    var result := ResolveFrom(number, doc, pre, segments);
    if |segments| > 1 && exists f :: Enters(number, doc, segments[0], f) {
      var f :| Enters(number, doc, segments[0], f);
      var rest := segments[1..];
      EnteredResolves(number, doc, pre, segments, f);
      i, frames, inner := ResolvesStop(number, Inside(doc, f), pre + [f], rest);
      assert segments[..i + 1][0] == segments[0] && segments[..i + 1][1..] == rest[..i];
      assert pre + [f] + frames == pre + ([f] + frames) && segments[i + 1..] == rest[i..];
      i, frames := i + 1, [f] + frames;
    } else {
      i, frames, inner := 0, [], doc;
      assert pre + [] == pre && segments[0..] == segments && segments[..0] == [];
      if |segments| == 1 {
        assert segments == [segments[0]];
        EndsExactly(number, doc, segments[0], pre, result);
      } else {
        NotEntered(number, doc, pre, segments);
      }
    }
  }

  lemma NotEntered(number: NumberReader, doc: Valid, pre: seq<nat>, segments: seq<string>)
    requires |segments| > 1 && forall f :: !Enters(number, doc, segments[0], f)
    ensures Blocked(number, doc, segments, ResolveFrom(number, doc, pre, segments))
  {
    FrameDigitsExactly(segments[0]);
    if FrameDigits(segments[0]).Some? {
      var f := Snapshots.At(Select(doc, Frames), number(FrameDigits(segments[0]).value));
      if f.Some? {
        EntersExactly(number, doc, segments[0], f.value);
      }
    }
  }

  lemma OutcomeExactly(number: NumberReader, doc: Valid, segments: seq<string>, result: Resolution)
    requires segments != []
    ensures ResolveFrom(number, doc, [], segments) == result <==> Outcome(number, doc, [], segments, result)
  {
    if ResolveFrom(number, doc, [], segments) == result {
      var i, frames, inner := ResolvesStop(number, doc, [], segments);
    }
    if Outcome(number, doc, [], segments, result) {
      var i, frames, inner :| 0 <= i < |segments| && StopsAt(number, doc, [], segments, result, i, frames, inner);
      StopsResolves(number, doc, [], segments, result, i, frames, inner);
    }
  }

  // ----- Targets -----

  /** The target is the text `el`, or starts with it and a colon. */
  predicate IsRef(target: string) {
    target == "el" || (|target| >= 3 && target[..3] == "el:")
  }

  lemma PartsRef(target: string)
    requires Split(target, ':')[0] == "el"
    ensures IsRef(target)
  {
    var parts := Split(target, ':');
    JoinSplit(target, ':');
    if |parts| > 1 {
      assert target == parts[0] + [':'] + Join(parts[1..], ':');
      assert parts[0] + [':'] == "el:";
    }
  }

  lemma RefParts(target: string)
    requires IsRef(target)
    ensures Split(target, ':') == if target == "el" then ["el"] else ["el"] + Split(target[3..], ':')
  {
    if target == "el" {
      SplitFree("el", ':');
    } else {
      assert target == "el" + [':'] + target[3..];
      SplitHead("el", ':', target[3..]);
    }
  }

  lemma {:induction false} NeverSelector(number: NumberReader, doc: Valid, frames: seq<nat>, segments: seq<string>)
    requires segments != []
    ensures !ResolveFrom(number, doc, frames, segments).BySelector?
    decreases |segments|
  {
    if |segments| > 1 && exists f :: Enters(number, doc, segments[0], f) {
      var f :| Enters(number, doc, segments[0], f);
      EnteredResolves(number, doc, frames, segments, f);
      NeverSelector(number, Inside(doc, f), frames + [f], segments[1..]);
    } else if |segments| > 1 {
      NotEntered(number, doc, frames, segments);
    }
  }

  /** A target is looked up as a selector exactly if it is no ref, and then as it stands. */
  lemma SelectorExactly(number: NumberReader, top: Valid, target: string)
    ensures ResolveRef(number, top, target).BySelector? <==> !IsRef(target)
    ensures !IsRef(target) ==> ResolveRef(number, top, target) == BySelector(target)
  {
    if IsRef(target) {
      RefParts(target);
      NeverSelector(number, top, [], if target == "el" then ["el"] else Split(target[3..], ':'));
    } else if Split(target, ':')[0] == "el" {
      PartsRef(target);
    }
  }

  /** Main result on targets: a ref resolves exactly to the outcome of its segments. */
  lemma ResolveExactly(number: NumberReader, top: Valid, target: string, segments: seq<string>, result: Resolution)
    requires segments != [] && AllFree(segments, ':')
    requires target == "el:" + Join(segments, ':') || (target == "el" && segments == ["el"])
    ensures ResolveRef(number, top, target) == result <==> Outcome(number, top, [], segments, result)
  {
    RefParts(target);
    SplitJoin(segments, ':');
    assert target != "el" ==> target[3..] == Join(segments, ':');
    OutcomeExactly(number, top, segments, result);
  }
}
