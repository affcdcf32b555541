/** Plugin hot reload: the chunked upload of the sync tool, and the endpoint that reassembles it. */
module HotReload {
  import opened Wrappers
  import opened Utf8
  import opened Base64

  const CHUNK := 24000
  const CHUNK_BYTES := 18000

  datatype Artifact = Artifact(name: string, content: seq<Byte>)

  // ----- Slicing -----

  /** The slices of `text` from `offset` on. */
  function Slices(text: string, offset: nat): (slices: seq<string>)
    ensures forall i :: 0 <= i < |slices| ==> 0 < |slices[i]| <= CHUNK
    ensures offset <= |text| ==> |slices| == (|text| - offset + CHUNK - 1) / CHUNK
    decreases |text| - offset
  {
    if offset >= |text| then []
    else
      var end := if offset + CHUNK < |text| then offset + CHUNK else |text|;
      [text[offset..end]] + Slices(text, offset + CHUNK)
  }

  function Concat(parts: seq<string>): string {
    if parts == [] then "" else parts[0] + Concat(parts[1..])
  }

  lemma {:induction false} SlicesConcat(text: string, offset: nat)
    requires offset <= |text|
    ensures Concat(Slices(text, offset)) == text[offset..]
    decreases |text| - offset
  {
    if offset < |text| && offset + CHUNK < |text| {
      SlicesConcat(text, offset + CHUNK);
    }
  }

  /** The pieces of `bytes` that the slices of its encoding stand for. */
  function Pieces(bytes: seq<Byte>): seq<seq<Byte>> {
    if |bytes| <= CHUNK_BYTES then (if bytes == [] then [] else [bytes])
    else [bytes[..CHUNK_BYTES]] + Pieces(bytes[CHUNK_BYTES..])
  }

  lemma {:induction false} SlicesShift(head: string, text: string, offset: nat)
    ensures Slices(head + text, |head| + offset) == Slices(text, offset)
    decreases |text| - offset
  {
    if offset < |text| {
      var whole := head + text;
      var end := if offset + CHUNK < |text| then offset + CHUNK else |text|;
      assert whole[|head| + offset..|head| + end] == text[offset..end];
      SlicesShift(head, text, offset + CHUNK);
    }
  }

  lemma OneSlice(text: string)
    requires 0 < |text| <= CHUNK
    ensures Slices(text, 0) == [text]
  {
    assert text[0..|text|] == text;
    assert Slices(text, CHUNK) == [];
  }

  lemma FirstSlice(head: string, text: string)
    requires |head| == CHUNK && text != ""
    ensures Slices(head + text, 0) == [head] + Slices(text, 0)
  {
    SlicesShift(head, text, 0);
    assert (head + text)[0..CHUNK] == head;
  }

  ghost predicate EachDecodes(slices: seq<string>, pieces: seq<seq<Byte>>) {
    |slices| == |pieces| && forall i :: 0 <= i < |slices| ==> Decode64(slices[i]) == Some(pieces[i])
  }

  lemma EachCons(slice: string, slices: seq<string>, piece: seq<Byte>, pieces: seq<seq<Byte>>)
    requires Decode64(slice) == Some(piece) && EachDecodes(slices, pieces)
    ensures EachDecodes([slice] + slices, [piece] + pieces)
  {}

  lemma FrontSlices(front: seq<Byte>, back: seq<Byte>, head: string, tail: string)
    requires |front| == CHUNK_BYTES && back != []
    requires head == Encode64(front) && tail == Encode64(back)
    ensures Encode64(front + back) == head + tail && |head| == CHUNK && tail != ""
  {
    EncodeAligned(front, back);
    EncodedLength(|front|, |head|);
    EncodedLength(|back|, |tail|);
  }

  /** How many characters `n` bytes take. */
  lemma EncodedLength(n: nat, length: nat)
    requires length == (n + 2) / 3 * 4
    ensures (n % 3 == 0 ==> length == n / 3 * 4) && (n > 0 ==> length > 0)
  {}

  lemma ConsDecodes(head: string, tail: string, whole: string, front: seq<Byte>, pieces: seq<seq<Byte>>)
    requires |head| == CHUNK && tail != "" && whole == head + tail
    requires Decode64(head) == Some(front) && EachDecodes(Slices(tail, 0), pieces)
    ensures EachDecodes(Slices(whole, 0), [front] + pieces)
  {
    FirstSlice(head, tail);
    EachCons(head, Slices(tail, 0), front, pieces);
  }

  /** Main result on slices: each decodes on its own, to the piece it stands for. */
  lemma {:induction false} SliceDecodes(bytes: seq<Byte>)
    ensures EachDecodes(Slices(Encode64(bytes), 0), Pieces(bytes))
    decreases |bytes|
  {
    if bytes == [] {
    } else if |bytes| <= CHUNK_BYTES {
      RoundTrip64(bytes);
      OneSlice(Encode64(bytes));
    } else {
      var front, back := bytes[..CHUNK_BYTES], bytes[CHUNK_BYTES..];
      assert front + back == bytes;
      FrontSlices(front, back, Encode64(front), Encode64(back));
      RoundTrip64(front);
      SliceDecodes(back);
      ConsDecodes(Encode64(front), Encode64(back), Encode64(bytes), front, Pieces(back));
    }
  }

  function Flat(pieces: seq<seq<Byte>>): seq<Byte> {
    if pieces == [] then [] else pieces[0] + Flat(pieces[1..])
  }

  /** The pieces are the whole file. */
  lemma {:induction false} PiecesFlat(bytes: seq<Byte>)
    ensures Flat(Pieces(bytes)) == bytes
    decreases |bytes|
  {
    if |bytes| > CHUNK_BYTES {
      PiecesFlat(bytes[CHUNK_BYTES..]);
    } else if bytes != [] {
      assert [bytes][1..] == [];
    }
  }

  // ----- The endpoint -----

  datatype ReloadError = InvalidName | NothingUploaded | WriteFailed(name: string) | LoadFailed

  predicate IsNameChar(c: char) {
    'a' <= c <= 'z' || 'A' <= c <= 'Z' || '0' <= c <= '9' || c == '_' || c == '.' || c == '-'
  }

  predicate HasEnding(name: string, ending: string) {
    |name| > |ending| && name[|name| - |ending|..] == ending
  }

  /** The names the endpoint accepts: word characters, dots and dashes, then `.js` or `.toolpkg`. */
  predicate AcceptedName(name: string) {
    (forall i :: 0 <= i < |name| ==> IsNameChar(name[i])) && (HasEnding(name, ".js") || HasEnding(name, ".toolpkg"))
  }

  /** By its code: a digit, a capital or small letter of ASCII, a dash, a dot or an underscore. */
  predicate IsWordChar(c: char) {
    var v := c as int;
    48 <= v <= 57 || 65 <= v <= 90 || 97 <= v <= 122 || v == 45 || v == 46 || v == 95
  }

  lemma EndsIn(name: string, ending: string)
    requires forall c :: c in ending ==> IsWordChar(c)
    ensures (forall i :: 0 <= i < |name| ==> IsNameChar(name[i])) && HasEnding(name, ending) <==>
      exists stem :: stem != "" && (forall c :: c in stem ==> IsWordChar(c)) && name == stem + ending
  {
    assert forall c :: IsWordChar(c) <==> IsNameChar(c);
    if HasEnding(name, ending) {
      assert name == name[..|name| - |ending|] + ending;
    }
    if stem :| stem != "" && (forall c :: c in stem ==> IsWordChar(c)) && name == stem + ending {
      forall i | 0 <= i < |name| ensures IsNameChar(name[i]) {
        assert if i < |stem| then name[i] in stem else name[i] in ending;
      }
    }
  }

  /** Exactly the names of one or more word characters, dots and dashes before `.js` or `.toolpkg` are
      accepted. */
  lemma AcceptedExactly(name: string)
    ensures AcceptedName(name) <==> exists stem ::
      stem != "" && (forall c :: c in stem ==> IsWordChar(c)) && (name == stem + ".js" || name == stem + ".toolpkg")
  {
    assert (forall c :: c in ".js" ==> IsWordChar(c)) && forall c :: c in ".toolpkg" ==> IsWordChar(c);
    EndsIn(name, ".js");
    EndsIn(name, ".toolpkg");
  }

  /** What has been uploaded by name, in order of first upload. */
  type Uploads = seq<(string, string)>

  function Position(uploads: Uploads, name: string): (i: nat)
    ensures i <= |uploads|
    ensures i < |uploads| ==> uploads[i].0 == name
    ensures forall k :: 0 <= k < i ==> uploads[k].0 != name
  {
    if uploads == [] || uploads[0].0 == name then 0 else 1 + Position(uploads[1..], name)
  }

  function Grown(uploads: Uploads, name: string, content: string): Uploads {
    var i := Position(uploads, name);
    if i < |uploads| then uploads[i := (name, uploads[i].1 + content)] else uploads + [(name, content)]
  }

  /** The storage in which a commit writes: the names it refuses, and whether the packages load
      afterwards. */
  datatype Storage = Storage(refuses: set<string>, loads: bool)

  predicate Writes(storage: Storage, upload: (string, string)) {
    Decode64(upload.1).Some? && upload.0 !in storage.refuses
  }

  /** How many uploads are written before the first that is not. */
  function Writable(storage: Storage, uploads: Uploads): (n: nat)
    ensures n <= |uploads|
    ensures forall i :: 0 <= i < n ==> Writes(storage, uploads[i])
    ensures n < |uploads| ==> !Writes(storage, uploads[n])
  {
    if uploads == [] then 0
    else
      var last := |uploads| - 1;
      var n := Writable(storage, uploads[..last]);
      if n == last && Writes(storage, uploads[last]) then n + 1 else n
  }

  /** The files that writing the uploads leaves. */
  function Stored(uploads: Uploads): map<string, seq<Byte>> {
    if uploads == [] then map[]
    else
      var last := |uploads| - 1;
      var content := Decode64(uploads[last].1);
      if content.Some? then Stored(uploads[..last])[uploads[last].0 := content.value] else Stored(uploads[..last])
  }

  lemma StoredSnoc(uploads: Uploads, name: string, text: string)
    ensures Stored(uploads + [(name, text)]) ==
      if Decode64(text).Some? then Stored(uploads)[name := Decode64(text).value] else Stored(uploads)
  {
    assert (uploads + [(name, text)])[..|uploads|] == uploads;
  }

  lemma StoredNext(packages: map<string, seq<Byte>>, uploads: Uploads, i: nat)
    requires i < |uploads| && Decode64(uploads[i].1).Some?
    ensures packages + Stored(uploads[..i + 1]) == (packages + Stored(uploads[..i]))[uploads[i].0 := Decode64(uploads[i].1).value]
  {
    assert uploads[..i + 1] == uploads[..i] + [(uploads[i].0, uploads[i].1)];
    StoredSnoc(uploads[..i], uploads[i].0, uploads[i].1);
  }

  class Endpoint {
    var uploads: Uploads
    var packages: map<string, seq<Byte>>

    constructor (packages: map<string, seq<Byte>>)
      ensures this.packages == packages && uploads == []
    {
      this.packages, uploads := packages, [];
    }

    method Begin()
      modifies this
      ensures uploads == [] && packages == old(packages)
    {
      uploads := [];
    }

    method Chunk(name: string, content: string) returns (result: Result<(), ReloadError>)
      modifies this
      ensures packages == old(packages)
      ensures if AcceptedName(name)
        then result == Ok(()) && uploads == Grown(old(uploads), name, content)
        else result == Err(InvalidName) && uploads == []
    {
      if !AcceptedName(name) {
        uploads := [];
        return Err(InvalidName);
      }
      var i := Position(uploads, name);
      if i == |uploads| {
        uploads := uploads + [(name, "")];
      }
      uploads := uploads[i := (name, uploads[i].1 + content)];
      assert "" + content == content;
      return Ok(());
    }

    /** The write loop: how many entries were written. */
    method WriteAll(storage: Storage, entries: Uploads) returns (written: nat)
      modifies this`packages
      ensures written == Writable(storage, entries) && packages == old(packages) + Stored(entries[..written])
    {
      for i := 0 to |entries|
        invariant i <= Writable(storage, entries)
        invariant packages == old(packages) + Stored(entries[..i])
      {
        var (name, text) := entries[i];
        if Decode64(text).None? || name in storage.refuses {
          assert !Writes(storage, entries[i]);
          return i;
        }
        StoredNext(old(packages), entries, i);
        packages := packages[name := Decode64(text).value];
      }
      return |entries|;
    }

    /** The uploads are written one after the other. One that does not decode or is refused ends the
        commit, and what was written before it stays. */
    method Commit(storage: Storage) returns (result: Result<(), ReloadError>)
      modifies this
      ensures uploads == []
      ensures packages == old(packages) + Stored(old(uploads)[..Writable(storage, old(uploads))])
      ensures var n := Writable(storage, old(uploads));
        result ==
          if old(uploads) == [] then Err(NothingUploaded)
          else if n < |old(uploads)| then Err(WriteFailed(old(uploads)[n].0))
          else if storage.loads then Ok(()) else Err(LoadFailed)
    {
      if uploads == [] {
        return Err(NothingUploaded);
      }
      var entries := uploads;
      uploads := [];
      var written := WriteAll(storage, entries);
      if written < |entries| {
        return Err(WriteFailed(entries[written].0));
      }
      return if storage.loads then Ok(()) else Err(LoadFailed);
    }
  }

  // ----- The upload -----

  ghost predicate DistinctNames(artifacts: seq<Artifact>) {
    forall i, j :: 0 <= i < j < |artifacts| ==> artifacts[i].name != artifacts[j].name
  }

  /** What has been uploaded once the artifacts are sent: an empty one sends no slice. */
  function Uploaded(artifacts: seq<Artifact>): Uploads {
    if artifacts == [] then []
    else
      var last := |artifacts| - 1;
      var a := artifacts[last];
      Uploaded(artifacts[..last]) + if a.content == [] then [] else [(a.name, Encode64(a.content))]
  }

  /** The files that arrive where the storage takes them all. */
  function Arrived(artifacts: seq<Artifact>): map<string, seq<Byte>> {
    if artifacts == [] then map[]
    else
      var last := |artifacts| - 1;
      var a := artifacts[last];
      if a.content == [] then Arrived(artifacts[..last]) else Arrived(artifacts[..last])[a.name := a.content]
  }

  /** How many artifacts come before the first that is uploaded and refused. */
  function Taken(storage: Storage, artifacts: seq<Artifact>): (n: nat)
    ensures n <= |artifacts|
    ensures forall i :: 0 <= i < n ==> artifacts[i].content == [] || artifacts[i].name !in storage.refuses
    ensures n < |artifacts| ==> artifacts[n].content != [] && artifacts[n].name in storage.refuses
  {
    if artifacts == [] then 0
    else
      var last := |artifacts| - 1;
      var n := Taken(storage, artifacts[..last]);
      if n == last && (artifacts[last].content == [] || artifacts[last].name !in storage.refuses) then n + 1 else n
  }

  lemma {:induction false} UploadedArrive(artifacts: seq<Artifact>)
    ensures Stored(Uploaded(artifacts)) == Arrived(artifacts)
    ensures Uploaded(artifacts) == [] <==> Arrived(artifacts) == map[]
  {
    if artifacts != [] {
      var last := |artifacts| - 1;
      var a := artifacts[last];
      UploadedArrive(artifacts[..last]);
      if a.content != [] {
        RoundTrip64(a.content);
        StoredSnoc(Uploaded(artifacts[..last]), a.name, Encode64(a.content));
        assert a.name in Arrived(artifacts);
      } else {
        assert Uploaded(artifacts[..last]) + [] == Uploaded(artifacts[..last]);
      }
    }
  }

  lemma WritableSnoc(storage: Storage, uploads: Uploads, upload: (string, string))
    ensures var n := Writable(storage, uploads);
      Writable(storage, uploads + [upload]) == if n == |uploads| && Writes(storage, upload) then n + 1 else n
  {
    assert (uploads + [upload])[..|uploads|] == uploads;
  }

  lemma UploadedSnoc(artifacts: seq<Artifact>, a: Artifact)
    ensures Uploaded(artifacts + [a]) ==
      if a.content == [] then Uploaded(artifacts) else Uploaded(artifacts) + [(a.name, Encode64(a.content))]
    ensures a.content != [] ==> Decode64(Encode64(a.content)).Some?
  {
    assert (artifacts + [a])[..|artifacts|] == artifacts;
    assert Uploaded(artifacts) + [] == Uploaded(artifacts);
    RoundTrip64(a.content);
  }

  lemma FrontKept(front: Uploads, more: Uploads, n: nat)
    requires n <= |front|
    ensures (front + more)[..n] == front[..n] && (front + more)[..|front + more|] == front + more
  {}

  /** The commit writes the artifacts before the first refused one. */
  lemma {:induction false} WritableTaken(storage: Storage, artifacts: seq<Artifact>)
    ensures var uploads := Uploaded(artifacts);
      && uploads[..Writable(storage, uploads)] == Uploaded(artifacts[..Taken(storage, artifacts)])
      && (Writable(storage, uploads) == |uploads| <==> Taken(storage, artifacts) == |artifacts|)
  {
    if artifacts != [] {
      var front, a := artifacts[..|artifacts| - 1], artifacts[|artifacts| - 1];
      WritableTaken(storage, front);
      assert artifacts == front + [a] && front[..Taken(storage, front)] == artifacts[..Taken(storage, front)];
      assert artifacts[..|artifacts|] == artifacts;
      WritableTakenSnoc(storage, front, a);
    }
  }

  lemma WritableTakenSnoc(storage: Storage, front: seq<Artifact>, a: Artifact)
    ensures var uploads, longer := Uploaded(front), Uploaded(front + [a]);
      var n := Writable(storage, uploads);
      if a.content == [] then longer == uploads
      else if n == |uploads| && a.name !in storage.refuses then Writable(storage, longer) == |longer| && longer[..|longer|] == longer
      else Writable(storage, longer) == n < |longer| && longer[..n] == uploads[..n]
  {
    var upload := (a.name, Encode64(a.content));
    UploadedSnoc(front, a);
    if a.content != [] {
      WritableSnoc(storage, Uploaded(front), upload);
      FrontKept(Uploaded(front), [upload], Writable(storage, Uploaded(front)));
    }
  }

  lemma {:induction false} UploadedNames(artifacts: seq<Artifact>, name: string)
    requires forall i :: 0 <= i < |artifacts| ==> artifacts[i].name != name
    ensures Position(Uploaded(artifacts), name) == |Uploaded(artifacts)|
  {
    if artifacts != [] {
      var last := |artifacts| - 1;
      UploadedNames(artifacts[..last], name);
    }
  }

  /** The endpoint accepts every slice the upload sends. */
  predicate Acceptable(artifacts: seq<Artifact>) {
    forall i :: 0 <= i < |artifacts| && artifacts[i].content != [] ==> AcceptedName(artifacts[i].name)
  }

  lemma GrownLast(uploads: Uploads, name: string, sent: string, content: string)
    requires Position(uploads, name) == |uploads|
    ensures Grown(uploads + [(name, sent)], name, content) == uploads + [(name, sent + content)]
  {
    var longer := uploads + [(name, sent)];
    var i := Position(longer, name);
    assert forall k :: 0 <= k < |uploads| ==> longer[k].0 != name;
    assert longer[|uploads|] == (name, sent);
    assert i == |uploads|;
    assert longer[i := (name, sent + content)] == uploads + [(name, sent + content)];
  }

  /** Where the slice loop stands: nothing is sent at the start, everything at the end. */
  function SentTo(content: string, offset: nat): string {
    if offset < |content| then content[..offset] else content
  }

  lemma SentNext(content: string, offset: nat)
    requires offset < |content|
    ensures var end := if offset + CHUNK < |content| then offset + CHUNK else |content|;
      SentTo(content, offset + CHUNK) == SentTo(content, offset) + content[offset..end]
  {}

  method SendArtifact(endpoint: Endpoint, a: Artifact) returns (result: Result<(), ReloadError>)
    requires Position(endpoint.uploads, a.name) == |endpoint.uploads|
    modifies endpoint
    ensures endpoint.packages == old(endpoint.packages)
    ensures result.Ok? <==> a.content == [] || AcceptedName(a.name)
    ensures result.Err? ==> result == Err(InvalidName)
    ensures result.Ok? ==>
      endpoint.uploads == old(endpoint.uploads) + if a.content == [] then [] else [(a.name, Encode64(a.content))]
  {
    var content := Encode64(a.content);
    assert content == "" <==> a.content == [];
    ghost var start := endpoint.uploads;
    var offset := 0;
    while offset < |content|
      invariant endpoint.packages == old(endpoint.packages)
      invariant offset > 0 ==> AcceptedName(a.name) && content != ""
      invariant endpoint.uploads == if offset == 0 then start else start + [(a.name, SentTo(content, offset))]
    {
      var end := if offset + CHUNK < |content| then offset + CHUNK else |content|;
      SentNext(content, offset);
      GrownLast(start, a.name, SentTo(content, offset), content[offset..end]);
      result := endpoint.Chunk(a.name, content[offset..end]);
      if result.Err? {
        return;
      }
      offset := offset + CHUNK;
    }
    return Ok(());
  }

  method SendAll(endpoint: Endpoint, artifacts: seq<Artifact>) returns (result: Result<(), ReloadError>)
    requires DistinctNames(artifacts) && endpoint.uploads == []
    modifies endpoint
    ensures endpoint.packages == old(endpoint.packages)
    ensures result.Ok? <==> Acceptable(artifacts)
    ensures result.Ok? ==> endpoint.uploads == Uploaded(artifacts)
  {
    for i := 0 to |artifacts|
      invariant endpoint.packages == old(endpoint.packages)
      invariant endpoint.uploads == Uploaded(artifacts[..i])
      invariant forall k :: 0 <= k < i && artifacts[k].content != [] ==> AcceptedName(artifacts[k].name)
    {
      UploadedNames(artifacts[..i], artifacts[i].name);
      result := SendArtifact(endpoint, artifacts[i]);
      if result.Err? {
        return;
      }
      assert artifacts[..i + 1][..i] == artifacts[..i];
    }
    assert artifacts[..|artifacts|] == artifacts;
    return Ok(());
  }

  /** Main result: the reload succeeds exactly when some artifact is not empty, the endpoint accepts
      the names of all that are not, and the storage takes and loads them. The artifacts before the
      first refused one arrive byte for byte, and an empty one does not arrive. */
  method ReloadPlugins(endpoint: Endpoint, artifacts: seq<Artifact>, storage: Storage) returns (result: Result<(), ReloadError>)
    requires DistinctNames(artifacts)
    modifies endpoint
    ensures result.Ok? <==>
      Acceptable(artifacts) && Arrived(artifacts) != map[] && Taken(storage, artifacts) == |artifacts| && storage.loads
    ensures endpoint.packages ==
      old(endpoint.packages) + if Acceptable(artifacts) then Arrived(artifacts[..Taken(storage, artifacts)]) else map[]
  {
    endpoint.Begin();
    result := SendAll(endpoint, artifacts);
    if result.Ok? {
      UploadedArrive(artifacts);
      WritableTaken(storage, artifacts);
      UploadedArrive(artifacts[..Taken(storage, artifacts)]);
      result := endpoint.Commit(storage);
    }
  }

  /** Which files arrive, for artifacts with distinct names. */
  lemma {:induction false} ArrivedExactly(artifacts: seq<Artifact>, name: string)
    requires DistinctNames(artifacts)
    ensures name in Arrived(artifacts) <==> exists i :: 0 <= i < |artifacts| && artifacts[i].name == name && artifacts[i].content != []
    ensures forall i :: 0 <= i < |artifacts| && artifacts[i].name == name && name in Arrived(artifacts) ==>
      Arrived(artifacts)[name] == artifacts[i].content
  {
    if artifacts != [] {
      var last := |artifacts| - 1;
      ArrivedExactly(artifacts[..last], name);
    }
  }
}
