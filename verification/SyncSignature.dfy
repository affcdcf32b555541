/** The signature stream of the sync tool: which files enter it, in which order, as which bytes. */
module SyncSignature {
  import opened Wrappers
  import opened Utf8
  import opened Ordering
  import opened Sequences

  /** A file as it enters the digest: its relative path and its content. */
  datatype SourceFile = SourceFile(path: string, content: seq<Byte>)

  const CHUNK_SIZE := 1024 * 1024

  /** The regular files by path, and the sort key of a path: its lower-cased form. */
  datatype FileTree = FileTree(files: map<string, seq<Byte>>, key: string -> string)

  // ----- Which files -----

  /** The paths of regular files, each once, in order of first occurrence. */
  function Unique(tree: FileTree, paths: seq<string>): (unique: seq<string>)
    ensures forall p :: p in unique <==> p in paths && p in tree.files
    ensures forall i, j :: 0 <= i < j < |unique| ==> unique[i] != unique[j]
  {
    if paths == [] then []
    else
      var last := |paths| - 1;
      var before := Unique(tree, paths[..last]);
      assert paths == paths[..last] + [paths[last]];
      if paths[last] in tree.files && paths[last] !in before then before + [paths[last]] else before
  }

  /** Stable insertion: after every element whose key is not greater. */
  function InsertByKey(key: string -> string, sorted: seq<string>, p: string): seq<string> {
    if sorted == [] then [p]
    else
      var last := |sorted| - 1;
      if Less(key(p), key(sorted[last])) then InsertByKey(key, sorted[..last], p) + [sorted[last]] else sorted + [p]
  }

  /** A stable sort by key. */
  function SortByKey(key: string -> string, paths: seq<string>): seq<string> {
    if paths == [] then []
    else InsertByKey(key, SortByKey(key, paths[..|paths| - 1]), paths[|paths| - 1])
  }

  function SignaturePaths(tree: FileTree, paths: seq<string>): seq<string> {
    SortByKey(tree.key, Unique(tree, paths))
  }

  method IterSignatureFiles(tree: FileTree, paths: seq<string>) returns (files: seq<string>)
    ensures files == SignaturePaths(tree, paths)
    ensures NonDescending(tree.key, files)
    ensures forall k :: WithKey(tree.key, k, files) == WithKey(tree.key, k, Unique(tree, paths))
  {
    var seen: set<string> := {};
    files := [];
    for i := 0 to |paths|
      invariant files == Unique(tree, paths[..i])
      invariant forall p :: p in seen <==> p in files
    {
      assert paths[..i + 1][..i] == paths[..i];
      if paths[i] !in tree.files || paths[i] in seen {
        continue;
      }
      seen := seen + {paths[i]};
      files := files + [paths[i]];
    }
    assert paths[..|paths|] == paths;
    SortStable(tree.key, files, "");
    forall k
      ensures WithKey(tree.key, k, SortByKey(tree.key, files)) == WithKey(tree.key, k, files)
    {
      SortStable(tree.key, files, k);
    }
    files := SortByKey(tree.key, files);
  }

  lemma {:induction false} InsertMembers(key: string -> string, sorted: seq<string>, p: string)
    ensures forall q :: q in InsertByKey(key, sorted, p) <==> q == p || q in sorted
  {
    if sorted != [] {
      var last := |sorted| - 1;
      InsertMembers(key, sorted[..last], p);
      assert sorted == sorted[..last] + [sorted[last]];
    }
  }

  lemma {:induction false} SortMembers(key: string -> string, paths: seq<string>)
    ensures forall q :: q in SortByKey(key, paths) <==> q in paths
  {
    if paths != [] {
      var last := |paths| - 1;
      SortMembers(key, paths[..last]);
      InsertMembers(key, SortByKey(key, paths[..last]), paths[last]);
      assert paths == paths[..last] + [paths[last]];
    }
  }

  // ----- The sort is ordered and stable -----

  /** No later key is less than an earlier one. */
  ghost predicate NonDescending(key: string -> string, paths: seq<string>) {
    forall i, j :: 0 <= i < j < |paths| ==> !Less(key(paths[j]), key(paths[i]))
  }

  /** The paths with key `k`, in order. */
  function WithKey(key: string -> string, k: string, paths: seq<string>): seq<string> {
    if paths == [] then []
    else
      var last := |paths| - 1;
      WithKey(key, k, paths[..last]) + if key(paths[last]) == k then [paths[last]] else []
  }

  lemma NotLessTransitive(a: string, b: string, c: string)
    requires !Less(b, a) && !Less(c, b)
    ensures !Less(c, a)
  {
    LessTotal(a, b);
    if Less(c, a) && a != b {
      LessTransitive(c, a, b);
    }
  }

  lemma NonDescendingSnoc(key: string -> string, front: seq<string>, p: string)
    requires NonDescending(key, front) && forall q :: q in front ==> !Less(key(p), key(q))
    ensures NonDescending(key, front + [p])
  {
    forall i, j | 0 <= i < j < |front + [p]| ensures !Less(key((front + [p])[j]), key((front + [p])[i])) {
      assert front[i] in front;
    }
  }

  lemma {:induction false} InsertOrdered(key: string -> string, sorted: seq<string>, p: string)
    requires NonDescending(key, sorted)
    ensures NonDescending(key, InsertByKey(key, sorted, p))
  {
    if sorted != [] {
      var last := |sorted| - 1;
      var front := sorted[..last];
      if Less(key(p), key(sorted[last])) {
        InsertOrdered(key, front, p);
        InsertMembers(key, front, p);
        if Less(key(sorted[last]), key(p)) {
          LessTransitive(key(p), key(sorted[last]), key(p));
          LessIrreflexive(key(p));
        }
        NonDescendingSnoc(key, InsertByKey(key, front, p), sorted[last]);
      } else {
        forall q | q in sorted ensures !Less(key(p), key(q)) {
          var i :| 0 <= i <= last && sorted[i] == q;
          if i < last {
            NotLessTransitive(key(q), key(sorted[last]), key(p));
          }
        }
        NonDescendingSnoc(key, sorted, p);
      }
    }
  }

  lemma WithKeySnoc(key: string -> string, k: string, front: seq<string>, p: string)
    ensures WithKey(key, k, front + [p]) == WithKey(key, k, front) + if key(p) == k then [p] else []
  {
    assert (front + [p])[..|front|] == front;
  }

  lemma {:induction false} InsertStable(key: string -> string, k: string, sorted: seq<string>, p: string)
    ensures WithKey(key, k, InsertByKey(key, sorted, p)) == WithKey(key, k, sorted) + if key(p) == k then [p] else []
  {
    if sorted == [] {
      WithKeySnoc(key, k, [], p);
      assert [] + [p] == [p];
    } else {
      var last := |sorted| - 1;
      if Less(key(p), key(sorted[last])) {
        InsertStable(key, k, sorted[..last], p);
        WithKeySnoc(key, k, InsertByKey(key, sorted[..last], p), sorted[last]);
        LessIrreflexive(k);
      } else {
        WithKeySnoc(key, k, sorted, p);
      }
    }
  }

  /** The sort orders by key and keeps the order of paths with equal keys. */
  lemma {:induction false} SortStable(key: string -> string, paths: seq<string>, k: string)
    ensures NonDescending(key, SortByKey(key, paths))
    ensures WithKey(key, k, SortByKey(key, paths)) == WithKey(key, k, paths)
  {
    if paths != [] {
      var last := |paths| - 1;
      SortStable(key, paths[..last], k);
      InsertOrdered(key, SortByKey(key, paths[..last]), paths[last]);
      InsertStable(key, k, SortByKey(key, paths[..last]), paths[last]);
    }
  }

  // ----- The order of the inputs does not matter -----

  function Keys(key: string -> string, paths: seq<string>): seq<string> {
    seq(|paths|, i requires 0 <= i < |paths| => key(paths[i]))
  }

  /** Keys strictly ascend. */
  ghost predicate Ascending(key: string -> string, paths: seq<string>) {
    Sorted(Keys(key, paths))
  }

  lemma AscendingSnoc(key: string -> string, front: seq<string>, p: string)
    requires Ascending(key, front)
    requires forall q :: q in front ==> Less(key(q), key(p))
    ensures Ascending(key, front + [p])
  {
    var keys := Keys(key, front + [p]);
    assert keys == Keys(key, front) + [key(p)];
    forall i | 0 <= i < |front| ensures Less(keys[i], key(p)) {
      assert front[i] in front;
    }
  }

  lemma AscendingFront(key: string -> string, paths: seq<string>)
    requires Ascending(key, paths) && paths != []
    ensures var last := |paths| - 1;
      Ascending(key, paths[..last]) && forall q :: q in paths[..last] ==> Less(key(q), key(paths[last]))
  {
    var last := |paths| - 1;
    var keys := Keys(key, paths);
    assert Keys(key, paths[..last]) == keys[..last];
    forall q | q in paths[..last] ensures Less(key(q), key(paths[last])) {
      var i :| 0 <= i < last && paths[i] == q;
      assert Less(keys[i], keys[last]);
    }
  }

  lemma {:induction false} InsertAscends(key: string -> string, sorted: seq<string>, p: string)
    requires Ascending(key, sorted)
    requires forall q :: q in sorted ==> key(q) != key(p)
    ensures Ascending(key, InsertByKey(key, sorted, p))
  {
    if sorted != [] {
      var last := |sorted| - 1;
      var front := sorted[..last];
      AscendingFront(key, sorted);
      if Less(key(p), key(sorted[last])) {
        InsertAscends(key, front, p);
        InsertMembers(key, front, p);
        AscendingSnoc(key, InsertByKey(key, front, p), sorted[last]);
      } else {
        assert sorted == front + [sorted[last]] && sorted[last] in sorted;
        LessTotal(key(p), key(sorted[last]));
        forall q | q in front ensures Less(key(q), key(p)) {
          LessTransitive(key(q), key(sorted[last]), key(p));
        }
        AscendingSnoc(key, sorted, p);
      }
    }
  }

  /** No two of the paths have the same key. */
  ghost predicate KeysApart(key: string -> string, paths: seq<string>) {
    forall p, q :: p in paths && q in paths && key(p) == key(q) ==> p == q
  }

  lemma {:induction false} SortAscends(key: string -> string, paths: seq<string>)
    requires KeysApart(key, paths)
    requires forall i, j :: 0 <= i < j < |paths| ==> paths[i] != paths[j]
    ensures Ascending(key, SortByKey(key, paths))
  {
    if paths != [] {
      var last := |paths| - 1;
      var front := paths[..last];
      assert forall p :: p in front ==> p in paths;
      SortAscends(key, front);
      SortMembers(key, front);
      forall q | q in SortByKey(key, front) ensures key(q) != key(paths[last]) {
        assert q in front && paths[last] in paths;
      }
      InsertAscends(key, SortByKey(key, front), paths[last]);
    }
  }

  lemma KeysListed(key: string -> string, paths: seq<string>, k: string)
    ensures k in Keys(key, paths) <==> exists p :: p in paths && key(p) == k
  {
    if k in Keys(key, paths) {
      var i :| 0 <= i < |Keys(key, paths)| && Keys(key, paths)[i] == k;
      assert paths[i] in paths;
    }
    forall p | p in paths && key(p) == k ensures k in Keys(key, paths) {
      var i :| 0 <= i < |paths| && paths[i] == p;
      assert Keys(key, paths)[i] == k;
    }
  }

  /** Ascending lists of the same paths are equal. */
  lemma AscendingUnique(key: string -> string, s: seq<string>, t: seq<string>)
    requires Ascending(key, s) && Ascending(key, t) && KeysApart(key, s)
    requires forall p :: p in s <==> p in t
    ensures s == t
  {
    forall k ensures k in Keys(key, s) <==> k in Keys(key, t) {
      KeysListed(key, s, k);
      KeysListed(key, t, k);
    }
    SortedUnique(Keys(key, s), Keys(key, t));
    assert |s| == |Keys(key, s)| == |t|;
    forall i | 0 <= i < |s| ensures s[i] == t[i] {
      assert Keys(key, s)[i] == Keys(key, t)[i];
      assert s[i] in s && t[i] in t;
    }
  }

  /** Main result on order: reordering or repeating the input paths changes nothing, provided no
      two of the files coincide after lower-casing. */
  lemma OrderIrrelevant(tree: FileTree, a: seq<string>, b: seq<string>)
    requires forall p :: p in a <==> p in b
    requires KeysApart(tree.key, Unique(tree, a))
    ensures SignaturePaths(tree, a) == SignaturePaths(tree, b)
  {
    var u, v := Unique(tree, a), Unique(tree, b);
    assert forall p :: p in u <==> p in v;
    SortAscends(tree.key, u);
    SortAscends(tree.key, v);
    SortMembers(tree.key, u);
    SortMembers(tree.key, v);
    AscendingUnique(tree.key, SignaturePaths(tree, a), SignaturePaths(tree, b));
  }

  lemma {:induction false} UniquePrefix(tree: FileTree, x: seq<string>, y: seq<string>)
    ensures Unique(tree, x) <= Unique(tree, x + y)
  {
    if y == [] {
      assert x + y == x;
    } else {
      UniquePrefix(tree, x, y[..|y| - 1]);
      assert (x + y)[..|x + y| - 1] == x + y[..|y| - 1];
    }
  }

  lemma {:induction false} FirstWithKey(key: string -> string, k: string, paths: seq<string>)
    requires paths != [] && key(paths[0]) == k
    ensures WithKey(key, k, paths) != [] && WithKey(key, k, paths)[0] == paths[0]
  {
    if |paths| > 1 {
      FirstWithKey(key, k, paths[..|paths| - 1]);
    }
  }

  lemma FirstUnique(tree: FileTree, p: string, rest: seq<string>)
    requires p in tree.files
    ensures Unique(tree, [p] + rest) != [] && Unique(tree, [p] + rest)[0] == p
  {
    assert [p][..0] == [];
    assert Unique(tree, [p]) == [p];
    UniquePrefix(tree, [p], rest);
    assert Unique(tree, [p] + rest)[0] == [p][0];
  }

  lemma FirstOfTwo(tree: FileTree, p: string, q: string, a: seq<string>)
    requires p in tree.files && q in tree.files && p != q
    ensures var found := WithKey(tree.key, tree.key(p), SignaturePaths(tree, [p, q] + a));
      found != [] && found[0] == p
  {
    var unique := Unique(tree, [p, q] + a);
    FirstUnique(tree, p, [q] + a);
    assert [p] + ([q] + a) == [p, q] + a;
    FirstWithKey(tree.key, tree.key(p), unique);
    SortStable(tree.key, unique, tree.key(p));
  }

  /** The condition is exact: where two files coincide after lower-casing, two orders of the same
      inputs give different lists. */
  lemma OrderMatters(tree: FileTree, a: seq<string>) returns (b: seq<string>, c: seq<string>)
    requires !KeysApart(tree.key, Unique(tree, a))
    ensures (forall p :: p in a <==> p in b) && (forall p :: p in a <==> p in c)
    ensures SignaturePaths(tree, b) != SignaturePaths(tree, c)
  {
    var p, q :| p in Unique(tree, a) && q in Unique(tree, a) && tree.key(p) == tree.key(q) && p != q;
    b, c := [p, q] + a, [q, p] + a;
    FirstOfTwo(tree, p, q, a);
    FirstOfTwo(tree, q, p, a);
  }

  // ----- Which bytes -----

  function FileBytes(f: SourceFile): seq<Byte> {
    Encode(f.path) + [0] + f.content + [0]
  }

  function Stream(files: seq<SourceFile>): seq<Byte> {
    if files == [] then [] else FileBytes(files[0]) + Stream(files[1..])
  }

  lemma {:induction false} StreamSnoc(files: seq<SourceFile>, f: SourceFile)
    ensures Stream(files + [f]) == Stream(files) + FileBytes(f)
  {
    if files == [] {
      assert files + [f] == [f] && [f][1..] == [];
      Unit(FileBytes(f));
    } else {
      StreamSnoc(files[1..], f);
      TailOfConcat(files, [f]);
      Assoc(FileBytes(files[0]), Stream(files[1..]), FileBytes(f));
    }
  }

  function Loaded(tree: FileTree, paths: seq<string>): seq<SourceFile>
    requires forall p :: p in paths ==> p in tree.files
  {
    seq(|paths|, i requires 0 <= i < |paths| => SourceFile(paths[i], tree.files[paths[i]]))
  }

  /** The files that enter the digest for some input paths. */
  function SignatureFiles(tree: FileTree, paths: seq<string>): seq<SourceFile> {
    SortMembers(tree.key, Unique(tree, paths));
    Loaded(tree, SignaturePaths(tree, paths))
  }

  /** The read loop over one file, a chunk at a time. */
  method FeedContent(fed: seq<Byte>, content: seq<Byte>) returns (stream: seq<Byte>)
    ensures stream == fed + content
  {
    stream := fed;
    var offset := 0;
    while offset < |content|
      invariant offset <= |content| && stream == fed + content[..offset]
    {
      var end := if offset + CHUNK_SIZE < |content| then offset + CHUNK_SIZE else |content|;
      assert content[..end] == content[..offset] + content[offset..end];
      stream := stream + content[offset..end];
      offset := end;
    }
    assert content[..offset] == content;
  }

  lemma FedFile(fed: seq<Byte>, f: SourceFile)
    ensures fed + Encode(f.path) + [0] + f.content + [0] == fed + FileBytes(f)
  {}

  /** What the digest is fed. */
  method ComputePathsStream(tree: FileTree, paths: seq<string>) returns (stream: seq<Byte>)
    ensures stream == Stream(SignatureFiles(tree, paths))
  {
    var files := IterSignatureFiles(tree, paths);
    SortMembers(tree.key, Unique(tree, paths));
    stream := [];
    ghost var loaded := Loaded(tree, files);
    for i := 0 to |files|
      invariant stream == Stream(loaded[..i])
    {
      assert files[i] in files;
      var content := tree.files[files[i]];
      ghost var before := stream;
      stream := stream + Encode(files[i]) + [0];
      stream := FeedContent(stream, content);
      stream := stream + [0];
      FedFile(before, loaded[i]);
      StreamSnoc(loaded[..i], loaded[i]);
      assert loaded[..i + 1] == loaded[..i] + [loaded[i]];
    }
    assert loaded[..|files|] == loaded;
  }

  /** No NUL in any path or content. */
  predicate NulFree(files: seq<SourceFile>) {
    forall i :: 0 <= i < |files| ==> 0 !in Encode(files[i].path) && 0 !in files[i].content
  }

  lemma FirstNul(a: seq<Byte>, b: seq<Byte>, x: seq<Byte>, y: seq<Byte>)
    requires 0 !in a && 0 !in b && a + [0] + x == b + [0] + y
    ensures a == b && x == y
  {
    var s := a + [0] + x;
    assert s[|a|] == 0 && s[|b|] == 0;
    forall i | 0 <= i < |b| ensures s[i] != 0 {
      assert s[i] == b[i] && b[i] in b;
    }
    forall i | 0 <= i < |a| ensures s[i] != 0 {
      assert s[i] == a[i] && a[i] in a;
    }
    assert a == s[..|a|] && x == s[|a| + 1..];
  }

  lemma StreamHead(f: SourceFile, g: SourceFile, x: seq<Byte>, y: seq<Byte>)
    requires NulFree([f]) && NulFree([g]) && FileBytes(f) + x == FileBytes(g) + y
    ensures f == g && x == y
  {
    assert 0 !in Encode([f][0].path) && 0 !in Encode([g][0].path);
    var restF, restG := f.content + [0] + x, g.content + [0] + y;
    assert FileBytes(f) + x == Encode(f.path) + [0] + restF;
    assert FileBytes(g) + y == Encode(g.path) + [0] + restG;
    FirstNul(Encode(f.path), Encode(g.path), restF, restG);
    assert 0 !in [f][0].content && 0 !in [g][0].content;
    FirstNul(f.content, g.content, x, y);
    EncodeInjective(f.path, g.path);
  }

  /** Main result on bytes: the stream determines the files. */
  lemma {:induction false} StreamInjective(a: seq<SourceFile>, b: seq<SourceFile>)
    requires NulFree(a) && NulFree(b) && Stream(a) == Stream(b)
    ensures a == b
  {
    if a == [] || b == [] {
    } else {
      StreamHead(a[0], b[0], Stream(a[1..]), Stream(b[1..]));
      StreamInjective(a[1..], b[1..]);
      assert a == [a[0]] + a[1..] && b == [b[0]] + b[1..];
    }
  }

  /** The files of the tree that `paths` names hold no NUL, in path or content. */
  ghost predicate NulFreeAt(tree: FileTree, paths: seq<string>) {
    forall p :: p in paths && p in tree.files ==> 0 !in Encode(p) && 0 !in tree.files[p]
  }

  lemma SignatureFilesNulFree(tree: FileTree, paths: seq<string>)
    requires NulFreeAt(tree, paths)
    ensures NulFree(SignatureFiles(tree, paths))
  {
    SortMembers(tree.key, Unique(tree, paths));
    var sorted := SignaturePaths(tree, paths);
    forall i | 0 <= i < |sorted| ensures 0 !in Encode(sorted[i]) && 0 !in tree.files[sorted[i]] {
      assert sorted[i] in sorted;
    }
  }

  lemma LoadedDetermines(tree: FileTree, a: seq<string>, b: seq<string>)
    requires (forall p :: p in a ==> p in tree.files) && (forall p :: p in b ==> p in tree.files)
    requires Loaded(tree, a) == Loaded(tree, b)
    ensures a == b
  {
    forall i | 0 <= i < |a| ensures a[i] == b[i] {
      assert Loaded(tree, a)[i].path == Loaded(tree, b)[i].path;
    }
  }

  /** Main result on order and bytes: for NUL-free files the digest is fed the same for every order and
      repetition of the input paths exactly when no two of the files coincide after lower-casing. */
  lemma StreamOrder(tree: FileTree, a: seq<string>)
    requires NulFreeAt(tree, a)
    ensures KeysApart(tree.key, Unique(tree, a)) <==>
      forall b :: (forall p :: p in a <==> p in b) ==> Stream(SignatureFiles(tree, b)) == Stream(SignatureFiles(tree, a))
  {
    if KeysApart(tree.key, Unique(tree, a)) {
      forall b | forall p :: p in a <==> p in b ensures Stream(SignatureFiles(tree, b)) == Stream(SignatureFiles(tree, a)) {
        OrderIrrelevant(tree, a, b);
      }
    } else {
      var b, c := OrderMatters(tree, a);
      SignatureFilesNulFree(tree, b);
      SignatureFilesNulFree(tree, c);
      SortMembers(tree.key, Unique(tree, b));
      SortMembers(tree.key, Unique(tree, c));
      if Stream(SignatureFiles(tree, b)) == Stream(SignatureFiles(tree, c)) {
        StreamInjective(SignatureFiles(tree, b), SignatureFiles(tree, c));
        LoadedDetermines(tree, SignaturePaths(tree, b), SignaturePaths(tree, c));
        assert false;
      }
    }
  }

  // ----- Which lists share their stream with another -----

  predicate NulFreePaths(files: seq<SourceFile>) {
    forall i :: 0 <= i < |files| ==> 0 !in Encode(files[i].path)
  }

  /** Another list of files, its paths free of NUL too, has the same stream. */
  ghost predicate Ambiguous(files: seq<SourceFile>) {
    exists other :: NulFreePaths(other) && other != files && Stream(other) == Stream(files)
  }

  /** The content reads, from one of its NULs on, as the path and the content of a further file. */
  ghost predicate Hides(content: seq<Byte>, before: seq<Byte>, path: string, after: seq<Byte>) {
    0 !in Encode(path) && content == before + [0] + Encode(path) + [0] + after
  }

  ghost predicate HidesFile(content: seq<Byte>) {
    exists before, path, after :: Hides(content, before, path, after)
  }

  /** One file whose content hides another has the stream of the two. */
  lemma HiddenStream(path: string, content: seq<Byte>, before: seq<Byte>, hidden: string, after: seq<Byte>)
    requires Hides(content, before, hidden, after)
    ensures FileBytes(SourceFile(path, content)) == FileBytes(SourceFile(path, before)) + FileBytes(SourceFile(hidden, after))
  {
    var head, second := Encode(path) + [0], Encode(hidden) + [0] + after + [0];
    assert content + [0] == before + [0] + second;
    assert FileBytes(SourceFile(path, content)) == head + (content + [0]);
    assert head + (before + [0] + second) == head + before + [0] + second;
  }

  lemma StreamTwo(f: SourceFile, g: SourceFile, rest: seq<SourceFile>)
    ensures Stream([f, g] + rest) == FileBytes(f) + FileBytes(g) + Stream(rest)
  {
    assert ([f, g] + rest)[1..] == [g] + rest && ([g] + rest)[1..] == rest;
    Assoc(FileBytes(f), FileBytes(g), Stream(rest));
  }

  lemma StreamOne(f: SourceFile, rest: seq<SourceFile>)
    ensures Stream([f] + rest) == FileBytes(f) + Stream(rest)
  {
    assert ([f] + rest)[1..] == rest;
  }

  /** Two files merged into one whose content hides the second. */
  function Merged(f: SourceFile, g: SourceFile): SourceFile {
    SourceFile(f.path, f.content + [0] + Encode(g.path) + [0] + g.content)
  }

  lemma MergedStream(f: SourceFile, g: SourceFile, rest: seq<SourceFile>)
    requires 0 !in Encode(g.path)
    ensures Stream([Merged(f, g)] + rest) == Stream([f, g] + rest)
  {
    HiddenStream(f.path, Merged(f, g).content, f.content, g.path, g.content);
    StreamTwo(f, g, rest);
    StreamOne(Merged(f, g), rest);
  }

  lemma TwoAmbiguous(files: seq<SourceFile>)
    requires NulFreePaths(files) && |files| >= 2
    ensures Ambiguous(files)
  {
    var other := [Merged(files[0], files[1])] + files[2..];
    assert files == [files[0], files[1]] + files[2..];
    MergedStream(files[0], files[1], files[2..]);
    assert forall i :: 0 < i < |other| ==> other[i] == files[i + 1];
    assert |other| != |files|;
  }

  /** One file split in two. */
  lemma HidingAmbiguous(f: SourceFile)
    requires NulFreePaths([f]) && HidesFile(f.content)
    ensures Ambiguous([f])
  {
    var before, path, after :| Hides(f.content, before, path, after);
    var first, second := SourceFile(f.path, before), SourceFile(path, after);
    HiddenStream(f.path, f.content, before, path, after);
    StreamTwo(first, second, []);
    StreamOne(f, []);
    assert [first, second] + [] == [first, second] && [f] + [] == [f];
    assert [f][0] == f;
    assert NulFreePaths([first, second]);
    assert [first, second] != [f];
  }

  lemma SamePath(f: SourceFile, g: SourceFile, rest: seq<Byte>)
    requires NulFreePaths([f]) && NulFreePaths([g]) && FileBytes(f) == FileBytes(g) + rest
    ensures f.path == g.path && f.content + [0] == g.content + [0] + rest
  {
    assert 0 !in Encode([f][0].path) && 0 !in Encode([g][0].path);
    assert FileBytes(f) == Encode(f.path) + [0] + (f.content + [0]);
    assert FileBytes(g) + rest == Encode(g.path) + [0] + (g.content + [0] + rest);
    FirstNul(Encode(f.path), Encode(g.path), f.content + [0], g.content + [0] + rest);
    EncodeInjective(f.path, g.path);
  }

  lemma {:induction false} StreamEnds(files: seq<SourceFile>)
    requires files != []
    ensures Stream(files) != [] && Stream(files)[|Stream(files)| - 1] == 0
  {
    if |files| > 1 {
      StreamEnds(files[1..]);
    }
  }

  /** Dropping the last byte on both sides. */
  lemma DropLast(content: seq<Byte>, head: seq<Byte>, tail: seq<Byte>)
    requires tail != [] && content + [0] == head + tail
    ensures content == head + tail[..|tail| - 1]
  {
    assert content == (content + [0])[..|content|];
    assert head + tail[..|tail| - 1] == (head + tail)[..|head| + |tail| - 1];
  }

  lemma TailHides(content: seq<Byte>, before: seq<Byte>, rest: seq<SourceFile>)
    requires NulFreePaths(rest) && rest != [] && content + [0] == before + [0] + Stream(rest)
    ensures HidesFile(content)
  {
    var g, tail := rest[0], rest[0].content + [0] + Stream(rest[1..]);
    var path := Encode(g.path) + [0];
    assert rest == [g] + rest[1..];
    StreamOne(g, rest[1..]);
    Assoc(path, g.content + [0], Stream(rest[1..]));
    Assoc(path, g.content, [0]);
    Assoc(before + [0], path, tail);
    DropLast(content, before + [0] + path, tail);
    Assoc(before + [0], Encode(g.path), [0]);
    assert Hides(content, before, g.path, tail[..|tail| - 1]);
  }

  lemma LastDropped(a: seq<Byte>, b: seq<Byte>)
    requires a + [0] == b + [0] + []
    ensures a == b
  {
    assert a == (a + [0])[..|a|];
  }

  lemma OneAmbiguous(f: SourceFile)
    requires NulFreePaths([f]) && Ambiguous([f])
    ensures HidesFile(f.content)
  {
    var other :| NulFreePaths(other) && other != [f] && Stream(other) == Stream([f]);
    StreamOne(f, []);
    assert [f] + [] == [f] && FileBytes(f) + [] == FileBytes(f);
    var g, rest := other[0], other[1..];
    assert NulFreePaths([g]);
    SamePath(f, g, Stream(rest));
    assert other == [g] + rest;
    if rest != [] {
      TailHides(f.content, g.content, rest);
    } else {
      LastDropped(f.content, g.content);
      assert false;
    }
  }

  /** Main result on ambiguity: a list shares its stream with another exactly when it has two files or
      more, or its one file hides another after a NUL in its content. */
  lemma StreamAmbiguous(files: seq<SourceFile>)
    requires NulFreePaths(files)
    ensures Ambiguous(files) <==> |files| >= 2 || (|files| == 1 && HidesFile(files[0].content))
  {
    if |files| >= 2 {
      TwoAmbiguous(files);
    } else if |files| == 1 {
      assert files == [files[0]];
      if HidesFile(files[0].content) {
        HidingAmbiguous(files[0]);
      }
      if Ambiguous(files) {
        OneAmbiguous(files[0]);
      }
    } else if other :| NulFreePaths(other) && other != files && Stream(other) == Stream(files) {
      StreamEnds(other);
    }
  }

  /** For example, one file and two files give the same bytes. */
  lemma NulAmbiguous()
    ensures var one := [SourceFile("a", [0, 98, 0])];
      var two := [SourceFile("a", []), SourceFile("b", [])];
      one != two && Stream(one) == Stream(two)
  {
    var one := [SourceFile("a", [0, 98, 0])];
    var two := [SourceFile("a", []), SourceFile("b", [])];
    EncodeAscii("a");
    EncodeAscii("b");
    assert Stream(one[1..]) == [] && Stream(two[1..][1..]) == [];
    assert Stream(one) == [97, 0, 0, 98, 0, 0];
    assert Stream(two) == [97, 0, 0, 98, 0, 0];
  }
}
