/** The byte-level reader of DevTools HTTP responses. */
module HttpReader {
  import opened Wrappers
  import opened Text
  import opened Utf8

  const DELIMITER: seq<Byte> := [13, 10, 13, 10]
  const BUFFER_SIZE := 4096
  const USIZE_LIMIT := 0x1_0000_0000_0000_0000

  predicate OccursAt(haystack: seq<Byte>, needle: seq<Byte>, i: nat) {
    i + |needle| <= |haystack| && haystack[i..i + |needle|] == needle
  }

  /** `found` is the first occurrence of `needle`, or None if there is none. */
  ghost predicate IsFirst(haystack: seq<Byte>, needle: seq<Byte>, found: Option<nat>) {
    match found
    case Some(i) => OccursAt(haystack, needle, i) && forall k: nat :: k < i ==> !OccursAt(haystack, needle, k)
    case None => forall k: nat :: !OccursAt(haystack, needle, k)
  }

  function FindFrom(haystack: seq<Byte>, needle: seq<Byte>, i: nat): (found: Option<nat>)
    requires i <= |haystack|
    requires forall k: nat :: k < i ==> !OccursAt(haystack, needle, k)
    ensures IsFirst(haystack, needle, found)
    decreases |haystack| - i
  {
    if OccursAt(haystack, needle, i) then Some(i)
    else if i == |haystack| then None
    else FindFrom(haystack, needle, i + 1)
  }

  function Find(haystack: seq<Byte>, needle: seq<Byte>): (found: Option<nat>)
    ensures IsFirst(haystack, needle, found)
  {
    FindFrom(haystack, needle, 0)
  }

  method FindBytes(haystack: seq<Byte>, needle: seq<Byte>) returns (found: Option<nat>)
    requires needle != []
    ensures IsFirst(haystack, needle, found)
    ensures found == Find(haystack, needle)
  {
    var i := 0;
    while i + |needle| <= |haystack|
      invariant forall k: nat :: k < i ==> !OccursAt(haystack, needle, k)
    {
      if haystack[i..i + |needle|] == needle {
        assert OccursAt(haystack, needle, i);
        return Some(i);
      }
      i := i + 1;
    }
    return None;
  }

  function AsciiLower(c: char): char {
    if 'A' <= c <= 'Z' then (c as int + 32) as char else c
  }

  predicate EqIgnoreAsciiCase(a: string, b: string) {
    |a| == |b| && forall i :: 0 <= i < |a| ==> AsciiLower(a[i]) == AsciiLower(b[i])
  }

  /** `str::parse::<usize>`: an optional plus sign, at least one digit, and no overflow. */
  function ParseUsize(s: string): Option<nat> {
    var digits := if s != "" && s[0] == '+' then s[1..] else s;
    if digits != "" && AllDigits(digits) && DecimalValue(digits) < USIZE_LIMIT
    then Some(DecimalValue(digits)) else None
  }

  function LineLength(line: string): Option<nat> {
    var colon := IndexOf(line, ':');
    if colon < |line| && EqIgnoreAsciiCase(line[..colon], "content-length")
    then ParseUsize(Trim(line[colon + 1..])) else None
  }

  /** The first header line that declares a parseable length. */
  function FirstLength(lines: seq<string>): Option<nat> {
    if lines == [] then None
    else if LineLength(lines[0]).Some? then LineLength(lines[0])
    else FirstLength(lines[1..])
  }

  /** A `Content-Length` line in any case, with any whitespace around its number, declares it. */
  lemma LengthLine(name: string, before: string, n: nat, after: string)
    requires EqIgnoreAsciiCase(name, "content-length") && n < USIZE_LIMIT
    requires AllWhitespace(before) && AllWhitespace(after)
    ensures LineLength(name + ":" + (before + Decimal(n) + after)) == Some(n)
  {
    var line := name + ":" + (before + Decimal(n) + after);
    forall i | 0 <= i < |name| ensures name[i] != ':' {
      assert AsciiLower(name[i]) == AsciiLower("content-length"[i]);
    }
    FirstColon(name, before + Decimal(n) + after);
    assert line[..|name|] == name && line[|name| + 1..] == before + Decimal(n) + after;
    assert IsDigit(Decimal(n)[0]) && IsDigit(Decimal(n)[|Decimal(n)| - 1]);
    TrimPadding(before, Decimal(n), after);
    DecimalRoundTrip(n);
  }

  lemma {:induction false} FirstColon(name: string, rest: string)
    requires Free(name, ':')
    ensures IndexOf(name + ":" + rest, ':') == |name|
  {
    if name != "" {
      FirstColon(name[1..], rest);
      assert (name + ":" + rest)[1..] == name[1..] + ":" + rest;
    }
  }

  // ----- Which lines declare a length -----

  /** The word in any mix of upper and lower case; `word` is in lower case. */
  predicate InAnyCase(s: string, word: string) {
    && |s| == |word|
    && forall i :: 0 <= i < |s| ==>
      s[i] == word[i] || ('A' <= s[i] <= 'Z' && s[i] as int + 32 == word[i] as int)
  }

  /** Decimal digits, most significant first, that denote `n`. */
  ghost predicate Denotes(digits: string, n: nat) {
    if digits == "" then n == 0
    else
      var last := digits[|digits| - 1];
      '0' <= last <= '9' && exists higher: nat :: Denotes(digits[..|digits| - 1], higher) && n == 10 * higher + (last as int - 48)
  }

  lemma {:induction false} DenotesExactly(digits: string, n: nat)
    ensures Denotes(digits, n) <==> AllDigits(digits) && DecimalValue(digits) == n
  {
    if digits != "" {
      var front, last := digits[..|digits| - 1], digits[|digits| - 1];
      assert digits == front + [last];
      if AllDigits(digits) {
        DenotesExactly(front, DecimalValue(front));
      }
      if Denotes(digits, n) {
        var higher: nat :| Denotes(digits[..|digits| - 1], higher) && n == 10 * higher + (last as int - 48);
        DenotesExactly(front, higher);
        assert forall i :: 0 <= i < |digits| ==> IsDigit(digits[i]) by {
          forall i | 0 <= i < |digits| ensures IsDigit(digits[i]) {
            assert i < |front| ==> digits[i] == front[i];
          }
        }
      }
    }
  }

  /** The line is `content-length:` in any case, then `n` in decimal after an optional plus sign, with
      any whitespace around it. */
  ghost predicate DeclaresLength(line: string, name: string, before: string, sign: string, digits: string, after: string, n: nat) {
    && line == name + ":" + (before + (sign + digits) + after)
    && InAnyCase(name, "content-length") && AllWhitespace(before) && AllWhitespace(after)
    && (sign == "" || sign == "+") && digits != "" && Denotes(digits, n) && n < 0x1_0000_0000_0000_0000
  }

  lemma NameExactly(name: string)
    ensures EqIgnoreAsciiCase(name, "content-length") <==> InAnyCase(name, "content-length")
    ensures InAnyCase(name, "content-length") ==> Free(name, ':')
  {
    var word := "content-length";
    if |name| == |word| {
      forall i | 0 <= i < |name|
        ensures AsciiLower(name[i]) == AsciiLower(word[i]) <==>
          name[i] == word[i] || ('A' <= name[i] <= 'Z' && name[i] as int + 32 == word[i] as int)
      {}
    }
  }

  lemma SignedTight(sign: string, digits: string)
    requires (sign == "" || sign == "+") && digits != "" && AllDigits(digits)
    ensures Tight(sign + digits)
  {
    assert IsDigit(digits[0]) && IsDigit(digits[|digits| - 1]);
  }

  lemma ParsesExactly(s: string, n: nat)
    ensures ParseUsize(s) == Some(n) <==> exists sign, digits ::
      s == sign + digits && (sign == "" || sign == "+") && digits != "" && Denotes(digits, n) && n < 0x1_0000_0000_0000_0000
  {
    if ParseUsize(s) == Some(n) {
      var sign, digits := if s[0] == '+' then "+" else "", if s[0] == '+' then s[1..] else s;
      assert s == sign + digits;
      DenotesExactly(digits, n);
    }
    if sign, digits :|
      s == sign + digits && (sign == "" || sign == "+") && digits != "" && Denotes(digits, n) && n < 0x1_0000_0000_0000_0000
    {
      DenotesExactly(digits, n);
      assert IsDigit(digits[0]);
      assert (if sign == "+" then s[1..] else s) == digits;
    }
  }

  /** Exactly the lines of that form declare a length, and the number is theirs. */
  lemma LengthExactly(line: string, n: nat)
    ensures LineLength(line) == Some(n) <==>
      exists name, before, sign, digits, after :: DeclaresLength(line, name, before, sign, digits, after, n)
  {
    if LineLength(line) == Some(n) {
      var colon := IndexOf(line, ':');
      var name, rest := line[..colon], line[colon + 1..];
      assert line == name + ":" + rest;
      NameExactly(name);
      ParsesExactly(Trim(rest), n);
      var before, after := TrimDecomposes(rest);
      var sign, digits :| Trim(rest) == sign + digits && (sign == "" || sign == "+") && digits != "" && Denotes(digits, n);
      assert DeclaresLength(line, name, before, sign, digits, after, n);
    }
    if name, before, sign, digits, after :| DeclaresLength(line, name, before, sign, digits, after, n) {
      var rest := before + (sign + digits) + after;
      NameExactly(name);
      FirstColon(name, rest);
      assert line[..|name|] == name && line[|name| + 1..] == rest;
      DenotesExactly(digits, n);
      SignedTight(sign, digits);
      TrimPadding(before, sign + digits, after);
      ParsesExactly(sign + digits, n);
    }
  }

  /** How header bytes read as text: the lossy UTF-8 decoder of the standard library. */
  type Lossy = seq<Byte> -> string

  /** Where the response declares to end: the header block, the delimiter and the body. */
  function DeclaredEnd(lossy: Lossy, s: seq<Byte>): Option<nat> {
    match Find(s, DELIMITER)
    case None => None
    case Some(h) =>
      match FirstLength(Lines(lossy(s[..h])))
      case None => None
      case Some(n) => Some(h + 4 + n)
  }

  predicate Complete(lossy: Lossy, s: seq<Byte>) {
    var end := DeclaredEnd(lossy, s);
    end.Some? && |s| >= end.value
  }

  /** The bytes of the first `k` chunks. */
  function Prefix(chunks: seq<seq<Byte>>, k: nat): seq<Byte>
    requires k <= |chunks|
  {
    if k == 0 then [] else Prefix(chunks, k - 1) + chunks[k - 1]
  }

  function Flatten(chunks: seq<seq<Byte>>): seq<Byte> {
    Prefix(chunks, |chunks|)
  }

  /** What successive reads return: never empty, at most a buffer. */
  predicate ValidChunks(chunks: seq<seq<Byte>>) {
    forall i :: 0 <= i < |chunks| ==> 0 < |chunks[i]| <= BUFFER_SIZE
  }

  /** After `chunks` the stream ends, or fails. */
  datatype Stream = Stream(chunks: seq<seq<Byte>>, fails: bool)

  ghost predicate NoneComplete(lossy: Lossy, chunks: seq<seq<Byte>>, k: nat)
    requires k <= |chunks|
  {
    forall j :: 0 < j <= k ==> !Complete(lossy, Prefix(chunks, j))
  }

  /** The response is complete after `k` chunks and not before. */
  ghost predicate StopsAt(lossy: Lossy, chunks: seq<seq<Byte>>, k: nat) {
    0 < k <= |chunks| && Complete(lossy, Prefix(chunks, k)) && NoneComplete(lossy, chunks, k - 1)
  }

  /** `result` is what reading the stream gives: everything up to the first chunk after which the
      response is complete, else everything up to the end of the stream. */
  ghost predicate Reads(lossy: Lossy, stream: Stream, result: Result<seq<Byte>, ()>) {
    if NoneComplete(lossy, stream.chunks, |stream.chunks|)
    then result == if stream.fails then Err(()) else Ok(Flatten(stream.chunks))
    else exists k: nat :: StopsAt(lossy, stream.chunks, k) && result == Ok(Prefix(stream.chunks, k))
  }

  /** The loop body's test on the bytes received so far. */
  method CheckComplete(lossy: Lossy, response: seq<Byte>) returns (complete: bool)
    ensures complete == Complete(lossy, response)
  {
    var headerEnd := FindBytes(response, DELIMITER);
    if headerEnd.None? {
      return false;
    }
    var contentLength := FirstLength(Lines(lossy(response[..headerEnd.value])));
    return contentLength.Some? && |response| >= headerEnd.value + 4 + contentLength.value;
  }

  method ReadHttpResponse(lossy: Lossy, stream: Stream) returns (result: Result<seq<Byte>, ()>)
    requires ValidChunks(stream.chunks)
    ensures Reads(lossy, stream, result)
  {
    var chunks := stream.chunks;
    var response: seq<Byte> := [];
    for i := 0 to |chunks|
      invariant response == Prefix(chunks, i)
      invariant NoneComplete(lossy, chunks, i)
    {
      response := response + chunks[i];
      var complete := CheckComplete(lossy, response);
      if complete {
        assert StopsAt(lossy, chunks, i + 1);
        return Ok(response);
      }
    }
    return if stream.fails then Err(()) else Ok(response);
  }

  // ----- Independence of the chunking -----

  lemma OccursExtended(s: seq<Byte>, t: seq<Byte>, needle: seq<Byte>, i: nat)
    requires i + |needle| <= |s|
    ensures OccursAt(s + t, needle, i) == OccursAt(s, needle, i)
  {
    assert (s + t)[i..i + |needle|] == s[i..i + |needle|];
  }

  /** The first delimiter of a prefix is the first delimiter of every extension. */
  lemma FindStable(s: seq<Byte>, t: seq<Byte>)
    requires Find(s, DELIMITER).Some?
    ensures Find(s + t, DELIMITER) == Find(s, DELIMITER)
  {
    var i := Find(s, DELIMITER).value;
    forall k: nat | k <= i ensures OccursAt(s + t, DELIMITER, k) == OccursAt(s, DELIMITER, k) {
      OccursExtended(s, t, DELIMITER, k);
    }
    assert OccursAt(s + t, DELIMITER, i);
  }

  /** A prefix is complete exactly when it reaches the declared end of the whole. */
  lemma CompletePrefix(lossy: Lossy, s: seq<Byte>, t: seq<Byte>)
    ensures Complete(lossy, s) <==>
      DeclaredEnd(lossy, s + t).Some? && |s| >= DeclaredEnd(lossy, s + t).value
  {
    if Find(s, DELIMITER).Some? {
      FindStable(s, t);
      var h := Find(s, DELIMITER).value;
      assert (s + t)[..h] == s[..h];
    } else if DeclaredEnd(lossy, s + t).Some? {
      var h := Find(s + t, DELIMITER).value;
      if |s| >= DeclaredEnd(lossy, s + t).value {
        OccursExtended(s, t, DELIMITER, h);
        assert false;
      }
    }
  }

  lemma {:induction false} PrefixGrows(chunks: seq<seq<Byte>>, j: nat, k: nat)
    requires j <= k <= |chunks|
    ensures Prefix(chunks, j) <= Prefix(chunks, k)
    ensures ValidChunks(chunks) && j < k ==> |Prefix(chunks, j)| < |Prefix(chunks, k)|
  {
    if j < k {
      PrefixGrows(chunks, j, k - 1);
    }
  }

  /** Chunk `k` is the first to reach the byte count `end`. */
  ghost predicate Reaches(chunks: seq<seq<Byte>>, end: nat, k: nat) {
    0 < k <= |chunks| && |Prefix(chunks, k - 1)| < end <= |Prefix(chunks, k)|
  }

  lemma ReachesUnique(chunks: seq<seq<Byte>>, end: nat, k: nat, m: nat)
    requires Reaches(chunks, end, k) && Reaches(chunks, end, m)
    ensures k == m
  {
    if k < m {
      PrefixGrows(chunks, k, m - 1);
    } else if m < k {
      PrefixGrows(chunks, m, k - 1);
    }
  }

  lemma CompleteAt(lossy: Lossy, chunks: seq<seq<Byte>>, j: nat)
    requires j <= |chunks|
    ensures var end := DeclaredEnd(lossy, Flatten(chunks));
      Complete(lossy, Prefix(chunks, j)) <==> end.Some? && end.value <= |Prefix(chunks, j)|
  {
    var s, total := Prefix(chunks, j), Flatten(chunks);
    PrefixGrows(chunks, j, |chunks|);
    CompletePrefix(lossy, s, total[|s|..]);
    assert s + total[|s|..] == total;
  }

  lemma NoneCompleteAt(lossy: Lossy, chunks: seq<seq<Byte>>, k: nat)
    requires k <= |chunks|
    ensures var end := DeclaredEnd(lossy, Flatten(chunks));
      NoneComplete(lossy, chunks, k) <==> end.None? || |Prefix(chunks, k)| < end.value
  {
    var end := DeclaredEnd(lossy, Flatten(chunks));
    forall j | 0 < j <= k ensures Complete(lossy, Prefix(chunks, j)) ==> end.Some? && end.value <= |Prefix(chunks, k)| {
      CompleteAt(lossy, chunks, j);
      PrefixGrows(chunks, j, k);
    }
    CompleteAt(lossy, chunks, k);
  }

  /** The loop stops after the first chunk boundary at or past the declared end of the stream. */
  lemma StopsAtBoundary(lossy: Lossy, chunks: seq<seq<Byte>>, k: nat)
    requires 0 < k <= |chunks|
    ensures var end := DeclaredEnd(lossy, Flatten(chunks));
      StopsAt(lossy, chunks, k) <==> end.Some? && Reaches(chunks, end.value, k)
  {
    CompleteAt(lossy, chunks, k);
    NoneCompleteAt(lossy, chunks, k - 1);
  }

  /** What reading gives when the stream's bytes declare to end at `end`: a stream that ends
      before is read to its end, any other up to the first chunk that reaches `end`. */
  ghost predicate ReadsTo(stream: Stream, end: Option<nat>, result: Result<seq<Byte>, ()>) {
    var total := Flatten(stream.chunks);
    if end.None? || |total| < end.value
    then result == if stream.fails then Err(()) else Ok(total)
    else exists k: nat :: Reaches(stream.chunks, end.value, k) && result == Ok(Prefix(stream.chunks, k))
  }

  /** Main result: only the declared end of the whole stream decides what is read. */
  lemma ReadResult(lossy: Lossy, stream: Stream, result: Result<seq<Byte>, ()>)
    requires Reads(lossy, stream, result)
    ensures ReadsTo(stream, DeclaredEnd(lossy, Flatten(stream.chunks)), result)
  {
    var chunks := stream.chunks;
    NoneCompleteAt(lossy, chunks, |chunks|);
    if !NoneComplete(lossy, chunks, |chunks|) {
      var k: nat :| StopsAt(lossy, chunks, k) && result == Ok(Prefix(chunks, k));
      StopsAtBoundary(lossy, chunks, k);
    }
  }

  predicate HasExcess(total: seq<Byte>, end: Option<nat>) {
    end.Some? && end.value < |total|
  }

  /** Without bytes past the declared end the result is the same for every chunking, and a body of
      exactly the declared length is returned whole. */
  lemma ChunkingIrrelevant(stream: Stream, end: Option<nat>, result: Result<seq<Byte>, ()>)
    requires ReadsTo(stream, end, result)
    requires !HasExcess(Flatten(stream.chunks), end)
    ensures var total := Flatten(stream.chunks);
      result == if stream.fails && end != Some(|total|) then Err(()) else Ok(total)
  {
    var chunks := stream.chunks;
    if end == Some(|Flatten(chunks)|) {
      var k: nat :| Reaches(chunks, end.value, k) && result == Ok(Prefix(chunks, k));
      PrefixGrows(chunks, k, |chunks|);
      assert Prefix(chunks, k) == Flatten(chunks);
    }
  }

  /** Two splits of the same bytes, without excess, give the same result. */
  lemma SplitsAgree(lossy: Lossy, s: Stream, t: Stream, a: Result<seq<Byte>, ()>, b: Result<seq<Byte>, ()>)
    requires Flatten(s.chunks) == Flatten(t.chunks) && s.fails == t.fails
    requires !HasExcess(Flatten(s.chunks), DeclaredEnd(lossy, Flatten(s.chunks)))
    requires Reads(lossy, s, a) && Reads(lossy, t, b)
    ensures a == b
  {
    var end := DeclaredEnd(lossy, Flatten(s.chunks));
    ReadResult(lossy, s, a);
    ReadResult(lossy, t, b);
    ChunkingIrrelevant(s, end, a);
    ChunkingIrrelevant(t, end, b);
  }

  /** One-byte chunks, but for one chunk of two bytes from `p` on. */
  function OnePair(total: seq<Byte>, p: nat): (chunks: seq<seq<Byte>>)
    requires p + 2 <= |total|
    ensures ValidChunks(chunks) && |chunks| == |total| - 1
  {
    seq(|total| - 1, i requires 0 <= i < |total| - 1 =>
      if i < p then [total[i]] else if i == p then [total[p], total[p + 1]] else [total[i + 1]])
  }

  lemma {:induction false} OnePairPrefix(total: seq<Byte>, p: nat, k: nat)
    requires p + 2 <= |total| && k < |total|
    ensures Prefix(OnePair(total, p), k) == if k <= p then total[..k] else total[..k + 1]
  {
    if k > 0 {
      OnePairPrefix(total, p, k - 1);
    }
  }

  /** A stream that reaches its declared end is read to the chunk that reaches it. */
  lemma ReachedRead(chunks: seq<seq<Byte>>, end: nat, k: nat, result: Result<seq<Byte>, ()>)
    requires Reaches(chunks, end, k) && ReadsTo(Stream(chunks, false), Some(end), result)
    ensures result == Ok(Prefix(chunks, k))
  {
    PrefixGrows(chunks, k, |chunks|);
    var m: nat :| Reaches(chunks, end, m) && result == Ok(Prefix(chunks, m));
    ReachesUnique(chunks, end, k, m);
  }

  lemma OnePairFlat(total: seq<Byte>, p: nat)
    requires p + 2 <= |total|
    ensures Flatten(OnePair(total, p)) == total
  {
    OnePairPrefix(total, p, |total| - 1);
    assert total[..|total|] == total;
  }

  /** The pair is the chunk at which both of its ends are reached. */
  lemma OnePairReaches(total: seq<Byte>, p: nat, end: nat)
    requires p + 2 <= |total| && p < end <= p + 2
    ensures Reaches(OnePair(total, p), end, p + 1)
    ensures Prefix(OnePair(total, p), p + 1) == total[..p + 2]
  {
    OnePairPrefix(total, p, p);
    OnePairPrefix(total, p, p + 1);
    assert |Prefix(OnePair(total, p), p)| == p;
  }

  lemma ReadUnder(lossy: Lossy, chunks: seq<seq<Byte>>, end: nat, k: nat, result: Result<seq<Byte>, ()>)
    requires DeclaredEnd(lossy, Flatten(chunks)) == Some(end) && Reaches(chunks, end, k)
    requires Reads(lossy, Stream(chunks, false), result)
    ensures result == Ok(Prefix(chunks, k))
  {
    ReadResult(lossy, Stream(chunks, false), result);
    ReachedRead(chunks, end, k, result);
  }

  lemma DeclaredPast(lossy: Lossy, s: seq<Byte>)
    ensures DeclaredEnd(lossy, s).Some? ==> DeclaredEnd(lossy, s).value >= 4
  {}

  /** With bytes past the declared end the chunking decides: the same bytes are read to the
      declared end under one split, and to one byte past it under another. */
  lemma ChunkingMatters(lossy: Lossy, total: seq<Byte>, end: nat) returns (s: seq<seq<Byte>>, t: seq<seq<Byte>>)
    requires DeclaredEnd(lossy, total) == Some(end) && end < |total|
    ensures ValidChunks(s) && ValidChunks(t) && Flatten(s) == total == Flatten(t)
    ensures forall a :: Reads(lossy, Stream(s, false), a) ==> a == Ok(total[..end])
    ensures forall b :: Reads(lossy, Stream(t, false), b) ==> b == Ok(total[..end + 1])
  {
    DeclaredPast(lossy, total);
    s, t := OnePair(total, end - 2), OnePair(total, end - 1);
    OnePairFlat(total, end - 2);
    OnePairFlat(total, end - 1);
    OnePairReaches(total, end - 2, end);
    OnePairReaches(total, end - 1, end);
    forall a | Reads(lossy, Stream(s, false), a) ensures a == Ok(total[..end]) {
      ReadUnder(lossy, s, end, end - 1, a);
    }
    forall b | Reads(lossy, Stream(t, false), b) ensures b == Ok(total[..end + 1]) {
      ReadUnder(lossy, t, end, end, b);
    }
  }

  // ----- Which responses declare an end -----

  /** `head` holds no delimiter, nor half of one at its end. */
  ghost predicate IsHead(head: seq<Byte>) {
    Find(head, DELIMITER).None? && !(|head| >= 2 && head[|head| - 2..] == [13, 10])
  }

  lemma NoEarlyDelimiter(head: seq<Byte>, rest: seq<Byte>, k: nat)
    requires IsHead(head) && k < |head|
    ensures !OccursAt(head + DELIMITER + rest, DELIMITER, k)
  {
    var s := head + DELIMITER + rest;
    if k + 4 <= |head| {
      OccursExtended(head, DELIMITER + rest, DELIMITER, k);
      assert s == head + (DELIMITER + rest);
    } else {
      var found := s[k..k + 4];
      assert s[|head|] == 13 && s[|head| + 1] == 10;
      if k + 2 == |head| {
        assert head[|head| - 2..] == [found[0], found[1]];
      } else {
        assert found[|head| - k] == 13;
      }
    }
  }

  lemma HeadEnds(head: seq<Byte>, rest: seq<Byte>)
    requires IsHead(head)
    ensures Find(head + DELIMITER + rest, DELIMITER) == Some(|head|)
  {
    var s := head + DELIMITER + rest;
    assert s[|head|..|head| + 4] == DELIMITER;
    assert OccursAt(s, DELIMITER, |head|);
    forall k: nat | k < |head| ensures !OccursAt(s, DELIMITER, k) {
      NoEarlyDelimiter(head, rest, k);
    }
  }

  lemma {:induction false} FirstLengthAt(before: seq<string>, line: string, after: seq<string>)
    requires forall i :: 0 <= i < |before| ==> LineLength(before[i]).None?
    requires LineLength(line).Some?
    ensures FirstLength(before + [line] + after) == LineLength(line)
  {
    var lines := before + [line] + after;
    if before != [] {
      FirstLengthAt(before[1..], line, after);
      assert lines[1..] == before[1..] + [line] + after;
    }
  }

  /** A header block whose first length line is `Content-Length: n` declares `n` bytes of body, in
      any case, with any whitespace around the number and whatever follows. */
  lemma HeadDeclares(lossy: Lossy, head: seq<Byte>, rest: seq<Byte>, before: seq<string>, after: seq<string>,
                     name: string, left: string, n: nat, right: string)
    requires IsHead(head)
    requires Lines(lossy(head)) == before + [name + ":" + (left + Decimal(n) + right)] + after
    requires forall i :: 0 <= i < |before| ==> LineLength(before[i]).None?
    requires EqIgnoreAsciiCase(name, "content-length") && n < USIZE_LIMIT
    requires AllWhitespace(left) && AllWhitespace(right)
    ensures DeclaredEnd(lossy, head + DELIMITER + rest) == Some(|head| + |DELIMITER| + n)
  {
    HeadEnds(head, rest);
    assert (head + DELIMITER + rest)[..|head|] == head;
    LengthLine(name, left, n, right);
    FirstLengthAt(before, name + ":" + (left + Decimal(n) + right), after);
  }

  /** A response that such a header block starts, with more than `n` bytes after it, is read
      differently under two splits. */
  lemma ExcessMatters(lossy: Lossy, head: seq<Byte>, rest: seq<Byte>, before: seq<string>, after: seq<string>, n: nat)
    returns (s: seq<seq<Byte>>, t: seq<seq<Byte>>)
    requires IsHead(head) && n < USIZE_LIMIT && n < |rest|
    requires Lines(lossy(head)) == before + ["Content-Length: " + Decimal(n)] + after
    requires forall i :: 0 <= i < |before| ==> LineLength(before[i]).None?
    ensures ValidChunks(s) && ValidChunks(t) && Flatten(s) == head + DELIMITER + rest == Flatten(t)
    ensures forall a :: Reads(lossy, Stream(s, false), a) ==> a == Ok(head + DELIMITER + rest[..n])
    ensures forall b :: Reads(lossy, Stream(t, false), b) ==> b == Ok(head + DELIMITER + rest[..n + 1])
  {
    var total, end := head + DELIMITER + rest, |head| + |DELIMITER| + n;
    assert "Content-Length: " + Decimal(n) == "Content-Length" + ":" + (" " + Decimal(n) + "");
    HeadDeclares(lossy, head, rest, before, after, "Content-Length", " ", n, "");
    s, t := ChunkingMatters(lossy, total, end);
    assert total[..end] == head + DELIMITER + rest[..n];
    assert total[..end + 1] == head + DELIMITER + rest[..n + 1];
  }

  lemma PrintableHead(head: seq<Byte>)
    requires forall i :: 0 <= i < |head| ==> head[i] >= 32
    ensures IsHead(head)
  {
    forall k: nat ensures !OccursAt(head, DELIMITER, k) {
      if k + 4 <= |head| {
        assert head[k..k + 4][0] == head[k];
      }
    }
    if |head| >= 2 {
      assert head[|head| - 2..][0] == head[|head| - 2];
    }
  }

  lemma OneHeader(n: nat)
    ensures var line := "Content-Length: " + Decimal(n);
      IsHead(Encode(line)) && Lines(line) == [line]
  {
    var line := "Content-Length: " + Decimal(n);
    assert forall i :: 0 <= i < |line| ==> 32 <= line[i] as int < 0x80;
    EncodeAscii(line);
    PrintableHead(Encode(line));
    SplitFree(line, '\n');
  }

  /** Such responses exist, for every length and every decoder that reads ASCII as it is. */
  lemma ExcessExists(lossy: Lossy, n: nat, rest: seq<Byte>) returns (s: seq<seq<Byte>>, t: seq<seq<Byte>>)
    requires n < USIZE_LIMIT && n < |rest|
    requires lossy(Encode("Content-Length: " + Decimal(n))) == "Content-Length: " + Decimal(n)
    ensures ValidChunks(s) && ValidChunks(t) && Flatten(s) == Encode("Content-Length: " + Decimal(n)) + DELIMITER + rest == Flatten(t)
    ensures forall a :: Reads(lossy, Stream(s, false), a) ==> a == Ok(Encode("Content-Length: " + Decimal(n)) + DELIMITER + rest[..n])
    ensures forall b :: Reads(lossy, Stream(t, false), b) ==> b == Ok(Encode("Content-Length: " + Decimal(n)) + DELIMITER + rest[..n + 1])
  {
    OneHeader(n);
    var line := "Content-Length: " + Decimal(n);
    assert [] + [line] + [] == [line];
    s, t := ExcessMatters(lossy, Encode(line), rest, [], [], n);
  }
}
