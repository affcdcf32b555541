/** The order of strings by code point, and sequences sorted by it. */
module Ordering {
  predicate Less(a: string, b: string) {
    b != "" && (a == "" || a[0] < b[0] || (a[0] == b[0] && Less(a[1..], b[1..])))
  }

  lemma {:induction false} LessTransitive(a: string, b: string, c: string)
    requires Less(a, b) && Less(b, c)
    ensures Less(a, c)
  {
    if a != "" && a[0] == b[0] && b[0] == c[0] {
      LessTransitive(a[1..], b[1..], c[1..]);
    }
  }

  lemma {:induction false} LessIrreflexive(a: string)
    ensures !Less(a, a)
  {
    if a != "" {
      LessIrreflexive(a[1..]);
    }
  }

  lemma {:induction false} LessTotal(a: string, b: string)
    ensures a == b || Less(a, b) || Less(b, a)
  {
    if a != "" && b != "" && a[0] == b[0] {
      LessTotal(a[1..], b[1..]);
      assert a == [a[0]] + a[1..] && b == [b[0]] + b[1..];
    }
  }

  ghost predicate Sorted(s: seq<string>) {
    forall i, j :: 0 <= i < j < |s| ==> Less(s[i], s[j])
  }

  /** Insertion into an ordered set. */
  function Insert(s: seq<string>, x: string): seq<string> {
    if s == [] then [x]
    else if x == s[0] then s
    else if Less(x, s[0]) then [x] + s
    else [s[0]] + Insert(s[1..], x)
  }

  lemma {:induction false} InsertSorted(s: seq<string>, x: string)
    requires Sorted(s)
    ensures Sorted(Insert(s, x))
    ensures forall y :: y in Insert(s, x) <==> y == x || y in s
  {
    if s != [] {
      if x == s[0] {
      } else if Less(x, s[0]) {
        forall i | 0 < i < |s| ensures Less(x, s[i]) {
          LessTransitive(x, s[0], s[i]);
        }
      } else {
        LessTotal(x, s[0]);
        InsertSorted(s[1..], x);
        var rest := Insert(s[1..], x);
        forall i | 0 <= i < |rest| ensures Less(s[0], rest[i]) {
          assert rest[i] in rest;
        }
      }
    }
  }

  /** Sorted sequences of the same strings are equal. */
  lemma {:induction false} SortedUnique(s: seq<string>, t: seq<string>)
    requires Sorted(s) && Sorted(t)
    requires forall y :: y in s <==> y in t
    ensures s == t
  {
    assert t == [] || t[0] in t;
    if s == [] {
    } else {
      assert s[0] in t;
      SortedHead(s, t[0]);
      SortedHead(t, s[0]);
      if s[0] != t[0] {
        LessTransitive(s[0], t[0], s[0]);
        LessIrreflexive(s[0]);
      }
      LessIrreflexive(s[0]);
      forall y ensures y in s[1..] <==> y in t[1..] {
        assert y in s <==> y == s[0] || y in s[1..];
        assert y in t <==> y == t[0] || y in t[1..];
      }
      SortedUnique(s[1..], t[1..]);
    }
  }

  lemma SortedHead(s: seq<string>, y: string)
    requires Sorted(s) && y in s
    ensures y == s[0] || Less(s[0], y)
  {}
}
