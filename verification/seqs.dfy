/** The array operations the core chains together: `filter`, and the
    first-occurrence de-duplication that `[...new Set(xs)]` performs. */
module Seqs {

  /** `s.filter(keep)`: the elements that satisfy `keep`, in their original order. */
  function Filter<T>(s: seq<T>, keep: T -> bool): (r: seq<T>)
    ensures |r| <= |s|
    ensures forall i :: 0 <= i < |r| ==> keep(r[i])
    decreases |s|
  {
    if s == [] then []
    else if keep(s[0]) then [s[0]] + Filter(s[1..], keep)
    else Filter(s[1..], keep)
  }

  /** The survivors of a filter are exactly the elements that satisfy `keep`. */
  lemma {:induction false} FilterMembers<T>(s: seq<T>, keep: T -> bool)
    ensures forall x :: x in Filter(s, keep) ==> x in s && keep(x)
    ensures forall x :: x in s && keep(x) ==> x in Filter(s, keep)
    decreases |s|
  {
    if s != [] {
      FilterMembers(s[1..], keep);
      assert forall x :: x in s <==> x == s[0] || x in s[1..];
    }
  }

  /** Filtering a concatenation filters each part. */
  lemma {:induction false} FilterAppend<T>(a: seq<T>, b: seq<T>, keep: T -> bool)
    ensures Filter(a + b, keep) == Filter(a, keep) + Filter(b, keep)
    decreases |a|
  {
    if a != [] {
      assert (a + b)[0] == a[0] && (a + b)[1..] == a[1..] + b;
      FilterAppend(a[1..], b, keep);
    } else {
      assert a + b == b;
    }
  }

  /** A filter that rejects every element returns nothing. */
  lemma {:induction false} FilterNone<T>(s: seq<T>, keep: T -> bool)
    requires forall i :: 0 <= i < |s| ==> !keep(s[i])
    ensures Filter(s, keep) == []
    decreases |s|
  {
    if |s| > 0 {
      FilterNone(s[1..], keep);
    }
  }

  /** Filtering by a stricter predicate after a looser one is filtering by the stricter one. */
  lemma {:induction false} FilterFilter<T>(s: seq<T>, loose: T -> bool, strict: T -> bool)
    requires forall i :: 0 <= i < |s| && strict(s[i]) ==> loose(s[i])
    ensures Filter(Filter(s, loose), strict) == Filter(s, strict)
    decreases |s|
  {
    if |s| > 0 {
      FilterFilter(s[1..], loose, strict);
      if loose(s[0]) {
        FilterAppend([s[0]], Filter(s[1..], loose), strict);
      }
    }
  }

  /** A filter that keeps every element returns its input. */
  lemma {:induction false} FilterAll<T>(s: seq<T>, keep: T -> bool)
    requires forall x :: x in s ==> keep(x)
    ensures Filter(s, keep) == s
    decreases |s|
  {
    if s != [] {
      assert s[0] in s;
      assert forall x :: x in s[1..] ==> x in s;
      FilterAll(s[1..], keep);
      assert s == [s[0]] + s[1..];
    }
  }

  /** `a` can be obtained from `b` by deleting elements (greedy matching decides it). */
  predicate IsSubsequence<T(==)>(a: seq<T>, b: seq<T>)
    decreases |b|
  {
    if a == [] then true
    else if b == [] then false
    else if a[0] == b[0] then IsSubsequence(a[1..], b[1..])
    else IsSubsequence(a, b[1..])
  }

  /** A filter keeps its survivors in their original relative order. */
  lemma {:induction false} FilterIsSubsequence<T>(s: seq<T>, keep: T -> bool)
    ensures IsSubsequence(Filter(s, keep), s)
    decreases |s|
  {
    if s != [] {
      FilterIsSubsequence(s[1..], keep);
    }
  }

  /** `rel` holds of every pair of elements, taken in sequence order. */
  ghost predicate Pairwise<T>(s: seq<T>, rel: (T, T) -> bool) {
    forall i, j :: 0 <= i < j < |s| ==> rel(s[i], s[j])
  }

  /** A filter preserves every pairwise property (distinctness, an ordering, ...). */
  lemma {:induction false} FilterPairwise<T>(s: seq<T>, keep: T -> bool, rel: (T, T) -> bool)
    requires Pairwise(s, rel)
    ensures Pairwise(Filter(s, keep), rel)
    decreases |s|
  {
    if s != [] {
      var t := s[1..];
      assert Pairwise(t, rel) by {
        forall i, j | 0 <= i < j < |t| ensures rel(t[i], t[j]) {
          assert t[i] == s[i + 1] && t[j] == s[j + 1];
        }
      }
      FilterPairwise(t, keep, rel);
      if keep(s[0]) {
        var r := Filter(s, keep);
        var ft := Filter(t, keep);
        assert r == [s[0]] + ft;
        FilterMembers(t, keep);
        forall i, j | 0 <= i < j < |r| ensures rel(r[i], r[j]) {
          if i == 0 {
            assert r[j] == ft[j - 1] && r[j] in ft;
            var k :| 0 <= k < |t| && t[k] == r[j];
            assert s[k + 1] == r[j];
          } else {
            assert r[i] == ft[i - 1] && r[j] == ft[j - 1];
          }
        }
      }
    }
  }

  /** The position of the first occurrence of `x` in `s` (`s.indexOf(x)` when present). */
  function FirstIndex<T(==)>(s: seq<T>, x: T): (i: nat)
    requires x in s
    ensures i < |s| && s[i] == x
    ensures forall k :: 0 <= k < i ==> s[k] != x
    decreases |s|
  {
    if s[0] == x then 0 else 1 + FirstIndex(s[1..], x)
  }

  /** `[...new Set(s)]` after `seen` has already been inserted: the first
      occurrence of each element not in `seen`, in order. */
  function DedupFrom<T(==)>(s: seq<T>, seen: set<T>): seq<T>
    decreases |s|
  {
    if s == [] then []
    else if s[0] in seen then DedupFrom(s[1..], seen)
    else [s[0]] + DedupFrom(s[1..], seen + {s[0]})
  }

  /** `[...new Set(s)]` */
  function Dedup<T(==)>(s: seq<T>): seq<T> {
    DedupFrom(s, {})
  }

  /** `DedupFrom` yields each new element once, in order of first occurrence. */
  lemma {:induction false} DedupFromSpec<T>(s: seq<T>, seen: set<T>)
    ensures forall x :: x in DedupFrom(s, seen) <==> x in s && x !in seen
    ensures forall i, j :: 0 <= i < j < |DedupFrom(s, seen)| ==>
              DedupFrom(s, seen)[i] != DedupFrom(s, seen)[j]
    ensures forall i, j :: 0 <= i < j < |DedupFrom(s, seen)| ==>
              FirstIndex(s, DedupFrom(s, seen)[i]) < FirstIndex(s, DedupFrom(s, seen)[j])
    decreases |s|
  {
    if s != [] {
      var t := s[1..];
      var r := DedupFrom(s, seen);
      if s[0] in seen {
        DedupFromSpec(t, seen);
        forall x | x in r ensures FirstIndex(s, x) == 1 + FirstIndex(t, x) {
          assert x != s[0];
        }
      } else {
        var rest := DedupFrom(t, seen + {s[0]});
        DedupFromSpec(t, seen + {s[0]});
        assert r == [s[0]] + rest;
        forall x | x in rest ensures FirstIndex(s, x) == 1 + FirstIndex(t, x) {
          assert x != s[0];
        }
        forall i, j | 0 <= i < j < |r|
          ensures r[i] != r[j] && FirstIndex(s, r[i]) < FirstIndex(s, r[j])
        {
          assert r[j] == rest[j - 1] && r[j] in rest;
          if i > 0 {
            assert r[i] == rest[i - 1] && r[i] in rest;
          }
        }
      }
    }
  }

  /** `[...new Set(s)]` holds every element of `s` once, in order of first occurrence. */
  lemma DedupSpec<T>(s: seq<T>)
    ensures forall x :: x in Dedup(s) <==> x in s
    ensures forall i, j :: 0 <= i < j < |Dedup(s)| ==> Dedup(s)[i] != Dedup(s)[j]
    ensures forall i, j :: 0 <= i < j < |Dedup(s)| ==> FirstIndex(s, Dedup(s)[i]) < FirstIndex(s, Dedup(s)[j])
  {
    DedupFromSpec(s, {});
  }
}
