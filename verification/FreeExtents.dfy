/**
 The mathematics of free extents: a map from the first chunk of each free extent to its
 length in chunks, the set of chunks the extents cover, and the two changes the extent
 allocator makes to such a map (adding an extent and removing one).

 Chunks are numbered from 0; chunk 0 is the null pointer and is never part of an extent.
 */
module FreeExtents {

  type Extents = map<nat, nat>

  predicate Within(c: nat, start: nat, n: nat) {
    start <= c < start + n
  }

  /** The chunks start, ..., start+n-1. */
  function Span(start: nat, n: nat): (s: set<nat>)
    ensures forall c: nat :: c in s <==> Within(c, start, n)
  {
    set c | start <= c < start + n && Within(c, start, n)
  }

  /** Extents are nonempty, avoid chunk 0, and never overlap or touch each other. */
  ghost predicate Separated(e: Extents) {
    && (forall r | r in e :: 0 < r && 0 < e[r])
    && (forall a, b | a in e && b in e && a < b :: a + e[a] < b)
  }

  lemma ZeroIsNotFree(e: Extents)
    requires Separated(e)
    ensures 0 !in e
  {
  }

  /** All chunks covered by some extent. */
  function Covered(e: Extents): set<nat> {
    set r, c | r in e && c in Span(r, e[r]) :: c
  }

  /** A maximal run of members of a set. */
  ghost predicate MaximalRun(free: set<nat>, r: nat, n: nat) {
    && 0 < n && Span(r, n) <= free
    && r + n !in free
    && (r == 0 || r - 1 !in free)
  }

  lemma OwnerOf(e: Extents, c: nat) returns (r: nat)
    requires c in Covered(e)
    ensures r in e && Within(c, r, e[r])
  {
    r :| r in e && c in Span(r, e[r]);
  }

  lemma CoveredByOwner(e: Extents, c: nat)
    ensures c in Covered(e) <==> exists r :: r in e && Within(c, r, e[r])
  {
    if r :| r in e && Within(c, r, e[r]) {
      assert c in Span(r, e[r]);
    }
  }

  lemma CoversSpan(e: Extents, r: nat)
    requires r in e
    ensures Span(r, e[r]) <= Covered(e)
  {
  }

  lemma NoChunks(r: nat)
    ensures Span(r, 0) == {}
  {
  }

  lemma SpanSize(r: nat, n: nat)
    ensures |Span(r, n)| == n
  {
    if n == 0 {
      assert Span(r, n) == {};
    } else {
      SpanSize(r, n - 1);
      assert Span(r, n) == Span(r, n - 1) + {r + n - 1};
    }
  }

  /** A run of free chunks lies inside a single extent. */
  lemma RunInsideExtent(e: Extents, x: nat, n: nat) returns (r: nat)
    requires Separated(e)
    requires 0 < n && Span(x, n) <= Covered(e)
    ensures r in e && r <= x && x + n <= r + e[r]
  {
    assert x in Span(x, n);
    r := OwnerOf(e, x);
    var end := r + e[r];
    CoveredByOwner(e, end);
    assert Within(end, x, n) ==> end in Span(x, n);
  }

  /** Separated extents are exactly the maximal runs of the chunks they cover. */
  lemma ExtentsAreMaximalRuns(e: Extents, r: nat, n: nat)
    requires Separated(e)
    ensures r in e && e[r] == n <==> MaximalRun(Covered(e), r, n)
  {
    if r in e && e[r] == n {
      CoversSpan(e, r);
      CoveredByOwner(e, r + n);
      CoveredByOwner(e, r - 1);
    }
    if MaximalRun(Covered(e), r, n) {
      var s := RunInsideExtent(e, r, n);
      var size, before, after := e[s], r - 1, r + n;
      CoversSpan(e, s);
      assert before in Span(s, size) <==> s < r;
      assert s == r;
      assert after in Span(r, size) <==> n < size;
    }
  }

  /** The extents are a canonical function of the chunks they cover. */
  lemma Canonical(e: Extents, f: Extents)
    requires Separated(e) && Separated(f)
    requires Covered(e) == Covered(f)
    ensures e == f
  {
    forall r | r in e
      ensures r in f && f[r] == e[r]
    {
      ExtentsAreMaximalRuns(e, r, e[r]);
      ExtentsAreMaximalRuns(f, r, e[r]);
    }
    forall r | r in f
      ensures r in e
    {
      ExtentsAreMaximalRuns(e, r, f[r]);
      ExtentsAreMaximalRuns(f, r, f[r]);
    }
  }

  // ---- Adding and removing one extent

  lemma RemoveKeepsSeparated(e: Extents, r: nat)
    requires Separated(e)
    ensures Separated(e - {r})
  {
  }

  lemma RemoveExtent(e: Extents, r: nat)
    requires Separated(e) && r in e
    ensures Separated(e - {r})
    ensures Covered(e - {r}) == Covered(e) - Span(r, e[r])
    ensures |Covered(e - {r})| == |Covered(e)| - e[r]
  {
    var f := e - {r};
    forall c
      ensures c in Covered(f) <==> c in Covered(e) - Span(r, e[r])
    {
      CoveredByOwner(e, c);
      CoveredByOwner(f, c);
      if c in Covered(e) - Span(r, e[r]) {
        var t := OwnerOf(e, c);
        assert t in f;
      }
    }
    assert Covered(f) == Covered(e) - Span(r, e[r]);
    CoversSpan(e, r);
    SpanSize(r, e[r]);
  }

  /** A run that neither overlaps nor touches any extent. */
  ghost predicate Isolated(e: Extents, r: nat, n: nat) {
    forall x | x in e :: x + e[x] < r || r + n < x
  }

  lemma IsolatedIsDisjoint(e: Extents, r: nat, n: nat)
    requires Separated(e) && Isolated(e, r, n)
    ensures Covered(e) !! Span(r, n)
  {
    forall c | c in Covered(e)
      ensures c !in Span(r, n)
    {
      var t := OwnerOf(e, c);
    }
  }

  lemma AddedIsNew(e: Extents, r: nat, n: nat)
    requires Separated(e) && Isolated(e, r, n)
    ensures r !in e
  {
  }

  lemma AddKeepsSeparated(e: Extents, r: nat, n: nat)
    requires Separated(e) && 0 < r && 0 < n && Isolated(e, r, n)
    ensures Separated(e[r := n])
  {
  }

  lemma AddExtent(e: Extents, r: nat, n: nat)
    requires Separated(e) && 0 < r && 0 < n && Isolated(e, r, n)
    ensures Separated(e[r := n])
    ensures Covered(e[r := n]) == Covered(e) + Span(r, n)
    ensures |Covered(e[r := n])| == |Covered(e)| + n
  {
    hide Covered, Isolated, Span;
    AddKeepsSeparated(e, r, n);
    AddedIsNew(e, r, n);
    var f := e[r := n];
    assert f - {r} == e;
    hide Separated;
    RemoveExtent(f, r);
    CoversSpan(f, r);
    IsolatedIsDisjoint(e, r, n);
  }

  // ---- Releasing a run of chunks, merging with both neighbours

  /** No extent overlaps the run or starts where it ends; one may still end where it starts. */
  ghost predicate ClearOnRight(e: Extents, r: nat, n: nat) {
    forall x | x in e :: x + e[x] <= r || r + n < x
  }

  lemma DisjointRun(e: Extents, r: nat, n: nat, x: nat)
    requires Separated(e) && 0 < n && Span(r, n) !! Covered(e) && x in e
    ensures x + e[x] <= r || r + n <= x
  {
    var c := if x < r then r else x;
    CoveredByOwner(e, c);
    assert Within(c, r, n) ==> c in Span(r, n);
  }

  lemma DisjointIsClear(e: Extents, r: nat, n: nat)
    requires Separated(e) && 0 < n && Span(r, n) !! Covered(e) && r + n !in e
    ensures ClearOnRight(e, r, n)
  {
    forall x | x in e
      ensures x + e[x] <= r || r + n < x
    {
      DisjointRun(e, r, n, x);
    }
  }

  lemma DisjointIsNew(e: Extents, r: nat, n: nat)
    requires Separated(e) && 0 < n && Span(r, n) !! Covered(e)
    ensures r !in e
  {
    if r in e {
      DisjointRun(e, r, n, r);
    }
  }

  lemma JoinedSpans(r: nat, n: nat, m: nat)
    ensures Span(r, n) + Span(r + n, m) == Span(r, n + m)
    ensures Span(r, n) !! Span(r + n, m)
  {
  }

  lemma ClearPastRight(e: Extents, r: nat, n: nat)
    requires Separated(e) && 0 < n && Span(r, n) !! Covered(e) && r + n in e
    ensures ClearOnRight(e - {r + n}, r, n + e[r + n])
  {
    forall x | x in e - {r + n}
      ensures x + e[x] <= r || r + n + e[r + n] < x
    {
      DisjointRun(e, r, n, x);
    }
  }

  /** Joining a run with the extent that starts where the run ends. */
  lemma MergeRight(e: Extents, r: nat, n: nat)
    requires Separated(e) && 0 < n && Span(r, n) !! Covered(e) && r + n in e
    ensures ClearOnRight(e - {r + n}, r, n + e[r + n])
    ensures Covered(e - {r + n}) + Span(r, n + e[r + n]) == Covered(e) + Span(r, n)
    ensures |Covered(e - {r + n})| + e[r + n] == |Covered(e)|
  {
    hide Covered, Span, Separated, ClearOnRight;
    ClearPastRight(e, r, n);
    RemoveExtent(e, r + n);
    CoversSpan(e, r + n);
    JoinedSpans(r, n, e[r + n]);
  }

  /** Joining a run with the extent that ends where the run starts. */
  lemma MergeLeft(e: Extents, l: nat, r: nat, n: nat)
    requires Separated(e) && ClearOnRight(e, r, n) && 0 < n
    requires l in e && l + e[l] == r
    ensures 0 < l && Isolated(e - {l}, l, n + e[l])
    ensures Covered(e - {l}) + Span(l, n + e[l]) == Covered(e) + Span(r, n)
    ensures |Covered(e - {l})| + e[l] == |Covered(e)|
  {
    hide Covered, Span;
    RemoveExtent(e, l);
    CoversSpan(e, l);
    JoinedSpans(l, e[l], n);
  }

  lemma NoMergeLeft(e: Extents, r: nat, n: nat)
    requires Separated(e) && ClearOnRight(e, r, n)
    requires forall x | x in e :: x + e[x] != r
    ensures Isolated(e, r, n)
  {
  }

  // ---- Taking a block from the front of an extent

  lemma SplitExtent(e: Extents, r: nat, n: nat)
    requires Separated(e) && r in e && n <= e[r]
    ensures Span(r + n, e[r] - n) !! Covered(e - {r})
    ensures Covered(e - {r}) + Span(r + n, e[r] - n) == Covered(e) - Span(r, n)
    ensures Span(r, n) <= Covered(e)
  {
    hide Covered, Separated;
    RemoveExtent(e, r);
    CoversSpan(e, r);
    JoinedSpans(r, n, e[r] - n);
  }

  /** When every extent is shorter than n, no n consecutive chunks are free. */
  lemma NoRun(e: Extents, n: nat)
    requires Separated(e) && 0 < n
    requires forall x | x in e :: e[x] < n
    ensures forall x :: !(Span(x, n) <= Covered(e))
  {
    forall x
      ensures !(Span(x, n) <= Covered(e))
    {
      if Span(x, n) <= Covered(e) {
        var r := RunInsideExtent(e, x, n);
      }
    }
  }

  /** Chunks r.. come from the front of an extent that is a smallest one of at least n chunks, if below the limit. */
  ghost predicate TakenFromBest(e: Extents, r: nat, n: nat, limit: nat) {
    && r in e && n <= e[r]
    && (e[r] < limit ==> forall x | x in e && n <= e[x] :: e[r] <= e[x])
  }

  lemma BestIsFree(e: Extents, r: nat, n: nat, limit: nat)
    requires Separated(e) && 0 < n && TakenFromBest(e, r, n, limit)
    ensures 0 < r && Span(r, n) <= Covered(e)
  {
    hide Covered, Span;
    SplitExtent(e, r, n);
  }

  /** Taking a block and releasing it again restores the extents. */
  lemma TakeThenRelease(before: Extents, between: Extents, after: Extents, r: nat, n: nat)
    requires Separated(before) && Separated(between) && Separated(after)
    requires Span(r, n) <= Covered(before)
    requires Covered(between) == Covered(before) - Span(r, n)
    requires Covered(after) == Covered(between) + Span(r, n)
    ensures after == before
  {
    Canonical(after, before);
  }

  // ---- Cutting the middle out of an extent

  /** The extents with one more, unless that one would be empty. */
  ghost function WithExtent(e: Extents, r: nat, n: nat): Extents {
    if n == 0 then e else e[r := n]
  }

  lemma AddOptionalExtent(e: Extents, r: nat, n: nat)
    requires Separated(e) && 0 < r && (n == 0 || Isolated(e, r, n))
    ensures Separated(WithExtent(e, r, n))
    ensures Covered(WithExtent(e, r, n)) == Covered(e) + Span(r, n)
  {
    hide Covered, Span, Isolated, Separated;
    if n == 0 {
      NoChunks(r);
    } else {
      AddExtent(e, r, n);
    }
  }

  lemma AddTwoOptional(e: Extents, r: nat, m: nat, s: nat, n: nat)
    requires Separated(e) && 0 < r && 0 < s
    requires m == 0 || Isolated(e, r, m)
    requires n == 0 || Isolated(WithExtent(e, r, m), s, n)
    ensures Separated(WithExtent(WithExtent(e, r, m), s, n))
    ensures Covered(WithExtent(WithExtent(e, r, m), s, n)) == Covered(e) + Span(r, m) + Span(s, n)
  {
    hide Covered, Span, Isolated, Separated, WithExtent;
    AddOptionalExtent(e, r, m);
    AddOptionalExtent(WithExtent(e, r, m), s, n);
  }

  /** Extent r of e without the chunks first, ..., last-1 in its middle. */
  ghost function Trimmed(e: Extents, r: nat, first: nat, last: nat): Extents
    requires r in e && r <= first <= last <= r + e[r]
  {
    WithExtent(WithExtent(e - {r}, r, first - r), last, r + e[r] - last)
  }

  lemma TrimmedIsolated(e: Extents, r: nat, first: nat, last: nat)
    requires Separated(e) && r in e && r <= first < last <= r + e[r]
    ensures first == r || Isolated(e - {r}, r, first - r)
    ensures last == r + e[r] || Isolated(WithExtent(e - {r}, r, first - r), last, r + e[r] - last)
  {
  }

  lemma TrimExtent(e: Extents, r: nat, first: nat, last: nat)
    requires Separated(e) && r in e && r <= first < last <= r + e[r]
    ensures Separated(Trimmed(e, r, first, last))
    ensures Covered(Trimmed(e, r, first, last))
         == Covered(e - {r}) + Span(r, first - r) + Span(last, r + e[r] - last)
  {
    hide Covered, Span, Isolated, Separated, WithExtent;
    TrimmedIsolated(e, r, first, last);
    ZeroIsNotFree(e);
    RemoveKeepsSeparated(e, r);
    AddTwoOptional(e - {r}, r, first - r, last, r + e[r] - last);
  }

  lemma TrimmedSpans(r: nat, n: nat, first: nat, last: nat)
    requires r <= first <= last <= r + n
    ensures Span(r, first - r) + Span(first, last - first) + Span(last, r + n - last) == Span(r, n)
    ensures Span(r, first - r) !! Span(first, last - first)
    ensures Span(r, first - r) + Span(first, last - first) !! Span(last, r + n - last)
  {
  }

  /** Releasing the two ends of a removed extent releases all but its middle. */
  lemma TrimmedChunks(e: Extents, r: nat, first: nat, last: nat)
    requires Separated(e) && r in e && r <= first < last <= r + e[r]
    ensures Covered(Trimmed(e, r, first, last)) == Covered(e) - Span(first, last - first)
    ensures Span(first, last - first) <= Covered(e)
    ensures Span(r, first - r) !! Covered(e - {r})
    ensures Span(last, r + e[r] - last) !! Covered(e - {r}) + Span(r, first - r)
  {
    hide Covered, Span, Separated, Trimmed;
    TrimExtent(e, r, first, last);
    RemoveExtent(e, r);
    CoversSpan(e, r);
    TrimmedSpans(r, e[r], first, last);
  }

  lemma TrimmedSize(e: Extents, r: nat, first: nat, last: nat)
    requires Separated(e) && r in e && r <= first < last <= r + e[r]
    ensures |Covered(Trimmed(e, r, first, last))| == |Covered(e)| - (last - first)
  {
    hide Covered, Span, Separated, Trimmed;
    TrimmedChunks(e, r, first, last);
    SpanSize(first, last - first);
  }
}
