/**
 How the pages of the heap are shared out: each is free, owned by one slab allocator, in the pool
 of the general allocator, or on its way between them; and each chunk of the general pool is free
 or in one live block.
 */
module PageAccounts {
  import opened FreeExtents
  import opened ExtentAllocation
  import opened Alignment
  import opened Buckets

  const CHUNKS_PER_PAGE: nat := 64

  // ---- Pages

  /** The heap is made up of the four disjoint sets of pages. */
  ghost predicate PageSplit(heap: set<nat>, free: set<nat>, slab: set<nat>, general: set<nat>, moving: set<nat>) {
    && free + slab + general + moving == heap
    && free !! slab && free !! general && free !! moving
    && slab !! general && slab !! moving && general !! moving
  }

  /** The pages that the bitmap and the page headers assign to slab allocator i. */
  ghost function PagesOf(isSlab: set<nat>, allocator: map<nat, nat>, i: nat): set<nat> {
    set q | q in isSlab && q in allocator && allocator[q] == i
  }

  /** Every slab page belongs to one of n slab allocators. */
  ghost predicate Assigned(isSlab: set<nat>, allocator: map<nat, nat>, n: nat) {
    forall q | q in isSlab :: q in allocator && allocator[q] < n
  }

  lemma AssignPage(isSlab: set<nat>, allocator: map<nat, nat>, n: nat, i: nat, page: nat)
    requires Assigned(isSlab, allocator, n) && i < n && page !in isSlab
    ensures Assigned(isSlab + {page}, allocator[page := i], n)
    ensures PagesOf(isSlab + {page}, allocator[page := i], i) == PagesOf(isSlab, allocator, i) + {page}
    ensures forall j: nat | j != i :: PagesOf(isSlab + {page}, allocator[page := i], j) == PagesOf(isSlab, allocator, j)
  {
  }

  lemma UnassignPages(isSlab: set<nat>, allocator: map<nat, nat>, n: nat, i: nat, back: set<nat>)
    requires Assigned(isSlab, allocator, n) && back <= PagesOf(isSlab, allocator, i)
    ensures Assigned(isSlab - back, allocator, n)
    ensures PagesOf(isSlab - back, allocator, i) == PagesOf(isSlab, allocator, i) - back
    ensures forall j: nat | j != i :: PagesOf(isSlab - back, allocator, j) == PagesOf(isSlab, allocator, j)
  {
  }

  // ---- Chunks of the general pool

  function PageAt(c: nat): nat {
    c / CHUNKS_PER_PAGE
  }

  function PageChunks(page: nat): (s: set<nat>)
    ensures forall c: nat :: c in s <==> PageAt(c) == page
  {
    set c | page * CHUNKS_PER_PAGE <= c < page * CHUNKS_PER_PAGE + CHUNKS_PER_PAGE && PageAt(c) == page
  }

  /** The chunks in a set of pages. */
  ghost function Chunks(pages: set<nat>): (s: set<nat>)
    ensures forall c: nat :: c in s <==> PageAt(c) in pages
  {
    var s := set p, c | p in pages && c in PageChunks(p) :: c;
    assert forall c: nat :: c in PageChunks(PageAt(c));
    s
  }

  lemma ChunksOfRun(page: nat, n: nat)
    ensures Chunks(Span(page, n)) == Span(page * CHUNKS_PER_PAGE, n * CHUNKS_PER_PAGE)
  {
  }

  lemma ChunksOfParts(a: set<nat>, b: set<nat>)
    ensures Chunks(a + b) == Chunks(a) + Chunks(b)
    ensures Chunks(a - b) == Chunks(a) - Chunks(b)
    ensures a !! b ==> Chunks(a) !! Chunks(b)
  {
  }

  lemma ChunksInside(a: set<nat>, b: set<nat>)
    requires Chunks(a) <= Chunks(b)
    ensures a <= b
  {
    forall p | p in a
      ensures p in b
    {
      var c := p * CHUNKS_PER_PAGE;
      assert PageAt(c) == p;
      assert c in Chunks(a);
    }
  }

  /** Live blocks are nonempty and do not overlap; they may touch. */
  ghost predicate Apart(b: Extents) {
    && (forall r | r in b :: 0 < r && 0 < b[r])
    && (forall x, y | x in b && y in b && x < y :: x + b[x] <= y)
  }

  lemma AddBlock(b: Extents, r: nat, n: nat)
    requires Apart(b) && 0 < r && 0 < n && Span(r, n) !! Covered(b)
    ensures r !in b && Apart(b[r := n])
    ensures Covered(b[r := n]) == Covered(b) + Span(r, n)
  {
    var f := b[r := n];
    forall x | x in b
      ensures x + b[x] <= r || r + n <= x
    {
      var c := if x < r then r else x;
      CoveredByOwner(b, c);
      assert Within(c, r, n) ==> c in Span(r, n);
    }
    forall c
      ensures c in Covered(f) <==> c in Covered(b) + Span(r, n)
    {
      CoveredByOwner(b, c);
      CoveredByOwner(f, c);
      if c in Covered(b) {
        var t := OwnerOf(b, c);
        assert t in f && Within(c, t, f[t]);
      }
      if c in Span(r, n) {
        assert r in f && Within(c, r, f[r]);
      }
    }
  }

  lemma DropBlock(b: Extents, r: nat)
    requires Apart(b) && r in b
    ensures Apart(b - {r}) && Span(r, b[r]) <= Covered(b)
    ensures Covered(b - {r}) == Covered(b) - Span(r, b[r])
  {
    CoversSpan(b, r);
    var f := b - {r};
    forall c
      ensures c in Covered(f) <==> c in Covered(b) - Span(r, b[r])
    {
      CoveredByOwner(b, c);
      CoveredByOwner(f, c);
      if c in Covered(b) - Span(r, b[r]) {
        var t := OwnerOf(b, c);
        assert t in f;
      }
    }
  }

  /** The chunks of the general pool are the free ones and those of the live blocks. */
  ghost predicate GeneralSplit(pages: set<nat>, free: set<nat>, blocks: Extents) {
    && Apart(blocks)
    && free !! Covered(blocks)
    && free + Covered(blocks) == Chunks(pages)
  }

  lemma TakeBlock(pages: set<nat>, free: set<nat>, blocks: Extents, r: nat, n: nat)
    requires GeneralSplit(pages, free, blocks) && 0 < r && 0 < n && Span(r, n) <= free
    ensures r !in blocks && GeneralSplit(pages, free - Span(r, n), blocks[r := n])
  {
    hide Span, Covered, Chunks, Apart;
    AddBlock(blocks, r, n);
  }

  lemma ReleaseBlock(pages: set<nat>, free: set<nat>, blocks: Extents, r: nat)
    requires GeneralSplit(pages, free, blocks) && r in blocks
    ensures Span(r, blocks[r]) !! free && GeneralSplit(pages, free + Span(r, blocks[r]), blocks - {r})
  {
    hide Span, Covered, Chunks, Apart;
    DropBlock(blocks, r);
  }

  lemma GrowPool(pages: set<nat>, free: set<nat>, blocks: Extents, page: nat, n: nat)
    requires GeneralSplit(pages, free, blocks) && Span(page, n) !! pages
    ensures Span(page * CHUNKS_PER_PAGE, n * CHUNKS_PER_PAGE) !! free
    ensures GeneralSplit(pages + Span(page, n), free + Span(page * CHUNKS_PER_PAGE, n * CHUNKS_PER_PAGE), blocks)
  {
    hide Span, Covered, Chunks, Apart;
    ChunksOfRun(page, n);
    ChunksOfParts(pages, Span(page, n));
  }

  lemma ShrinkPool(pages: set<nat>, free: set<nat>, blocks: Extents, back: set<nat>, left: set<nat>)
    requires GeneralSplit(pages, free, blocks)
    requires Chunks(back) !! left && Chunks(back) + left == free
    ensures back <= pages && GeneralSplit(pages - back, left, blocks)
  {
    hide Span, Covered, Chunks, Apart;
    ChunksInside(back, pages);
    ChunksOfParts(pages, back);
  }

  // ---- Pages handed back by the general allocator

  ghost function RegionPages(rs: seq<Region>): set<nat> {
    if rs == [] then {}
    else RegionPages(rs[..|rs| - 1]) + Span(rs[|rs| - 1].start / CHUNKS_PER_PAGE, rs[|rs| - 1].size / CHUNKS_PER_PAGE)
  }

  lemma WholePagesOf(x: Region)
    requires WholePageRegion(x, CHUNKS_PER_PAGE)
    ensures x.start / CHUNKS_PER_PAGE * CHUNKS_PER_PAGE == x.start
    ensures 0 < x.size / CHUNKS_PER_PAGE && x.size / CHUNKS_PER_PAGE * CHUNKS_PER_PAGE == x.size
    ensures Chunks(Span(x.start / CHUNKS_PER_PAGE, x.size / CHUNKS_PER_PAGE)) == Span(x.start, x.size)
  {
    var i: nat :| Multiple(i, CHUNKS_PER_PAGE, x.start);
    var j: nat :| Multiple(j, CHUNKS_PER_PAGE, x.size);
    ChunksOfRun(x.start / CHUNKS_PER_PAGE, x.size / CHUNKS_PER_PAGE);
  }

  lemma {:induction false} ChunksOfRegions(rs: seq<Region>)
    requires forall i | 0 <= i < |rs| :: WholePageRegion(rs[i], CHUNKS_PER_PAGE)
    ensures Chunks(RegionPages(rs)) == RegionChunks(rs)
  {
    hide WholePageRegion, Span, Chunks;
    if rs == [] {
      NoPages();
    } else {
      var last := rs[|rs| - 1];
      ChunksOfRegions(rs[..|rs| - 1]);
      WholePagesOf(last);
      ChunksOfParts(RegionPages(rs[..|rs| - 1]), Span(last.start / CHUNKS_PER_PAGE, last.size / CHUNKS_PER_PAGE));
    }
  }

  lemma NoPages()
    ensures Chunks({}) == {}
  {
  }

  /** The next region's pages are not among those of the regions before it. */
  lemma NextRegion(rs: seq<Region>, k: nat, before: set<nat>, now: set<nat>)
    requires Reclaimed(rs, CHUNKS_PER_PAGE, before, now) && k < |rs|
    ensures Span(rs[k].start / CHUNKS_PER_PAGE, rs[k].size / CHUNKS_PER_PAGE) !! RegionPages(rs[..k])
    ensures RegionPages(rs[..k + 1])
         == RegionPages(rs[..k]) + Span(rs[k].start / CHUNKS_PER_PAGE, rs[k].size / CHUNKS_PER_PAGE)
    ensures WholePageRegion(rs[k], CHUNKS_PER_PAGE)
  {
    hide WholePageRegion, Span, Chunks;
    assert rs[..k + 1][..k] == rs[..k];
    SeparateRegions(rs[..k], rs[k]);
    WholePagesOf(rs[k]);
    ChunksOfRegions(rs[..k]);
    DisjointPages(Span(rs[k].start / CHUNKS_PER_PAGE, rs[k].size / CHUNKS_PER_PAGE), RegionPages(rs[..k]));
  }

  lemma SeparateRegions(rs: seq<Region>, x: Region)
    requires forall i | 0 <= i < |rs| :: Span(rs[i].start, rs[i].size) !! Span(x.start, x.size)
    ensures RegionChunks(rs) !! Span(x.start, x.size)
  {
    hide Span;
  }

  lemma DisjointPages(a: set<nat>, b: set<nat>)
    requires Chunks(a) !! Chunks(b)
    ensures a !! b
  {
    forall p | p in a
      ensures p !in b
    {
      var c := p * CHUNKS_PER_PAGE;
      assert PageAt(c) == p;
      assert c in Chunks(a);
    }
  }

  lemma AllPagesBefore(rs: seq<Region>, k: nat)
    requires k <= |rs|
    ensures RegionPages(rs[..k]) <= RegionPages(rs)
  {
    hide Span;
    if k < |rs| {
      AllPagesBefore(rs[..|rs| - 1], k);
      assert rs[..|rs| - 1][..k] == rs[..k];
    } else {
      assert rs[..k] == rs;
    }
  }

  lemma ReclaimMakesProgress(rs: seq<Region>, before: set<nat>, now: set<nat>)
    requires Reclaimed(rs, CHUNKS_PER_PAGE, before, now) && rs != []
    ensures |now| < |before|
  {
    var c := rs[0].start;
    assert WholePageRegion(rs[0], CHUNKS_PER_PAGE);
    RegionInChunks(rs, 0);
    assert c in RegionChunks(rs);
    ProperSubset(now, before, c);
  }

  /** Nothing is handed back when no free extent holds a whole page. */
  lemma NothingToReclaim(rs: seq<Region>, e: Extents, now: set<nat>)
    requires Separated(e) && Reclaimed(rs, CHUNKS_PER_PAGE, Covered(e), now)
    requires forall x | x in e :: !HoldsPage(x, e[x], CHUNKS_PER_PAGE)
    ensures rs == [] && now == Covered(e)
  {
    if rs != [] {
      assert WholePageRegion(rs[0], CHUNKS_PER_PAGE);
      WholePagesOf(rs[0]);
      RegionInChunks(rs, 0);
      var x := RunInsideExtent(e, rs[0].start, rs[0].size);
      assert HoldsPage(x, e[x], CHUNKS_PER_PAGE);
    }
  }
}
