/**
 The memory manager on the bare machine: small blocks come from the slab allocators, larger ones
 from the general allocator, and both get their pages from the page allocator. Block addresses
 are in bytes.
 */
module MemoryManagement {
  import opened Alignment
  import opened Buckets
  import opened ExtentAllocation
  import opened FreeExtents
  import opened PageAccounts
  import opened SlabAllocation

  const GEN_ALLOC_GRANULARITY: nat := 64
  const GEN_ALLOC_CHUNK_SIZE: nat := 65536
  const SLAB_GRANULARITY: nat := 16
  const SLAB_ALLOC_LARGE_OBJ_THRESH: nat := 1024
  const SLAB_ALLOC_SLOT_COUNT: nat := 64
  const RECLAIM_REGIONS: nat := 1024
  const PAGE_RETRY_COUNT: nat := 64
  const ADDRESSABLE_PAGES: nat := 0x10_0000_0000_0000

  function SlabObjectSize(slot: nat): nat {
    (slot + 1) * SLAB_GRANULARITY
  }

  /** The size word and its padding lie in front of a block from the general allocator. */
  const HIDDEN_BYTES: nat := 16

  function UserAddress(r: nat): nat {
    r * GEN_ALLOC_GRANULARITY + HIDDEN_BYTES
  }

  /** The size words tell how many chunks the live blocks have. */
  ghost predicate Sized(blocks: Extents, sizeWord: map<nat, nat>) {
    forall r | r in blocks :: r in sizeWord && UnitsFor(sizeWord[r], GEN_ALLOC_GRANULARITY) == blocks[r]
  }

  /** The heap avoids page 0 and lies inside the page pool. */
  ghost predicate Located(heap: set<nat>, base: nat, count: nat) {
    && base + count < ADDRESSABLE_PAGES
    && forall q | q in heap :: 0 < q && base <= q < base + count
  }

  lemma SlabHandsBack(heap: set<nat>, free: set<nat>, slab: set<nat>, general: set<nat>, moving: set<nat>,
                      was: set<nat>, now: set<nat>, slabNow: set<nat>, freeNow: set<nat>)
    requires PageSplit(heap, free, slab, general, moving) && was <= slab
    requires HandedBack(was, now, slab, slabNow, free, freeNow)
    ensures PageSplit(heap, freeNow, slabNow, general, moving)
  {
  }

  lemma StillOwned(isSlab: set<nat>, slabNow: set<nat>, allocator: map<nat, nat>, i: nat,
                   was: set<nat>, now: set<nat>, free: set<nat>, freeNow: set<nat>)
    requires Assigned(isSlab, allocator, SLAB_ALLOC_SLOT_COUNT) && was == PagesOf(isSlab, allocator, i)
    requires HandedBack(was, now, isSlab, slabNow, free, freeNow)
    ensures Assigned(slabNow, allocator, SLAB_ALLOC_SLOT_COUNT)
    ensures now == PagesOf(slabNow, allocator, i)
    ensures forall j: nat | j != i :: PagesOf(slabNow, allocator, j) == PagesOf(isSlab, allocator, j)
  {
    hide PagesOf, Assigned;
    UnassignPages(isSlab, allocator, SLAB_ALLOC_SLOT_COUNT, i, was - now);
  }

  lemma MovePagesOut(heap: set<nat>, free: set<nat>, slab: set<nat>, general: set<nat>, run: set<nat>)
    requires PageSplit(heap, free, slab, general, {}) && run <= free
    ensures PageSplit(heap, free - run, slab, general, run)
  {
  }

  lemma MovePagesBack(heap: set<nat>, free: set<nat>, slab: set<nat>, general: set<nat>, moving: set<nat>, run: set<nat>)
    requires PageSplit(heap, free, slab, general, moving) && run <= moving
    ensures run !! free && PageSplit(heap, free + run, slab, general, moving - run)
  {
  }

  lemma MovePagesToPool(heap: set<nat>, free: set<nat>, slab: set<nat>, general: set<nat>, run: set<nat>)
    requires PageSplit(heap, free, slab, general, run)
    ensures run !! general && run !! slab && PageSplit(heap, free, slab, general + run, {})
    ensures PageSplit(heap, free, slab + run, general, {})
  {
  }

  lemma MovePagesFromPool(heap: set<nat>, free: set<nat>, slab: set<nat>, general: set<nat>, run: set<nat>)
    requires PageSplit(heap, free, slab, general, {}) && run <= general
    ensures PageSplit(heap, free, slab, general - run, run)
  {
  }

  lemma FirstOfRun(page: nat, n: nat)
    requires 0 < n
    ensures page in Span(page, n)
  {
  }

  class MemoryManager {
    const pages: PageMap
    const pagealloc: ExtentAllocator
    const genalloc: ExtentAllocator
    const slabs: seq<SlabAllocator>
    const poolBase: nat  // the pages covered by the page bitmap
    const poolPages: nat
    var sizeWord: map<nat, nat>  // the word at the start of each block of the general pool
    ghost const heap: set<nat>   // the pages being managed
    ghost var genPages: set<nat> // the pages of the general pool
    ghost var blocks: Extents    // the live blocks of the general pool

    ghost predicate Fixed() {
      && |slabs| == SLAB_ALLOC_SLOT_COUNT
      && (forall i, j | 0 <= i < j < |slabs| :: slabs[i] != slabs[j])
      && (forall i | 0 <= i < |slabs| :: slabs[i].index == i && slabs[i].objectSize == SlabObjectSize(i))
      && pagealloc != genalloc
      && pagealloc.chunkBytes == PAGE_SIZE && genalloc.chunkBytes == GEN_ALLOC_GRANULARITY
      && CHUNKS_PER_PAGE <= genalloc.sizeSlots
      && Located(heap, poolBase, poolPages)
    }

    /** Slab allocator i is valid and owns the pages that are assigned to it. */
    ghost predicate SlabOwns(i: nat)
      requires i < |slabs|
      reads pages, slabs
    {
      slabs[i].Valid() && slabs[i].Pages() == PagesOf(pages.isSlab, pages.allocator, i)
    }

    ghost predicate SlabsOwn()
      reads pages, slabs
    {
      && Assigned(pages.isSlab, pages.allocator, SLAB_ALLOC_SLOT_COUNT)
      && forall i: nat {:trigger SlabOwns(i)} | i < |slabs| :: SlabOwns(i)
    }

    ghost predicate PoolValid()
      reads this, genalloc
    {
      && genalloc.Valid()
      && GeneralSplit(genPages, genalloc.FreeChunks(), blocks)
      && Sized(blocks, sizeWord)
    }

    /** Everything is in order but for some pages on their way between allocators. */
    ghost predicate ValidBut(moving: set<nat>)
      reads this, pages, pagealloc, genalloc, slabs
    {
      && Fixed() && SlabsOwn() && PoolValid() && pagealloc.Valid()
      && PageSplit(heap, pagealloc.FreeChunks(), pages.isSlab, genPages, moving)
    }

    ghost predicate Valid()
      reads this, pages, pagealloc, genalloc, slabs
    {
      ValidBut({})
    }

    /** Sets up the allocators and gives the page allocator its heap of n pages. */
    constructor (first: nat, n: nat, poolBase: nat, poolPages: nat)
      requires 0 < first && poolBase <= first && first + n <= poolBase + poolPages < ADDRESSABLE_PAGES
      ensures Valid() && heap == Span(first, n) && pagealloc.FreeChunks() == heap
      ensures blocks == map[] && forall i | 0 <= i < |slabs| :: slabs[i].live == {}
      ensures fresh(pages) && fresh(pagealloc) && fresh(genalloc) && forall i | 0 <= i < |slabs| :: fresh(slabs[i])
    {
      hide Covered, Chunks, Span, SlabAllocator.Valid, SlabAllocator.Pages, ExtentAllocator.Valid;
      hide ExtentAllocator.FreeChunks, GeneralSplit;
      var pageMap := new PageMap();
      var pageAllocator := NewHeap(first, n);
      var generalAllocator := new ExtentAllocator(GEN_ALLOC_GRANULARITY, 4096, 2048);
      var table := NewSlabs();
      pages, pagealloc, genalloc, slabs := pageMap, pageAllocator, generalAllocator, table;
      this.poolBase, this.poolPages := poolBase, poolPages;
      sizeWord := map[];
      heap, genPages, blocks := Span(first, n), {}, map[];
      new;
      NothingLive();
    }

    static method NewHeap(first: nat, n: nat) returns (pagealloc: ExtentAllocator)
      requires 0 < first
      ensures fresh(pagealloc) && pagealloc.Valid() && pagealloc.chunkBytes == PAGE_SIZE
      ensures pagealloc.FreeChunks() == Span(first, n)
    {
      hide Span, ExtentAllocator.Valid, ExtentAllocator.FreeChunks;
      pagealloc := new ExtentAllocator(PAGE_SIZE, 512, 512);
      PageBytes(n);
      pagealloc.Free(first, n * PAGE_SIZE);
    }

    static lemma PageBytes(n: nat)
      ensures UnitsFor(n * PAGE_SIZE, PAGE_SIZE) == n && n * PAGE_SIZE % PAGE_SIZE == 0
    {
    }

    static method NewSlabs() returns (table: seq<SlabAllocator>)
      ensures |table| == SLAB_ALLOC_SLOT_COUNT
      ensures forall i | 0 <= i < |table| :: fresh(table[i]) && table[i].index == i && table[i].objectSize == SlabObjectSize(i)
      ensures forall i, j | 0 <= i < j < |table| :: table[i] != table[j]
      ensures forall i | 0 <= i < |table| :: table[i].Valid() && table[i].live == {} && table[i].Pages() == {}
    {
      hide SlabAllocator.Valid, SlabAllocator.Pages;
      table := [];
      for i := 0 to SLAB_ALLOC_SLOT_COUNT
        invariant |table| == i
        invariant forall j | 0 <= j < i :: fresh(table[j]) && table[j].index == j && table[j].objectSize == SlabObjectSize(j)
        invariant forall j, k | 0 <= j < k < i :: table[j] != table[k]
        invariant forall j | 0 <= j < i :: table[j].Valid() && table[j].live == {} && table[j].Pages() == {}
      {
        var slab := new SlabAllocator(i, SlabObjectSize(i));
        table := table + [slab];
      }
    }

    static lemma NothingLive()
      ensures GeneralSplit({}, {}, map[])
    {
    }

    lemma Shape(moving: set<nat>)
      requires ValidBut(moving)
      ensures |slabs| == SLAB_ALLOC_SLOT_COUNT && forall i, j | 0 <= i < j < |slabs| :: slabs[i] != slabs[j]
      ensures pagealloc != genalloc && 0 !in moving
      ensures pagealloc.chunkBytes == PAGE_SIZE && genalloc.chunkBytes == GEN_ALLOC_GRANULARITY
    {
      hide SlabsOwn, PoolValid, ExtentAllocator.Valid, ExtentAllocator.FreeChunks;
    }

    lemma OwnedPages(i: nat, moving: set<nat>)
      requires ValidBut(moving) && i < |slabs|
      ensures slabs[i].Valid() && slabs[i].Pages() == PagesOf(pages.isSlab, pages.allocator, i)
      ensures slabs[i].Pages() <= pages.isSlab
      ensures 0 !in slabs[i].Pages() && slabs[i].Pages() !! pagealloc.FreeChunks()
    {
      hide GeneralSplit, Sized, Covered, ExtentAllocator.Valid, SlabAllocator.Valid, SlabAllocator.Pages;
      assert SlabOwns(i);
    }

    /** The live objects of the slab allocators. */
    ghost function Lives(): (s: seq<set<nat>>)
      reads slabs
      ensures |s| == |slabs|
    {
      seq(|slabs|, i requires 0 <= i < |slabs| reads slabs => slabs[i].live)
    }

    /** The slab allocators that have no free object. */
    ghost function Needy(): set<nat>
      reads slabs
    {
      set i: nat | i < |slabs| && slabs[i].NeedsPage()
    }

    /** Returns the pages of slab allocator i that have no live objects. */
    method ReclaimSlab(i: nat, ghost moving: set<nat>)
      requires ValidBut(moving) && i < |slabs|
      modifies pages, pagealloc, slabs[i]
      ensures ValidBut(moving)
      ensures slabs[i].freePageCount <= 0 && slabs[i].live == old(slabs[i].live)
      ensures old(slabs[i].NeedsPage()) ==> slabs[i].NeedsPage()
      ensures old(slabs[i].freePageCount) <= 0 ==> pagealloc.FreeChunks() == old(pagealloc.FreeChunks())
    {
      hide GeneralSplit, Sized, Located, Covered, HandedBack, PageSplit, Assigned, PagesOf;
      hide ExtentAllocator.Valid, ExtentAllocator.FreeChunks, SlabAllocator.Valid, SlabAllocator.Pages;
      OwnedPages(i, moving);
      slabs[i].ValidMeans();
      ghost var isSlab, free, was := pages.isSlab, pagealloc.FreeChunks(), slabs[i].Pages();
      var n := slabs[i].Reclaim(0, pages, pagealloc);
      slabs[i].ValidMeans();
      SlabHandsBack(heap, free, isSlab, genPages, moving, was, slabs[i].Pages(), pages.isSlab, pagealloc.FreeChunks());
      StillOwned(isSlab, pages.isSlab, pages.allocator, i, was, slabs[i].Pages(), free, pagealloc.FreeChunks());
      forall j: nat | j < |slabs|
        ensures SlabOwns(j)
      {
        assert old(SlabOwns(j));
        assert j != i ==> slabs[j] != slabs[i];
      }
    }

    /** Every chunk of the general pool has a representable address. */
    lemma PoolIsAddressable(moving: set<nat>)
      requires ValidBut(moving)
      ensures genalloc.Addressable()
    {
      hide Covered, Chunks, SlabsOwn, ExtentAllocator.Valid, ExtentAllocator.FreeChunks;
      assert genalloc.AddressChunks() == 0x1_0000_0000_0000_0000 / 64;
      forall c | c in genalloc.FreeChunks()
        ensures c + 1 < genalloc.AddressChunks()
      {
        assert c in Chunks(genPages);
        InHeap(c, moving);
      }
    }

    lemma InHeap(c: nat, moving: set<nat>)
      requires ValidBut(moving) && c in Chunks(genPages)
      ensures PageAt(c) in genPages && PageAt(c) < poolBase + poolPages < ADDRESSABLE_PAGES
    {
      hide Covered, SlabsOwn, PoolValid, ExtentAllocator.Valid, ExtentAllocator.FreeChunks;
    }

    /** No free run of the general pool contains a whole page. */
    ghost predicate PoolClean()
      reads genalloc
    {
      forall x | x in genalloc.ext :: !HoldsPage(x, genalloc.ext[x], CHUNKS_PER_PAGE)
    }

    lemma NoRegionsIfClean(e: Extents, n: nat, rs: seq<Region>, now: set<nat>)
      requires Separated(e) && |rs| == n && Reclaimed(rs, CHUNKS_PER_PAGE, Covered(e), now)
      ensures (forall x | x in e :: !HoldsPage(x, e[x], CHUNKS_PER_PAGE)) ==> n == 0
    {
      hide Separated, Covered, Reclaimed, HoldsPage;
      if forall x | x in e :: !HoldsPage(x, e[x], CHUNKS_PER_PAGE) {
        NothingToReclaim(rs, e, now);
      }
    }

    /** No slab allocator keeps a page without live objects. */
    ghost predicate SlabsClean()
      reads slabs
    {
      forall i | 0 <= i < |slabs| :: slabs[i].freePageCount <= 0
    }

    /** Takes whole free pages out of the general pool, leaving them to be handed on. */
    method ReclaimRegions(regions: array<Region>) returns (n: nat)
      requires Valid()
      modifies `genPages, genalloc, regions
      ensures n <= regions.Length
      ensures ValidBut(RegionPages(regions[..n]))
      ensures forall i | 0 <= i < n :: WholePageRegion(regions[i], CHUNKS_PER_PAGE)
      ensures Reclaimed(regions[..n], CHUNKS_PER_PAGE, old(genalloc.FreeChunks()), genalloc.FreeChunks())
      ensures n < regions.Length ==> PoolClean()
      ensures old(PoolClean()) ==> n == 0
    {
      hide Covered, Separated, Chunks, SlabsOwn, GeneralSplit, PageSplit, WholePageRegion, HoldsPage, Located;
      hide ExtentAllocator.Valid, ExtentAllocator.FreeChunks, ExtentAllocator.Addressable;
      PoolIsAddressable({});
      genalloc.CoveredChunks();
      ghost var before := genalloc.FreeChunks();
      n := genalloc.ReclaimUnusedExtents(regions, CHUNKS_PER_PAGE);
      NoRegionsIfClean(old(genalloc.ext), n, regions[..n], genalloc.FreeChunks());
      ghost var back := RegionPages(regions[..n]);
      ChunksOfRegions(regions[..n]);
      ShrinkPool(genPages, before, blocks, back, genalloc.FreeChunks());
      MovePagesFromPool(heap, pagealloc.FreeChunks(), pages.isSlab, genPages, back);
      genPages := genPages - back;
    }

    /** Hands the pages of a region to the page allocator. */
    method ReturnRegion(x: Region, ghost run: set<nat>, ghost moving: set<nat>)
      requires ValidBut(moving) && run <= moving
      requires WholePageRegion(x, CHUNKS_PER_PAGE) && run == Span(x.start / CHUNKS_PER_PAGE, x.size / CHUNKS_PER_PAGE)
      modifies pagealloc
      ensures ValidBut(moving - run)
    {
      hide Covered, Chunks, Span, Fixed, SlabsOwn, PoolValid, PageSplit, WholePageRegion, Located;
      hide ExtentAllocator.Valid, ExtentAllocator.FreeChunks, UnitsFor;
      WholePagesOf(x);
      Shape(moving);
      FirstOfRun(x.start / CHUNKS_PER_PAGE, x.size / CHUNKS_PER_PAGE);
      MovePagesBack(heap, pagealloc.FreeChunks(), pages.isSlab, genPages, moving, run);
      RegionBytes(x.size);
      pagealloc.Free(x.start / CHUNKS_PER_PAGE, x.size * GEN_ALLOC_GRANULARITY);
    }

    /** Hands the pages of the regions to the page allocator, region by region. */
    method ReturnRegions(regions: array<Region>, n: nat, ghost before: set<nat>)
      requires n <= regions.Length && ValidBut(RegionPages(regions[..n]))
      requires Reclaimed(regions[..n], CHUNKS_PER_PAGE, before, genalloc.FreeChunks())
      modifies pagealloc
      ensures Valid()
    {
      hide Covered, Chunks, Span, ValidBut, WholePageRegion, RegionPages, Reclaimed, ExtentAllocator.FreeChunks;
      ghost var rs := regions[..n];
      ghost var all := RegionPages(rs);
      NoRegions(rs);
      Shape(all);
      for i := 0 to n
        invariant regions[..n] == rs
        invariant ValidBut(all - RegionPages(rs[..i]))
      {
        ghost var done := RegionPages(rs[..i]);
        assert rs[i] == regions[i];
        NextRegion(rs, i, before, genalloc.FreeChunks());
        AllPagesBefore(rs, i + 1);
        ghost var run := Span(rs[i].start / CHUNKS_PER_PAGE, rs[i].size / CHUNKS_PER_PAGE);
        ReturnRegion(regions[i], run, all - done);
        assert all - done - run == all - (done + run);
      }
      AllReturned(rs, n);
    }

    static lemma NoRegions(rs: seq<Region>)
      ensures RegionPages(rs[..0]) == {} && RegionPages(rs) - RegionPages(rs[..0]) == RegionPages(rs)
    {
    }

    static lemma AllReturned(rs: seq<Region>, n: nat)
      requires n == |rs|
      ensures RegionPages(rs) - RegionPages(rs[..n]) == {}
    {
      assert rs[..n] == rs;
    }

    static lemma RegionBytes(size: nat)
      requires size / CHUNKS_PER_PAGE * CHUNKS_PER_PAGE == size
      ensures UnitsFor(size * GEN_ALLOC_GRANULARITY, PAGE_SIZE) == size / CHUNKS_PER_PAGE
    {
    }

    /** Returns the pages without live objects of all slab allocators. */
    method CleanSlabs()
      requires Valid()
      modifies pages, pagealloc, slabs
      ensures Valid()
      ensures SlabsClean() && Lives() == old(Lives()) && old(Needy()) <= Needy()
      ensures old(SlabsClean()) ==> pagealloc.FreeChunks() == old(pagealloc.FreeChunks())
    {
      hide ValidBut, SlabAllocator.NeedsPage, ExtentAllocator.FreeChunks;
      Shape({});
      for i := 0 to |slabs|
        invariant Valid()
        invariant Lives() == old(Lives()) && old(Needy()) <= Needy()
        invariant forall j | 0 <= j < i :: slabs[j].freePageCount <= 0
        invariant old(SlabsClean()) ==> pagealloc.FreeChunks() == old(pagealloc.FreeChunks()) && SlabsClean()
      {
        ReclaimSlab(i, {});
      }
    }

    /** Returns the pages of the general pool that hold nothing live, up to RECLAIM_REGIONS runs at a time. */
    method CleanPool()
      requires Valid()
      modifies `genPages, pagealloc, genalloc
      ensures Valid() && PoolClean()
      ensures old(PoolClean()) ==> pagealloc.FreeChunks() == old(pagealloc.FreeChunks())
    {
      hide ValidBut, PoolClean, HoldsPage, RegionPages, Reclaimed, ExtentAllocator.FreeChunks, WholePageRegion;
      Shape({});
      var regions := new Region[RECLAIM_REGIONS](_ => Region(0, 0));
      ghost var before := genalloc.FreeChunks();
      var n: nat := ReclaimRegions(regions);
      while n != 0
        invariant n <= regions.Length && fresh(regions)
        invariant ValidBut(RegionPages(regions[..n]))
        invariant Reclaimed(regions[..n], CHUNKS_PER_PAGE, before, genalloc.FreeChunks())
        invariant n == 0 ==> PoolClean()
        invariant old(PoolClean()) ==> n == 0 && pagealloc.FreeChunks() == old(pagealloc.FreeChunks())
        decreases |before|
      {
        ReclaimMakesProgress(regions[..n], before, genalloc.FreeChunks());
        ReturnRegions(regions, n, before);
        before := genalloc.FreeChunks();
        n := ReclaimRegions(regions);
      }
      assert regions[..0] == [];
      NoRegions([]);
    }

    /**
     Returns all pages that hold nothing live to the page allocator. Afterwards no slab allocator
     keeps a page without live objects and no free run of the general pool contains a whole page.
     */
    method Cleanup()
      requires Valid()
      modifies `genPages, pages, pagealloc, genalloc, slabs
      ensures Valid() && SlabsClean() && PoolClean()
      ensures Lives() == old(Lives()) && old(Needy()) <= Needy()
      ensures old(SlabsClean() && PoolClean()) ==> pagealloc.FreeChunks() == old(pagealloc.FreeChunks())
    {
      hide ValidBut, PoolClean, SlabsClean, ExtentAllocator.FreeChunks;
      Shape({});
      CleanSlabs();
      CleanPool();
    }

    /** Asks the page allocator once; 0 when it has no long enough run of free pages. */
    method TryAllocPages(bytes: nat) returns (page: nat)
      requires Valid() && 0 < bytes
      modifies pagealloc
      ensures page == 0 <==> forall x :: !(Span(x, UnitsFor(bytes, PAGE_SIZE)) <= old(pagealloc.FreeChunks()))
      ensures page == 0 ==> Valid() && pagealloc.FreeChunks() == old(pagealloc.FreeChunks())
      ensures page != 0 ==> ValidBut(Span(page, UnitsFor(bytes, PAGE_SIZE)))
    {
      hide Covered, Chunks, Span, Fixed, SlabsOwn, PoolValid, PageSplit, UnitsFor;
      hide ExtentAllocator.Valid, UnitsFor;
      Shape({});
      ghost var free := pagealloc.FreeChunks();
      page := pagealloc.Alloc(bytes);
      if page != 0 {
        MovePagesOut(heap, free, pages.isSlab, genPages, Span(page, UnitsFor(bytes, PAGE_SIZE)));
      }
    }

    /**
     Asks the page allocator, returning unused pages of the other allocators to it between the
     attempts; 0 when there is no long enough run of free pages even then.
     */
    method AllocPrivatePages(bytes: nat) returns (page: nat)
      requires Valid() && 0 < bytes
      modifies `genPages, pages, pagealloc, genalloc, slabs
      ensures page == 0 ==> Valid() && forall x :: !(Span(x, UnitsFor(bytes, PAGE_SIZE)) <= pagealloc.FreeChunks())
      ensures page != 0 ==> ValidBut(Span(page, UnitsFor(bytes, PAGE_SIZE)))
      ensures Lives() == old(Lives()) && old(Needy()) <= Needy()
    {
      hide ValidBut, PoolClean, SlabsClean, ExtentAllocator.FreeChunks, SlabAllocator.NeedsPage, Span, UnitsFor;
      Shape({});
      for k := 0 to PAGE_RETRY_COUNT
        invariant Valid()
        invariant Lives() == old(Lives()) && old(Needy()) <= Needy()
        invariant 0 < k ==> SlabsClean() && PoolClean()
        invariant 1 < k ==> forall x :: !(Span(x, UnitsFor(bytes, PAGE_SIZE)) <= pagealloc.FreeChunks())
      {
        page := TryAllocPages(bytes);
        if page != 0 {
          return;
        }
        Cleanup();
      }
      return 0;
    }

    /** The bitmap and the page header name the slab allocator that issued an object. */
    lemma ObjectHome(i: nat, a: nat, moving: set<nat>)
      requires ValidBut(moving) && i < |slabs| && a in slabs[i].live
      ensures PageOf(a) in pages.isSlab && PageOf(a) in pages.allocator && pages.allocator[PageOf(a)] == i
      ensures poolBase <= PageOf(a) < poolBase + poolPages && 0 < a
      ensures PageOf(a) !in genPages && PageOf(a) !in pagealloc.FreeChunks()
    {
      hide PoolValid, Objects, SlabAllocator.Valid, SlabAllocator.Pages, ExtentAllocator.Valid;
      hide ExtentAllocator.FreeChunks;
      OwnedPages(i, moving);
      slabs[i].LiveObject(a);
    }

    /** A block of the general pool lies on pages of the pool only. */
    lemma BlockHome(r: nat, c: nat, moving: set<nat>)
      requires ValidBut(moving) && r in blocks && Within(c, r, blocks[r])
      ensures PageAt(c) in genPages && PageAt(c) !in pages.isSlab && PageAt(c) !in pagealloc.FreeChunks()
      ensures c !in genalloc.FreeChunks()
    {
      hide Covered, Chunks, SlabsOwn, Sized, ExtentAllocator.Valid, ExtentAllocator.FreeChunks;
      CoversSpan(blocks, r);
      assert c in Span(r, blocks[r]);
      assert c in Chunks(genPages);
    }

    static ghost function Union(s: seq<set<nat>>): set<nat> {
      set i, a | 0 <= i < |s| && a in s[i] :: a
    }

    ghost function LiveObjects(): set<nat>
      reads slabs
    {
      Union(Lives())
    }

    ghost function LiveBlocks(): set<nat>
      reads this
    {
      set r | r in blocks :: UserAddress(r)
    }

    /** The addresses of all blocks handed out and not yet freed. */
    ghost function Live(): set<nat>
      reads this, slabs
    {
      LiveObjects() + LiveBlocks()
    }

    /** Live block p takes up the bytes from lo to hi. */
    ghost predicate Occupies(p: nat, lo: nat, hi: nat)
      reads this, slabs
    {
      || (exists i :: 0 <= i < |slabs| && p in slabs[i].live && lo == p && hi == p + slabs[i].objectSize)
      || (exists r :: r in blocks && p == UserAddress(r)
            && lo == r * GEN_ALLOC_GRANULARITY && hi == (r + blocks[r]) * GEN_ALLOC_GRANULARITY)
    }

    lemma AddressPage(r: nat)
      ensures PageOf(UserAddress(r)) == PageAt(r)
    {
    }

    lemma FirstChunk(r: nat)
      requires Valid() && r in blocks
      ensures 0 < r && 0 < blocks[r] && Within(r, r, blocks[r])
    {
      hide Covered, Chunks, SlabsOwn, Sized, ExtentAllocator.Valid, ExtentAllocator.FreeChunks;
    }

    /** No address is handed out by two allocators at once. */
    lemma OneIssuer(i: nat, a: nat)
      requires Valid() && i < |slabs| && a in slabs[i].live
      ensures a !in LiveBlocks()
      ensures forall j | 0 <= j < |slabs| && j != i :: a !in slabs[j].live
    {
      hide ValidBut;
      ObjectHome(i, a, {});
      forall j | 0 <= j < |slabs| && j != i
        ensures a !in slabs[j].live
      {
        if a in slabs[j].live {
          ObjectHome(j, a, {});
        }
      }
      forall r | r in blocks
        ensures a != UserAddress(r)
      {
        FirstChunk(r);
        BlockHome(r, r, {});
        AddressPage(r);
      }
    }

    // ---- Allocation

    /** Takes an object from slab allocator i, which may use the given page if it has no free object. */
    method TakeObject(i: nat, page: nat) returns (p: nat)
      requires i < |slabs| && ValidBut(if slabs[i].NeedsPage() then {page} else {})
      modifies pages, slabs[i]
      ensures Valid() && p !in old(slabs[i].live) && slabs[i].live == old(slabs[i].live) + {p}
    {
      hide PoolValid, Located, Covered, PageSplit, Assigned, PagesOf;
      hide ExtentAllocator.Valid, ExtentAllocator.FreeChunks, SlabAllocator.Valid, SlabAllocator.Pages;
      hide SlabAllocator.NeedsPage;
      ghost var moving := if slabs[i].NeedsPage() then {page} else {};
      OwnedPages(i, moving);
      MovePagesToPool(heap, pagealloc.FreeChunks(), pages.isSlab, genPages, moving);
      if slabs[i].NeedsPage() {
        AssignPage(pages.isSlab, pages.allocator, SLAB_ALLOC_SLOT_COUNT, i, page);
      }
      p := slabs[i].Alloc(page, pages);
      forall j: nat | j < |slabs|
        ensures SlabOwns(j)
      {
        assert old(SlabOwns(j));
        assert j != i ==> slabs[j] != slabs[i];
      }
    }

    /** Hands out an object of slab allocator i; 0 when it needs a page and none can be had. */
    method SlabAlloc(i: nat) returns (p: nat)
      requires Valid() && i < |slabs|
      modifies `genPages, pages, pagealloc, genalloc, slabs
      ensures Valid()
      ensures p == 0 ==> Lives() == old(Lives()) && pagealloc.FreeChunks() == {}
      ensures p != 0 ==> p !in old(Lives())[i] && Lives() == old(Lives())[i := old(Lives())[i] + {p}]
    {
      hide ValidBut, ExtentAllocator.FreeChunks, SlabAllocator.NeedsPage, Span, UnitsFor;
      Shape({});
      ghost var needy := slabs[i].NeedsPage();
      assert needy ==> i in Needy();
      var page := 0;
      if slabs[i].NeedsPage() {
        page := AllocPrivatePages(PAGE_SIZE);
        SinglePage(page, pagealloc.FreeChunks());
        if page == 0 {
          return 0;
        }
      }
      assert slabs[i].NeedsPage() == needy;
      assert Lives()[i] == slabs[i].live;
      label Taking:
      p := TakeObject(i, page);
      forall j | 0 <= j < |slabs| && j != i
        ensures Lives()[j] == old@Taking(Lives())[j]
      {
        assert slabs[j] != slabs[i];
      }
      assert Lives()[i] == slabs[i].live;
      ObjectHome(i, p, {});
    }

    static lemma SinglePage(page: nat, free: set<nat>)
      ensures Span(page, UnitsFor(PAGE_SIZE, PAGE_SIZE)) == {page}
      ensures (forall x :: !(Span(x, UnitsFor(PAGE_SIZE, PAGE_SIZE)) <= free)) ==> free == {}
    {
      assert UnitsFor(PAGE_SIZE, PAGE_SIZE) == 1;
      if x :| x in free {
        assert Span(x, 1) == {x};
      }
    }

    /** Takes a block of the given size from the general pool and writes its size word; 0 when there is no long enough free run. */
    method TakeBlockOf(size: nat) returns (r: nat)
      requires Valid() && 0 < size
      modifies `sizeWord, `blocks, genalloc
      ensures Valid()
      ensures r == 0 <==> forall x :: !(Span(x, UnitsFor(size, GEN_ALLOC_GRANULARITY)) <= old(genalloc.FreeChunks()))
      ensures r == 0 ==> blocks == old(blocks) && sizeWord == old(sizeWord)
      ensures r == 0 ==> genalloc.FreeChunks() == old(genalloc.FreeChunks())
      ensures r != 0 ==> r !in old(blocks) && blocks == old(blocks)[r := UnitsFor(size, GEN_ALLOC_GRANULARITY)]
      ensures r != 0 ==> sizeWord == old(sizeWord)[r := size]
    {
      hide Covered, Chunks, Span, Fixed, SlabsOwn, GeneralSplit, PageSplit, UnitsFor, TakenFromBest;
      hide ExtentAllocator.Valid, UnitsFor;
      Shape({});
      NoUnits(size, GEN_ALLOC_GRANULARITY);
      ghost var free := genalloc.FreeChunks();
      r := genalloc.Alloc(size);
      if r != 0 {
        TakeBlock(genPages, free, blocks, r, UnitsFor(size, GEN_ALLOC_GRANULARITY));
        sizeWord := sizeWord[r := size];
        blocks := blocks[r := UnitsFor(size, GEN_ALLOC_GRANULARITY)];
      }
    }

    /** Adds pages just obtained from the page allocator to the general pool. */
    method AddPool(page: nat, bytes: nat)
      requires 0 < page && PageMultiple(bytes) && ValidBut(Span(page, UnitsFor(bytes, PAGE_SIZE)))
      modifies `genPages, genalloc
      ensures Valid() && Span(ChunkAt(page), UnitsFor(bytes, GEN_ALLOC_GRANULARITY)) !! old(genalloc.FreeChunks())
      ensures genalloc.FreeChunks() == old(genalloc.FreeChunks()) + Span(ChunkAt(page), UnitsFor(bytes, GEN_ALLOC_GRANULARITY))
    {
      hide Covered, Chunks, Span, Fixed, SlabsOwn, GeneralSplit, PageSplit, UnitsFor, Sized;
      hide ExtentAllocator.Valid, ExtentAllocator.FreeChunks, PageMultiple, ChunkAt, PoolValid;
      ghost var run := Span(page, UnitsFor(bytes, PAGE_SIZE));
      Shape(run);
      NoUnits(bytes, GEN_ALLOC_GRANULARITY);
      MovePagesToPool(heap, pagealloc.FreeChunks(), pages.isSlab, genPages, run);
      GrowGeneral(page, bytes);
      assert PageSplit(heap, pagealloc.FreeChunks(), pages.isSlab, genPages, {});
    }

    /** Enters the chunks of pages in the general allocator. */
    method GrowGeneral(page: nat, bytes: nat)
      requires 0 < page && PageMultiple(bytes) && PoolValid() && Span(page, UnitsFor(bytes, PAGE_SIZE)) !! genPages
      requires genalloc.chunkBytes == GEN_ALLOC_GRANULARITY
      modifies `genPages, genalloc
      ensures PoolValid() && genPages == old(genPages) + Span(page, UnitsFor(bytes, PAGE_SIZE))
      ensures Span(ChunkAt(page), UnitsFor(bytes, GEN_ALLOC_GRANULARITY)) !! old(genalloc.FreeChunks())
      ensures genalloc.FreeChunks() == old(genalloc.FreeChunks()) + Span(ChunkAt(page), UnitsFor(bytes, GEN_ALLOC_GRANULARITY))
    {
      hide Covered, Chunks, Span, GeneralSplit, UnitsFor, Sized, PageMultiple, ChunkAt;
      hide ExtentAllocator.Valid, ExtentAllocator.FreeChunks;
      GrowPoolBy(genPages, genalloc.FreeChunks(), blocks, page, bytes);
      genalloc.AddToFreePool(ChunkAt(page), bytes);
      genPages := genPages + Span(page, UnitsFor(bytes, PAGE_SIZE));
    }

    /** The first chunk of a page. */
    static function ChunkAt(page: nat): (r: nat)
      ensures 0 < page ==> 0 < r
    {
      page * CHUNKS_PER_PAGE
    }

    static predicate PageMultiple(bytes: nat) {
      bytes % PAGE_SIZE == 0
    }

    static lemma GrowPoolBy(pages: set<nat>, free: set<nat>, blocks: Extents, page: nat, bytes: nat)
      requires GeneralSplit(pages, free, blocks) && Span(page, UnitsFor(bytes, PAGE_SIZE)) !! pages && PageMultiple(bytes)
      ensures Span(ChunkAt(page), UnitsFor(bytes, GEN_ALLOC_GRANULARITY)) !! free
      ensures GeneralSplit(pages + Span(page, UnitsFor(bytes, PAGE_SIZE)), free + Span(ChunkAt(page), UnitsFor(bytes, GEN_ALLOC_GRANULARITY)), blocks)
    {
      hide GeneralSplit, Span, UnitsFor;
      PoolBytes(bytes);
      GrowPool(pages, free, blocks, page, UnitsFor(bytes, PAGE_SIZE));
    }

    static lemma PoolBytes(bytes: nat)
      requires bytes % PAGE_SIZE == 0
      ensures UnitsFor(bytes, PAGE_SIZE) * CHUNKS_PER_PAGE == UnitsFor(bytes, GEN_ALLOC_GRANULARITY)
    {
    }

    static lemma ShorterRun(x: nat, size: nat, bytes: nat, free: set<nat>)
      requires size <= bytes && Span(x, UnitsFor(bytes, GEN_ALLOC_GRANULARITY)) <= free
      ensures Span(x, UnitsFor(size, GEN_ALLOC_GRANULARITY)) <= free
    {
    }

    /** A page allocator with a free extent of at least the reported size can serve that size. */
    lemma LargestFits(bytes: nat)
      requires Valid() && 0 < bytes
      requires pagealloc.ext == map[] ==> bytes == 0
      requires pagealloc.ext != map[] ==>
                 exists x :: x in pagealloc.ext && bytes == pagealloc.Bytes(SizeSlot(pagealloc.ext[x], pagealloc.sizeSlots) + 1)
      ensures bytes % PAGE_SIZE == 0 && exists x :: Span(x, UnitsFor(bytes, PAGE_SIZE)) <= pagealloc.FreeChunks()
    {
      hide ValidBut, Covered, Span, TablesIndex, HashSlot, ExtentAllocator.Valid, ExtentAllocator.FreeChunks, UnitsFor;
      Shape({});
      PageAllocIsValid();
      pagealloc.CoveredChunks();
      var x :| x in pagealloc.ext && bytes == pagealloc.Bytes(SizeSlot(pagealloc.ext[x], pagealloc.sizeSlots) + 1);
      CoversSpan(pagealloc.ext, x);
      var n := SizeSlot(pagealloc.ext[x], pagealloc.sizeSlots) + 1;
      PageBytes(n);
      ExtentHoldsSlotSize(pagealloc.ext, x, pagealloc.sizeSlots);
      assert UnitsFor(bytes, PAGE_SIZE) == n;
    }

    static lemma ExtentHoldsSlotSize(e: Extents, x: nat, slots: nat)
      requires Separated(e) && x in e && 0 < slots
      ensures Span(x, SizeSlot(e[x], slots) + 1) <= Span(x, e[x])
    {
    }

    /** The default amount of storage added to the general pool for a block of the given size. */
    static function PoolRequest(size: nat): nat {
      if CeilTo(size, PAGE_SIZE) < GEN_ALLOC_CHUNK_SIZE then GEN_ALLOC_CHUNK_SIZE else CeilTo(size, PAGE_SIZE)
    }

    static lemma PoolRequestFits(size: nat)
      requires 0 < size
      ensures size <= CeilTo(size, PAGE_SIZE) <= PoolRequest(size) && PoolRequest(size) % PAGE_SIZE == 0
      ensures CeilTo(size, PAGE_SIZE) % PAGE_SIZE == 0 && UnitsFor(CeilTo(size, PAGE_SIZE), PAGE_SIZE) == UnitsFor(size, PAGE_SIZE)
    {
    }

    /** The default amount is 16 pages, or more if the block needs them. */
    static lemma PoolRequestPages(size: nat)
      ensures var n := if size <= 65536 then 16 else UnitsFor(size, PAGE_SIZE);
              && UnitsFor(PoolRequest(size), PAGE_SIZE) == n
              && UnitsFor(PoolRequest(size), GEN_ALLOC_GRANULARITY) == n * CHUNKS_PER_PAGE
    {
    }

    static lemma MoreChunks(free: set<nat>, r: nat, n: nat)
      requires Span(r, n) !! free
      ensures |free + Span(r, n)| == |free| + n
    {
      SpanSize(r, n);
    }

    /**
     Adds storage to the general pool, at least enough for a block of the given size: the default
     amount, or the largest run of free pages if that is shorter, or just enough after returning
     unused pages. It fails only when no run of free pages is long enough for the block.
     */
    method Refill(size: nat) returns (ok: bool)
      requires Valid() && 0 < size
      modifies `genPages, pages, pagealloc, genalloc, slabs
      ensures Valid()
      ensures Lives() == old(Lives())
      ensures ok ==> exists x :: Span(x, UnitsFor(size, GEN_ALLOC_GRANULARITY)) <= genalloc.FreeChunks()
      ensures !ok ==> forall x :: !(Span(x, UnitsFor(size, PAGE_SIZE)) <= pagealloc.FreeChunks())
      ensures var n := if size <= 65536 then 16 else UnitsFor(size, PAGE_SIZE);
              (exists x :: Span(x, n) <= old(pagealloc.FreeChunks())) ==>
                ok && |genalloc.FreeChunks()| == |old(genalloc.FreeChunks())| + n * CHUNKS_PER_PAGE
    {
      hide ValidBut, Span, UnitsFor, CeilTo, PoolRequest, SizeSlot, ExtentAllocator.Bytes;
      hide SlabAllocator.NeedsPage, ExtentAllocator.FreeChunks, ExtentAllocator.Valid;
      Shape({});
      PoolRequestFits(size);
      PoolRequestPages(size);
      var bytes := PoolRequest(size);
      var page := TryAllocPages(bytes);
      if page == 0 {
        PageAllocIsValid();
        var largest := pagealloc.LargestFreeExtentBytes();
        if largest >= CeilTo(size, PAGE_SIZE) {
          bytes := largest;
          LargestFits(bytes);
          page := TryAllocPages(bytes);
          assert page != 0;
        } else {
          bytes := CeilTo(size, PAGE_SIZE);
          page := AllocPrivatePages(bytes);
        }
      }
      if page == 0 {
        return false;
      }
      ghost var pool := genalloc.FreeChunks();
      AddPool(page, bytes);
      MoreChunks(pool, ChunkAt(page), UnitsFor(bytes, GEN_ALLOC_GRANULARITY));
      ShorterRun(ChunkAt(page), size, bytes, genalloc.FreeChunks());
      return true;
    }

    lemma PageAllocIsValid()
      requires Valid()
      ensures pagealloc.Valid() && 0 < pagealloc.sizeSlots
    {
      hide SlabsOwn, PoolValid, PageSplit, TablesIndex, Separated;
    }

    /** The size of a general block of the given number of bytes, with its size word and rounded up. */
    static function BlockSize(bytes: nat): nat {
      CeilTo(bytes + HIDDEN_BYTES, SLAB_GRANULARITY)
    }

    /** Hands out a block of the general pool; 0 when it needs pages and there are not enough. */
    method GeneralAlloc(bytes: nat) returns (r: nat)
      requires Valid()
      modifies `genPages, `sizeWord, `blocks, pages, pagealloc, genalloc, slabs
      ensures Valid()
      ensures Lives() == old(Lives())
      ensures r == 0 ==> blocks == old(blocks)
      ensures r == 0 ==> forall x :: !(Span(x, UnitsFor(BlockSize(bytes), PAGE_SIZE)) <= pagealloc.FreeChunks())
      ensures r != 0 ==> r !in old(blocks) && blocks == old(blocks)[r := UnitsFor(BlockSize(bytes), GEN_ALLOC_GRANULARITY)]
    {
      hide ValidBut, Span, UnitsFor, CeilTo, SlabAllocator.NeedsPage, ExtentAllocator.FreeChunks;
      var size := BlockSize(bytes);
      CeilFacts(bytes + HIDDEN_BYTES, SLAB_GRANULARITY);
      r := TakeBlockOf(size);
      if r == 0 {
        var ok := Refill(size);
        if !ok {
          return 0;
        }
        r := TakeBlockOf(size);
        assert r != 0;
      }
    }

    /** Behind a hidden part, block p has room for the given number of bytes, and fewer than the given number to spare. */
    ghost predicate HasRoom(p: nat, hidden: nat, bytes: nat, spare: nat)
      reads this, slabs
    {
      exists lo: nat, hi: nat :: Occupies(p, lo, hi) && lo + hidden == p && p + bytes <= hi < p + bytes + spare
    }

    static lemma SlotFor(bytes: nat)
      requires 0 < bytes <= SLAB_ALLOC_LARGE_OBJ_THRESH
      ensures SlotOf(bytes) < SLAB_ALLOC_SLOT_COUNT && bytes <= SlabObjectSize(SlotOf(bytes)) < bytes + 16
    {
    }

    lemma ObjectHasRoom(i: nat, p: nat, bytes: nat)
      requires Valid() && i < |slabs| && p in slabs[i].live && bytes <= SlabObjectSize(i) < bytes + 16
      ensures HasRoom(p, 0, bytes, 16) && p % SLAB_GRANULARITY == 0
    {
      hide SlabsOwn, PoolValid, PageSplit, Objects, SlabAllocator.Valid, SlabAllocator.Pages, ExtentAllocator.Valid;
      assert Occupies(p, p, p + slabs[i].objectSize);
      assert SlabOwns(i) by { OwnedPages(i, {}); }
      slabs[i].LiveObject(p);
      ObjectIsAligned(p, PageOf(p), i, slabs[i].maxObjects);
    }

    static lemma ObjectIsAligned(a: nat, page: nat, slot: nat, count: nat)
      requires a in Objects(page, SlabObjectSize(slot), count)
      ensures a % SLAB_GRANULARITY == 0
    {
      var i: nat :| i < count && a == ObjectAt(page, i, SlabObjectSize(slot));
      assert i * ((slot + 1) * SLAB_GRANULARITY) == i * (slot + 1) * SLAB_GRANULARITY;
      Sixteenths(page * 256 + i * (slot + 1), a);
    }

    static lemma Sixteenths(k: nat, a: nat)
      requires a == k * SLAB_GRANULARITY
      ensures a % SLAB_GRANULARITY == 0
    {
    }

    static lemma RoomInBlock(r: nat, bytes: nat)
      ensures r * GEN_ALLOC_GRANULARITY == UserAddress(r) - 16
      ensures UserAddress(r) + bytes <= (r + UnitsFor(BlockSize(bytes), GEN_ALLOC_GRANULARITY)) * GEN_ALLOC_GRANULARITY
      ensures (r + UnitsFor(BlockSize(bytes), GEN_ALLOC_GRANULARITY)) * GEN_ALLOC_GRANULARITY < UserAddress(r) + bytes + 80
      ensures UserAddress(r) % SLAB_GRANULARITY == 0
    {
      hide CeilTo, UnitsFor;
      CeilFacts(bytes + HIDDEN_BYTES, SLAB_GRANULARITY);
      ChunksSuffice(BlockSize(bytes));
    }

    static lemma ChunksSuffice(bytes: nat)
      ensures bytes <= UnitsFor(bytes, GEN_ALLOC_GRANULARITY) * GEN_ALLOC_GRANULARITY < bytes + GEN_ALLOC_GRANULARITY
    {
    }

    lemma BlockHasRoom(r: nat, bytes: nat)
      requires Valid() && r in blocks && blocks[r] == UnitsFor(BlockSize(bytes), GEN_ALLOC_GRANULARITY)
      ensures HasRoom(UserAddress(r), 16, bytes, 80) && UserAddress(r) % SLAB_GRANULARITY == 0
    {
      hide ValidBut, CeilTo, UnitsFor, BlockSize;
      RoomInBlock(r, bytes);
      assert Occupies(UserAddress(r), r * GEN_ALLOC_GRANULARITY, (r + blocks[r]) * GEN_ALLOC_GRANULARITY);
    }

    lemma InLive(i: nat, a: nat)
      requires i < |slabs| && a in slabs[i].live
      ensures a in LiveObjects()
    {
      assert a in Lives()[i];
    }

    static lemma UnionAdd(s: seq<set<nat>>, i: nat, p: nat)
      requires i < |s|
      ensures Union(s[i := s[i] + {p}]) == Union(s) + {p}
    {
      var t := s[i := s[i] + {p}];
      forall a: nat
        ensures a in Union(t) <==> a in Union(s) || a == p
      {
        if a in Union(s) {
          var j :| 0 <= j < |s| && a in s[j];
          assert a in t[j];
        }
        assert p in t[i];
      }
    }

    /** The slab allocator that serves small requests of the given size. */
    static function SlotOf(bytes: nat): (slot: nat)
      requires 0 < bytes
    {
      CeilFacts(bytes, SLAB_GRANULARITY);
      CeilTo(bytes, SLAB_GRANULARITY) / SLAB_GRANULARITY - 1
    }

    /** The chunk where the block of the general pool at an address starts. */
    static function BlockOf(p: nat): nat {
      if p < HIDDEN_BYTES then 0 else (p - HIDDEN_BYTES) / GEN_ALLOC_GRANULARITY
    }

    static lemma BlockOfAddress(r: nat)
      ensures BlockOf(UserAddress(r)) == r
    {
    }

    lemma NewObject(before: seq<set<nat>>, i: nat, p: nat)
      requires Valid() && |before| == |slabs| && i < |slabs|
      requires p !in before[i] && Lives() == before[i := before[i] + {p}]
      ensures p in slabs[i].live && p !in LiveBlocks() && p !in Union(before)
      ensures LiveObjects() == Union(before) + {p}
    {
      hide ValidBut;
      assert Lives()[i] == slabs[i].live;
      OneIssuer(i, p);
      UnionAdd(before, i, p);
      forall j | 0 <= j < |before| && j != i
        ensures before[j] == slabs[j].live
      {
        assert Lives()[j] == slabs[j].live;
      }
    }

    /** Allocates an object of the slab allocator for its size. */
    method AllocObject(bytes: nat) returns (p: nat)
      requires Valid() && 0 < bytes <= SLAB_ALLOC_LARGE_OBJ_THRESH
      modifies `genPages, pages, pagealloc, genalloc, slabs
      ensures Valid() && SlotOf(bytes) < |slabs|
      ensures p == 0 ==> Lives() == old(Lives()) && pagealloc.FreeChunks() == {}
      ensures p != 0 ==> p !in old(Live()) && LiveObjects() == old(LiveObjects()) + {p}
      ensures p != 0 ==> Lives() == old(Lives())[SlotOf(bytes) := old(Lives())[SlotOf(bytes)] + {p}]
      ensures p != 0 ==> HasRoom(p, 0, bytes, 16) && p % SLAB_GRANULARITY == 0
    {
      hide ValidBut, HasRoom, CeilTo, SlotOf, UserAddress, ExtentAllocator.FreeChunks;
      Shape({});
      ghost var before := Lives();
      SlotFor(bytes);
      p := SlabAlloc(SlotOf(bytes));
      if p != 0 {
        NewObject(before, SlotOf(bytes), p);
        ObjectHasRoom(SlotOf(bytes), p, bytes);
      }
    }

    /** Allocates a block of the general pool. */
    method AllocBlock(bytes: nat) returns (p: nat)
      requires Valid()
      modifies `genPages, `sizeWord, `blocks, pages, pagealloc, genalloc, slabs
      ensures Valid() && Lives() == old(Lives())
      ensures p == 0 ==> blocks == old(blocks) && forall x :: !(Span(x, UnitsFor(BlockSize(bytes), PAGE_SIZE)) <= pagealloc.FreeChunks())
      ensures p != 0 ==> p !in old(Live()) && LiveBlocks() == old(LiveBlocks()) + {p}
      ensures p != 0 ==> p == UserAddress(BlockOf(p)) && BlockOf(p) !in old(blocks)
      ensures p != 0 ==> blocks == old(blocks)[BlockOf(p) := UnitsFor(BlockSize(bytes), GEN_ALLOC_GRANULARITY)]
      ensures p != 0 ==> HasRoom(p, 16, bytes, 80) && p % SLAB_GRANULARITY == 0
    {
      hide ValidBut, HasRoom, Span, UnitsFor, BlockSize, UserAddress, BlockOf, ExtentAllocator.FreeChunks;
      ghost var before := blocks;
      var r := GeneralAlloc(bytes);
      if r == 0 {
        return 0;
      }
      BlockHasRoom(r, bytes);
      NewBlock(r);
      BlockOfAddress(r);
      MoreBlocks(before, r, UnitsFor(BlockSize(bytes), GEN_ALLOC_GRANULARITY));
      p := UserAddress(r);
    }

    static lemma MoreBlocks(b: Extents, r: nat, n: nat)
      ensures (set x | x in b[r := n] :: UserAddress(x)) == (set x | x in b :: UserAddress(x)) + {UserAddress(r)}
    {
      hide UserAddress;
      assert r in b[r := n];
      assert forall x | x in b :: x in b[r := n];
    }

    /**
     Allocates a block: none for zero bytes, a slab object up to 1024 bytes, a block of the general
     pool above. The block is new, 16-byte aligned, large enough and hardly larger, and all others stay what they
     are; there is none only when the free pages do not suffice.
     */
    method Alloc(bytes: nat) returns (p: nat)
      requires Valid()
      modifies `genPages, `sizeWord, `blocks, pages, pagealloc, genalloc, slabs
      ensures Valid()
      ensures p == 0 ==> Live() == old(Live()) && Lives() == old(Lives()) && blocks == old(blocks)
      ensures p != 0 ==> p !in old(Live()) && Live() == old(Live()) + {p}
      ensures p != 0 ==> 0 < bytes && p % SLAB_GRANULARITY == 0
      ensures p != 0 ==> if bytes <= SLAB_ALLOC_LARGE_OBJ_THRESH then HasRoom(p, 0, bytes, 16) else HasRoom(p, 16, bytes, 80)
      ensures p != 0 ==> if bytes <= SLAB_ALLOC_LARGE_OBJ_THRESH then p in LiveObjects() else p in LiveBlocks()
      ensures p != 0 && bytes <= SLAB_ALLOC_LARGE_OBJ_THRESH ==>
                && SlotOf(bytes) < |slabs| && blocks == old(blocks)
                && Lives() == old(Lives())[SlotOf(bytes) := old(Lives())[SlotOf(bytes)] + {p}]
      ensures p != 0 && SLAB_ALLOC_LARGE_OBJ_THRESH < bytes ==>
                && p == UserAddress(BlockOf(p)) && BlockOf(p) !in old(blocks) && Lives() == old(Lives())
                && blocks == old(blocks)[BlockOf(p) := UnitsFor(BlockSize(bytes), GEN_ALLOC_GRANULARITY)]
      ensures p == 0 && 0 < bytes <= SLAB_ALLOC_LARGE_OBJ_THRESH ==> pagealloc.FreeChunks() == {}
      ensures p == 0 && SLAB_ALLOC_LARGE_OBJ_THRESH < bytes ==>
                forall x :: !(Span(x, UnitsFor(BlockSize(bytes), PAGE_SIZE)) <= pagealloc.FreeChunks())
    {
      hide ValidBut, HasRoom, Span, UnitsFor, BlockSize, UserAddress, BlockOf, SlotOf, Union, Lives;
      hide ExtentAllocator.FreeChunks;
      if bytes == 0 {
        return 0;
      }
      if bytes <= SLAB_ALLOC_LARGE_OBJ_THRESH {
        p := AllocObject(bytes);
      } else {
        p := AllocBlock(bytes);
      }
    }

    lemma NewBlock(r: nat)
      requires Valid() && r in blocks
      ensures UserAddress(r) !in LiveObjects() && 0 < UserAddress(r)
      ensures forall x :: UserAddress(x) == UserAddress(r) ==> x == r
    {
      hide ValidBut;
      if UserAddress(r) in LiveObjects() {
        var i :| 0 <= i < |slabs| && UserAddress(r) in Lives()[i];
        OneIssuer(i, UserAddress(r));
      }
    }

    // ---- Release

    /** Gives an object back to slab allocator i. */
    method FreeObject(i: nat, p: nat)
      requires Valid() && i < |slabs| && p in slabs[i].live
      modifies pages, pagealloc, slabs[i]
      ensures Valid() && slabs[i].live == old(slabs[i].live) - {p}
    {
      hide PoolValid, Located, Covered, HandedBack, PageSplit, Assigned, PagesOf;
      hide ExtentAllocator.Valid, ExtentAllocator.FreeChunks, SlabAllocator.Valid, SlabAllocator.Pages;
      OwnedPages(i, {});
      ghost var isSlab, free, was := pages.isSlab, pagealloc.FreeChunks(), slabs[i].Pages();
      slabs[i].Free(p, pages, pagealloc);
      SlabHandsBack(heap, free, isSlab, genPages, {}, was, slabs[i].Pages(), pages.isSlab, pagealloc.FreeChunks());
      StillOwned(isSlab, pages.isSlab, pages.allocator, i, was, slabs[i].Pages(), free, pagealloc.FreeChunks());
      forall j: nat | j < |slabs|
        ensures SlabOwns(j)
      {
        assert old(SlabOwns(j));
        assert j != i ==> slabs[j] != slabs[i];
      }
    }

    /** Gives a block back to the general pool. Its size word says how many chunks it has. */
    method FreeBlock(r: nat)
      requires Valid() && r in blocks
      modifies `blocks, genalloc
      ensures Valid() && blocks == old(blocks) - {r}
      ensures genalloc.FreeChunks() == old(genalloc.FreeChunks()) + Span(r, old(blocks[r]))
      ensures old(genalloc.FreeChunks()) !! Span(r, old(blocks[r]))
    {
      hide Covered, Chunks, Span, Fixed, SlabsOwn, GeneralSplit, PageSplit, UnitsFor;
      hide ExtentAllocator.Valid, ExtentAllocator.FreeChunks, UnitsFor;
      Shape({});
      FirstChunk(r);
      ReleaseBlock(genPages, genalloc.FreeChunks(), blocks, r);
      var bytes := sizeWord[r];
      NoUnits(bytes, GEN_ALLOC_GRANULARITY);
      genalloc.Free(r, bytes);
      blocks := blocks - {r};
    }

    /** The slab allocator that the page bitmap and the page header name for an address, if any. */
    method PointerToSlab(p: nat) returns (found: bool, i: nat)
      requires Valid()
      ensures found ==> i < |slabs| && PageOf(p) in slabs[i].Pages()
      ensures !found ==> forall j | 0 <= j < |slabs| :: PageOf(p) !in slabs[j].Pages()
      ensures forall j | 0 <= j < |slabs| && p in slabs[j].live :: found && i == j
      ensures p in LiveBlocks() ==> !found
    {
      hide PoolValid, Covered, GeneralSplit, PageOf, SlabAllocator.Valid, SlabAllocator.Pages;
      hide ExtentAllocator.Valid, ExtentAllocator.FreeChunks;
      forall j | 0 <= j < |slabs|
        ensures p in slabs[j].live ==> PageOf(p) in pages.isSlab && pages.allocator[PageOf(p)] == j
        ensures slabs[j].Pages() == PagesOf(pages.isSlab, pages.allocator, j)
        ensures slabs[j].Pages() <= pages.isSlab
      {
        if p in slabs[j].live {
          ObjectHome(j, p, {});
        }
        OwnedPages(j, {});
      }
      forall r | r in blocks && p == UserAddress(r)
        ensures PageOf(p) !in pages.isSlab
      {
        FirstChunk(r);
        BlockHome(r, r, {});
        AddressPage(r);
      }
      var page := PageOf(p);
      if !(poolBase <= page < poolBase + poolPages) || page !in pages.isSlab {
        return false, 0;
      }
      return true, pages.allocator[page];
    }

    lemma GoneObject(before: seq<set<nat>>, p: nat)
      requires |before| == |slabs| && forall j | 0 <= j < |slabs| :: slabs[j].live == before[j] - {p}
      ensures LiveObjects() == Union(before) - {p}
    {
      forall a: nat
        ensures a in LiveObjects() <==> a in Union(before) && a != p
      {
        if a in LiveObjects() {
          var j :| 0 <= j < |slabs| && a in Lives()[j];
          assert a in before[j];
        }
        if a in Union(before) && a != p {
          var j :| 0 <= j < |before| && a in before[j];
          assert a in Lives()[j];
        }
      }
    }

    static lemma GoneBlock(b: Extents, r: nat)
      ensures (set x | x in b - {r} :: UserAddress(x)) == (set x | x in b :: UserAddress(x)) - {UserAddress(r)}
    {
    }

    /**
     Frees a live block through the allocator that issued it, told apart by the page bitmap. A
     block of the general pool returns exactly the chunks it was given.
     */
    method Free(p: nat)
      requires Valid() && p in Live()
      modifies `blocks, pages, pagealloc, genalloc, slabs
      ensures Valid() && Live() == old(Live()) - {p}
      ensures forall i | 0 <= i < |slabs| :: slabs[i].live == old(slabs[i].live) - {p}
      ensures p in old(LiveObjects()) ==> blocks == old(blocks) && genalloc.FreeChunks() == old(genalloc.FreeChunks())
      ensures forall r | r in old(blocks) && p == UserAddress(r) ::
                && blocks == old(blocks) - {r}
                && genalloc.FreeChunks() == old(genalloc.FreeChunks()) + Span(r, old(blocks[r]))
                && |genalloc.FreeChunks()| == |old(genalloc.FreeChunks())| + old(blocks[r])
                && pagealloc.FreeChunks() == old(pagealloc.FreeChunks())
    {
      hide ValidBut, Span, BlockOf, UserAddress, LiveObjects, LiveBlocks, ExtentAllocator.FreeChunks;
      hide SlabAllocator.Pages;
      Shape({});
      IssuerIsKnown(p);
      var slab, i := PointerToSlab(p);
      if slab {
        FreeFromSlab(i, p);
      } else {
        FreeFromPool(p);
      }
    }

    /** A live block is either an object or in the general pool, at the chunk its address says. */
    lemma IssuerIsKnown(p: nat)
      requires Valid() && p in Live()
      ensures p in LiveObjects() <==> p !in LiveBlocks()
      ensures p in LiveObjects() <==> exists i :: 0 <= i < |slabs| && p in slabs[i].live
      ensures p in LiveBlocks() <==> BlockOf(p) in blocks && p == UserAddress(BlockOf(p))
      ensures forall r | r in blocks && p == UserAddress(r) :: p in LiveBlocks() && r == BlockOf(p)
    {
      hide ValidBut, UserAddress, BlockOf;
      if i :| 0 <= i < |slabs| && p in slabs[i].live {
        OneIssuer(i, p);
        InLive(i, p);
      }
      if p in LiveObjects() {
        var i :| 0 <= i < |slabs| && p in Lives()[i];
        assert p in slabs[i].live;
      }
      forall r | r in blocks && p == UserAddress(r)
        ensures r == BlockOf(p)
      {
        BlockOfAddress(r);
      }
    }

    method FreeFromSlab(i: nat, p: nat)
      requires i < |slabs| && p in slabs[i].live && Valid()
      modifies pages, pagealloc, slabs[i]
      ensures forall j | 0 <= j < |slabs| :: slabs[j].live == old(slabs[j].live) - {p}
      ensures LiveObjects() == old(LiveObjects()) - {p} && p !in LiveBlocks()
      ensures Valid()
    {
      hide ValidBut, ExtentAllocator.FreeChunks, SlabAllocator.Pages;
      Shape({});
      ghost var before := Lives();
      OneIssuer(i, p);
      FreeObject(i, p);
      GoneObject(before, p);
    }

    method FreeFromPool(p: nat)
      requires Valid() && BlockOf(p) in blocks && p == UserAddress(BlockOf(p))
      modifies `blocks, genalloc
      ensures Valid() && blocks == old(blocks) - {BlockOf(p)}
      ensures LiveBlocks() == old(LiveBlocks()) - {p} && p !in LiveObjects()
      ensures genalloc.FreeChunks() == old(genalloc.FreeChunks()) + Span(BlockOf(p), old(blocks[BlockOf(p)]))
      ensures |genalloc.FreeChunks()| == |old(genalloc.FreeChunks())| + old(blocks[BlockOf(p)])
    {
      hide ValidBut, Span, BlockOf, UserAddress, ExtentAllocator.FreeChunks;
      var r := BlockOf(p);
      SpanSize(r, blocks[r]);
      NewBlock(r);
      GoneBlock(blocks, r);
      FreeBlock(r);
    }

    // ---- Live blocks and free storage

    lemma BytesInChunks(lo: nat, hi: nat, x: nat)
      requires lo * GEN_ALLOC_GRANULARITY <= x < hi * GEN_ALLOC_GRANULARITY
      ensures lo <= x / GEN_ALLOC_GRANULARITY < hi && PageOf(x) == PageAt(x / GEN_ALLOC_GRANULARITY)
    {
    }

    /** Every byte of a live block is on a page of the allocator that issued it, and in no free chunk. */
    lemma LiveByte(p: nat, lo: nat, hi: nat, x: nat)
      requires Valid() && Occupies(p, lo, hi) && lo <= x < hi
      ensures PageOf(x) !in pagealloc.FreeChunks()
      ensures x / GEN_ALLOC_GRANULARITY !in genalloc.FreeChunks()
      ensures PageOf(x) in genPages <==> p in LiveBlocks()
      ensures PageOf(x) in pages.isSlab <==> p in LiveObjects()
    {
      hide ValidBut, PageOf, ExtentAllocator.FreeChunks;
      if i :| 0 <= i < |slabs| && p in slabs[i].live && lo == p && hi == p + slabs[i].objectSize {
        ObjectByte(i, p, x);
      } else {
        var r :| r in blocks && p == UserAddress(r)
          && lo == r * GEN_ALLOC_GRANULARITY && hi == (r + blocks[r]) * GEN_ALLOC_GRANULARITY;
        BytesInChunks(r, r + blocks[r], x);
        BlockHome(r, x / GEN_ALLOC_GRANULARITY, {});
        PageOfPool(PageOf(x));
        NewBlock(r);
      }
    }

    lemma PageOfPool(q: nat)
      requires Valid() && q in genPages
      ensures q !in pages.isSlab
    {
      hide SlabsOwn, PoolValid;
    }

    lemma ObjectByte(i: nat, p: nat, x: nat)
      requires Valid() && i < |slabs| && p in slabs[i].live && p <= x < p + slabs[i].objectSize
      ensures PageOf(x) == PageOf(p) && PageOf(x) in pages.isSlab && PageOf(x) !in genPages
      ensures PageOf(x) !in pagealloc.FreeChunks() && x / GEN_ALLOC_GRANULARITY !in genalloc.FreeChunks()
      ensures p in LiveObjects() && p !in LiveBlocks()
    {
      hide ValidBut, Objects, SlabAllocator.Valid, SlabAllocator.Pages, ExtentAllocator.FreeChunks;
      ObjectHome(i, p, {});
      OneIssuer(i, p);
      InLive(i, p);
      OwnedPages(i, {});
      slabs[i].LiveObject(p);
      FreeChunkIsInPool(x / GEN_ALLOC_GRANULARITY);
      BytesInChunks(x / GEN_ALLOC_GRANULARITY, x / GEN_ALLOC_GRANULARITY + 1, x);
    }

    lemma FreeChunkIsInPool(c: nat)
      requires Valid()
      ensures c in genalloc.FreeChunks() ==> PageAt(c) in genPages
    {
      hide Covered, Chunks, SlabsOwn, ExtentAllocator.Valid, ExtentAllocator.FreeChunks;
    }

    /** Live blocks never overlap. */
    lemma LiveBlocksApart(p: nat, lo: nat, hi: nat, q: nat, from: nat, to: nat)
      requires Valid() && Occupies(p, lo, hi) && Occupies(q, from, to) && p != q
      ensures hi <= from || to <= lo
    {
      hide ValidBut, PageOf, Occupies, LiveBlocks, LiveObjects, ExtentAllocator.FreeChunks;
      if lo < to && from < hi {
        var x := if lo < from then from else lo;
        OccupiesSome(p, lo, hi);
        OccupiesSome(q, from, to);
        LiveByte(p, lo, hi, x);
        LiveByte(q, from, to, x);
        if p in LiveBlocks() {
          BlocksApart(p, lo, hi, q, from, to);
        } else {
          ObjectsOfSlabsApart(p, lo, hi, q, from, to);
        }
      }
    }

    lemma OccupiesSome(p: nat, lo: nat, hi: nat)
      requires Valid() && Occupies(p, lo, hi)
      ensures lo < hi && p in Live()
    {
      hide ValidBut, LiveObjects;
      if i :| 0 <= i < |slabs| && p in slabs[i].live && lo == p && hi == p + slabs[i].objectSize {
        InLive(i, p);
        OwnedPages(i, {});
        PositiveSize(i);
      } else {
        var r :| r in blocks && p == UserAddress(r)
          && lo == r * GEN_ALLOC_GRANULARITY && hi == (r + blocks[r]) * GEN_ALLOC_GRANULARITY;
        FirstChunk(r);
      }
    }

    lemma PositiveSize(i: nat)
      requires Valid() && i < |slabs|
      ensures 0 < slabs[i].objectSize
    {
      hide SlabsOwn, PoolValid, PageSplit;
    }

    lemma BlocksApart(p: nat, lo: nat, hi: nat, q: nat, from: nat, to: nat)
      requires Valid() && Occupies(p, lo, hi) && Occupies(q, from, to) && p != q
      requires p in LiveBlocks() && q in LiveBlocks()
      ensures hi <= from || to <= lo
    {
      hide ValidBut, LiveObjects;
      var r :| r in blocks && p == UserAddress(r);
      var s :| s in blocks && q == UserAddress(s);
      NewBlock(r);
      NewBlock(s);
      forall i: nat | i < |slabs|
        ensures p !in slabs[i].live && q !in slabs[i].live
      {
        if p in slabs[i].live {
          InLive(i, p);
        } else if q in slabs[i].live {
          InLive(i, q);
        }
      }
      BlockOrder(r, s);
    }

    lemma BlockOrder(r: nat, s: nat)
      requires Valid() && r in blocks && s in blocks && r != s
      ensures r + blocks[r] <= s || s + blocks[s] <= r
    {
      hide SlabsOwn, PageSplit, Sized, Chunks, Covered;
    }

    lemma ObjectsOfSlabsApart(p: nat, lo: nat, hi: nat, q: nat, from: nat, to: nat)
      requires Valid() && Occupies(p, lo, hi) && Occupies(q, from, to) && p != q
      requires p !in LiveBlocks() && q !in LiveBlocks()
      ensures hi <= from || to <= lo
    {
      hide ValidBut, SlabAllocator.Valid, SlabAllocator.Pages;
      var i :| 0 <= i < |slabs| && p in slabs[i].live && lo == p && hi == p + slabs[i].objectSize;
      var j :| 0 <= j < |slabs| && q in slabs[j].live && from == q && to == q + slabs[j].objectSize;
      ObjectHome(i, p, {});
      ObjectHome(j, q, {});
      OwnedPages(i, {});
      OwnedPages(j, {});
      slabs[i].LiveObject(p);
      slabs[j].LiveObject(q);
      if i == j {
        slabs[i].LiveObjectsApart(p, q);
      }
    }

    /** All pages of the heap are accounted for, and so are all chunks of the general pool. */
    lemma HeapIsConserved()
      requires Valid()
      ensures |pagealloc.FreeChunks()| + |pages.isSlab| + |genPages| == |heap|
      ensures genalloc.FreeChunks() + Covered(blocks) == Chunks(genPages)
      ensures genalloc.FreeChunks() !! Covered(blocks)
    {
      hide SlabsOwn, Sized, Chunks, Covered, ExtentAllocator.FreeChunks, ExtentAllocator.Valid;
    }
  }
}
