/**
 The extent allocator: one set of free extents kept in three tables of lists (by size, by slots
 of the first chunk, by slots of the chunk after the last one), with splitting on allocation and
 merging in both directions on release. Addresses and sizes are in chunks; chunk 0 is null.
 */
module ExtentAllocation {
  import opened Alignment
  import opened FreeExtents
  import opened Buckets

  /** The size bucket of an n-chunk extent; n - 1 wraps around for n == 0. */
  function SizeSlot(n: nat, slots: nat): (slot: nat)
    requires 0 < slots
    ensures slot < slots
  {
    if 0 < n < slots then n - 1 else slots - 1
  }

  ghost function SizeKeys(e: Extents, slots: nat): map<nat, nat>
    requires 0 < slots
  {
    map r | r in e :: SizeSlot(e[r], slots)
  }

  ghost function StartKeys(e: Extents, slots: nat): map<nat, nat> {
    map r | r in e :: HashSlot(r, slots)
  }

  ghost function EndKeys(e: Extents, slots: nat): map<nat, nat> {
    map r | r in e :: HashSlot(r + e[r], slots)
  }

  /** The three tables hold exactly the extents of e, each in its right bucket. */
  ghost predicate TablesIndex(sizes: Table, starts: Table, ends: Table, slots: nat, e: Extents) {
    && 0 < |sizes| && 0 < slots && |starts| == |ends| == slots
    && Indexes(sizes, SizeKeys(e, |sizes|))
    && Indexes(starts, StartKeys(e, slots))
    && Indexes(ends, EndKeys(e, slots))
  }

  lemma UnlinkedSizes(t: Table, e: Extents, r: nat)
    requires 0 < |t| && Indexes(t, SizeKeys(e, |t|))
    ensures Indexes(Unlinked(t, r), SizeKeys(e - {r}, |t|))
  {
    UnlinkedIndexes(t, SizeKeys(e, |t|), r);
    assert SizeKeys(e - {r}, |t|) == SizeKeys(e, |t|) - {r};
  }

  lemma UnlinkedStarts(t: Table, slots: nat, e: Extents, r: nat)
    requires Indexes(t, StartKeys(e, slots))
    ensures Indexes(Unlinked(t, r), StartKeys(e - {r}, slots))
  {
    hide HashSlot;
    UnlinkedIndexes(t, StartKeys(e, slots), r);
    assert StartKeys(e - {r}, slots) == StartKeys(e, slots) - {r};
  }

  lemma UnlinkedEnds(t: Table, slots: nat, e: Extents, r: nat)
    requires Indexes(t, EndKeys(e, slots))
    ensures Indexes(Unlinked(t, r), EndKeys(e - {r}, slots))
  {
    hide HashSlot;
    UnlinkedIndexes(t, EndKeys(e, slots), r);
    assert EndKeys(e - {r}, slots) == EndKeys(e, slots) - {r};
  }

  /** The extents in one bucket of the end table, and that others slots elsewhere. */
  lemma ListedEnds(list: seq<nat>, slots: nat, e: Extents, slot: nat)
    requires Holds(list, EndKeys(e, slots), slot)
    ensures forall j | 0 <= j < |list| :: list[j] in e
    ensures forall x | x in e && HashSlot(x + e[x], slots) == slot :: x in list
  {
    hide HashSlot;
    forall j | 0 <= j < |list|
      ensures list[j] in e
    {
      assert list[j] in list;
      assert list[j] in EndKeys(e, slots);
    }
    forall x | x in e && HashSlot(x + e[x], slots) == slot
      ensures x in list
    {
      assert x in EndKeys(e, slots);
    }
  }

  /** The extents in one bucket of the size table, and that others have other sizes. */
  lemma ListedSizes(list: seq<nat>, slots: nat, e: Extents, slot: nat)
    requires 0 < slots && Holds(list, SizeKeys(e, slots), slot)
    ensures forall j | 0 <= j < |list| :: list[j] in e && SizeSlot(e[list[j]], slots) == slot
    ensures forall x | x in e && SizeSlot(e[x], slots) == slot :: x in list
  {
    hide SizeSlot;
    forall j | 0 <= j < |list|
      ensures list[j] in e && SizeSlot(e[list[j]], slots) == slot
    {
      assert list[j] in list;
      assert list[j] in SizeKeys(e, slots);
    }
    forall x | x in e && SizeSlot(e[x], slots) == slot
      ensures x in list
    {
      assert x in SizeKeys(e, slots);
    }
  }

  lemma UnlinkedTables(sizes: Table, starts: Table, ends: Table, slots: nat, e: Extents, r: nat)
    requires TablesIndex(sizes, starts, ends, slots, e)
    ensures TablesIndex(Unlinked(sizes, r), Unlinked(starts, r), Unlinked(ends, r), slots, e - {r})
  {
    hide HashSlot;
    UnlinkedSizes(sizes, e, r);
    UnlinkedStarts(starts, slots, e, r);
    UnlinkedEnds(ends, slots, e, r);
  }

  lemma AddedSizes(t: Table, e: Extents, r: nat, n: nat)
    requires 0 < |t| && Indexes(t, SizeKeys(e, |t|)) && r !in e
    ensures Indexes(Added(t, SizeSlot(n, |t|), r), SizeKeys(e[r := n], |t|))
  {
    AddedIndexes(t, SizeKeys(e, |t|), r, SizeSlot(n, |t|));
    assert SizeKeys(e[r := n], |t|) == SizeKeys(e, |t|)[r := SizeSlot(n, |t|)];
  }

  lemma AddedStarts(t: Table, slots: nat, e: Extents, r: nat, n: nat)
    requires Indexes(t, StartKeys(e, slots)) && r !in e && HashSlot(r, slots) < |t|
    ensures Indexes(Added(t, HashSlot(r, slots), r), StartKeys(e[r := n], slots))
  {
    hide HashSlot;
    AddedIndexes(t, StartKeys(e, slots), r, HashSlot(r, slots));
    assert StartKeys(e[r := n], slots) == StartKeys(e, slots)[r := HashSlot(r, slots)];
  }

  lemma AddedEnds(t: Table, slots: nat, e: Extents, r: nat, n: nat)
    requires Indexes(t, EndKeys(e, slots)) && r !in e && HashSlot(r + n, slots) < |t|
    ensures Indexes(Added(t, HashSlot(r + n, slots), r), EndKeys(e[r := n], slots))
  {
    hide HashSlot;
    AddedIndexes(t, EndKeys(e, slots), r, HashSlot(r + n, slots));
    assert EndKeys(e[r := n], slots) == EndKeys(e, slots)[r := HashSlot(r + n, slots)];
  }

  lemma LinkedTables(sizes: Table, starts: Table, ends: Table, slots: nat, e: Extents, r: nat, n: nat)
    requires TablesIndex(sizes, starts, ends, slots, e) && r !in e
    ensures TablesIndex(Added(sizes, SizeSlot(n, |sizes|), r),
                        Added(starts, HashSlot(r, slots), r),
                        Added(ends, HashSlot(r + n, slots), r), slots, e[r := n])
  {
    hide HashSlot;
    AddedSizes(sizes, e, r, n);
    AddedStarts(starts, slots, e, r, n);
    AddedEnds(ends, slots, e, r, n);
  }

  // ---- Whole pages handed back by the allocator

  /** A run of chunks. */
  datatype Region = Region(start: nat, size: nat)

  ghost function RegionChunks(rs: seq<Region>): set<nat> {
    if rs == [] then {}
    else RegionChunks(rs[..|rs| - 1]) + Span(rs[|rs| - 1].start, rs[|rs| - 1].size)
  }

  ghost predicate WholePageRegion(x: Region, page: nat) {
    0 < x.size && Aligned(x.start, page) && Aligned(x.size, page)
  }

  /**
   The regions are disjoint runs of whole pages which, together with the chunks still free,
   make up the chunks that were free before.
   */
  ghost predicate Reclaimed(rs: seq<Region>, page: nat, before: set<nat>, now: set<nat>) {
    && (forall i | 0 <= i < |rs| :: WholePageRegion(rs[i], page))
    && (forall i, j | 0 <= i < j < |rs| :: Span(rs[i].start, rs[i].size) !! Span(rs[j].start, rs[j].size))
    && RegionChunks(rs) !! now
    && RegionChunks(rs) + now == before
  }

  lemma RegionInChunks(rs: seq<Region>, i: nat)
    requires i < |rs|
    ensures Span(rs[i].start, rs[i].size) <= RegionChunks(rs)
  {
    hide Span;
    if i < |rs| - 1 {
      RegionInChunks(rs[..|rs| - 1], i);
    }
  }

  lemma ReclaimRegion(rs: seq<Region>, x: Region, page: nat, before: set<nat>, now: set<nat>)
    requires Reclaimed(rs, page, before, now)
    requires WholePageRegion(x, page) && Span(x.start, x.size) <= now
    ensures Reclaimed(rs + [x], page, before, now - Span(x.start, x.size))
  {
    hide Span, WholePageRegion;
    var all := rs + [x];
    assert all[..|all| - 1] == rs;
    forall i, j | 0 <= i < j < |all|
      ensures Span(all[i].start, all[i].size) !! Span(all[j].start, all[j].size)
    {
      RegionInChunks(rs, i);
    }
  }

  /** No extent in a size bucket below the given one holds a whole page. */
  ghost predicate NoPageBelow(e: Extents, page: nat, slot: nat, slots: nat)
    requires 0 < slots
  {
    forall x | x in e && SizeSlot(e[x], slots) < slot :: !HoldsPage(x, e[x], page)
  }

  lemma ShortHoldsNoPage(r: nat, n: nat, page: nat)
    requires n < page
    ensures !HoldsPage(r, n, page)
  {
  }

  lemma SmallBucketsHoldNoPage(e: Extents, page: nat, slots: nat)
    requires 0 < slots && 0 < page
    ensures NoPageBelow(e, page, SizeSlot(page, slots), slots)
  {
    forall x | x in e && SizeSlot(e[x], slots) < SizeSlot(page, slots)
      ensures !HoldsPage(x, e[x], page)
    {
      ShortHoldsNoPage(x, e[x], page);
    }
  }

  lemma TrimmedHoldsNoPage(e: Extents, r: nat, first: nat, last: nat, page: nat, slot: nat, slots: nat)
    requires 0 < slots && NoPageBelow(e, page, slot, slots)
    requires r in e && r <= first <= last <= r + e[r]
    requires first < r + page && r + e[r] < last + page
    ensures NoPageBelow(Trimmed(e, r, first, last), page, slot, slots)
  {
    hide SizeSlot, HoldsPage;
    var f := Trimmed(e, r, first, last);
    ShortHoldsNoPage(r, first - r, page);
    ShortHoldsNoPage(last, r + e[r] - last, page);
    forall x | x in f && SizeSlot(f[x], slots) < slot
      ensures !HoldsPage(x, f[x], page)
    {
    }
  }

  lemma IsWholePageRegion(first: nat, last: nat, page: nat)
    requires first < last && Aligned(first, page) && Aligned(last - first, page)
    ensures WholePageRegion(Region(first, last - first), page)
  {
  }

  lemma NothingReclaimed(page: nat, free: set<nat>)
    ensures Reclaimed([], page, free, free)
  {
  }

  /** The pages in front of and behind the regions were not free: the regions are as long as can be. */
  ghost predicate Longest(rs: seq<Region>, page: nat, before: set<nat>) {
    forall i | 0 <= i < |rs| ::
      && (page <= rs[i].start ==> !(Span(rs[i].start - page, page) <= before))
      && !(Span(rs[i].start + rs[i].size, page) <= before)
  }

  /** Extents that contain a whole page are as they were before. */
  ghost predicate Untouched(e: Extents, before: Extents, page: nat) {
    forall x | x in e && HoldsPage(x, e[x], page) :: x in before && before[x] == e[x]
  }

  lemma NothingTouched(e: Extents, page: nat)
    ensures Untouched(e, e, page) && Longest([], page, Covered(e))
  {
  }

  lemma StillUntouched(e: Extents, before: Extents, r: nat, first: nat, last: nat, page: nat)
    requires Untouched(e, before, page) && r in e && r <= first <= last <= r + e[r]
    requires first < r + page && r + e[r] < last + page
    ensures Untouched(Trimmed(e, r, first, last), before, page)
  {
    hide HoldsPage;
    ShortHoldsNoPage(r, first - r, page);
    ShortHoldsNoPage(last, r + e[r] - last, page);
  }

  /** The whole pages of an extent are a longest region, as the chunks around the extent are not free. */
  lemma LongestRegion(rs: seq<Region>, before: Extents, r: nat, first: nat, last: nat, page: nat)
    requires Separated(before) && r in before && r <= first < last <= r + before[r] && Longest(rs, page, Covered(before))
    requires first < r + page && r + before[r] < last + page
    ensures Longest(rs + [Region(first, last - first)], page, Covered(before))
  {
    hide Covered, Separated;
    ExtentsAreMaximalRuns(before, r, before[r]);
    ZeroIsNotFree(before);
    assert r + before[r] in Span(last, page);
    assert page <= first && 0 < r ==> r - 1 in Span(first - page, page);
  }

  lemma BucketIsLarge(n: nat, page: nat, slots: nat)
    requires 0 < slots && 0 < n && 0 < page <= slots + 1
    requires SizeSlot(page, slots) <= SizeSlot(n, slots)
    ensures page <= n + 1
  {
  }

  /**
   The rounded ends of the extents that the search for whole pages looks at never cross, so that
   their unsigned difference never wraps around, exactly when a page spans at most one chunk more
   than there are size buckets.
   */
  lemma EndsNeverCross(page: nat, slots: nat)
    requires 0 < page && 0 < slots
    ensures (forall r: nat, n: nat | 0 < r && 0 < n && SizeSlot(page, slots) <= SizeSlot(n, slots) ::
               CeilTo(r, page) <= FloorTo(r + n, page))
       <==> page <= slots + 1
  {
    if page <= slots + 1 {
      forall r: nat, n: nat | 0 < r && 0 < n && SizeSlot(page, slots) <= SizeSlot(n, slots)
        ensures CeilTo(r, page) <= FloorTo(r + n, page)
      {
        BucketIsLarge(n, page, slots);
        WholePages(r, n, page);
      }
    } else {
      var r, n := 1, slots;
      assert SizeSlot(page, slots) <= SizeSlot(n, slots);
      assert CeilTo(r, page) == page;
      assert FloorTo(r + n, page) == 0;
    }
  }

  /** The first k listed extents contain no whole page. */
  ghost predicate Scanned(list: seq<nat>, k: nat, e: Extents, page: nat)
    requires k <= |list|
  {
    forall j | 0 <= j < k :: list[j] in e && !HoldsPage(list[j], e[list[j]], page)
  }

  lemma NoneScanned(list: seq<nat>, e: Extents, page: nat)
    ensures Scanned(list, 0, e, page)
  {
  }

  lemma NextScanned(list: seq<nat>, k: nat, e: Extents, page: nat)
    requires k < |list| && Scanned(list, k, e, page) && list[k] in e && !HoldsPage(list[k], e[list[k]], page)
    ensures Scanned(list, k + 1, e, page)
  {
    hide HoldsPage;
  }

  lemma NextBucket(list: seq<nat>, e: Extents, page: nat, slot: nat, slots: nat)
    requires 0 < slots && NoPageBelow(e, page, slot, slots)
    requires Holds(list, SizeKeys(e, slots), slot)
    requires Scanned(list, |list|, e, page)
    ensures NoPageBelow(e, page, slot + 1, slots)
  {
    hide HoldsPage, SizeSlot, SizeKeys, Holds;
    ListedSizes(list, slots, e, slot);
  }

  lemma AllBuckets(e: Extents, page: nat, slots: nat)
    requires 0 < slots && NoPageBelow(e, page, slots, slots)
    ensures forall x | x in e :: !HoldsPage(x, e[x], page)
  {
  }

  class ExtentAllocator {
    const chunkBytes: nat
    const sizeSlots: nat
    const hashSlots: nat
    var bySize: Table
    var byStart: Table
    var byEnd: Table
    var size: map<nat, nat> // the size word in the header of each free extent
    var extentCount: int
    var bytesFree: int
    var bytesAllocated: int
    ghost var ext: Extents // the free extents

    function Bytes(n: nat): nat {
      n * chunkBytes
    }

    lemma BytesSum(m: nat, n: nat)
      ensures Bytes(m + n) == Bytes(m) + Bytes(n)
    {
    }

    ghost predicate Shape() {
      && 0 < chunkBytes && 0 < sizeSlots && 0 < hashSlots
    }

    /** The three tables hold exactly the extents of ext, each in its right bucket. */
    ghost predicate Indexed()
      reads this
    {
      && Shape()
      && |bySize| == sizeSlots && |byStart| == |byEnd| == hashSlots
      && Separated(ext)
      && (forall r | r in ext :: r in size && size[r] == ext[r])
      && TablesIndex(bySize, byStart, byEnd, hashSlots, ext)
      && extentCount == |ext|
    }

    ghost predicate Valid()
      reads this
    {
      Indexed() && bytesFree == Bytes(|FreeChunks()|)
    }

    ghost function FreeChunks(): set<nat>
      reads this
    {
      Covered(ext)
    }

    constructor (chunkBytes: nat, sizeSlots: nat, hashSlots: nat)
      requires 0 < chunkBytes && 0 < sizeSlots && 0 < hashSlots
      ensures Valid() && FreeChunks() == {}
      ensures this.chunkBytes == chunkBytes && this.sizeSlots == sizeSlots
      ensures this.hashSlots == hashSlots
    {
      this.chunkBytes := chunkBytes;
      this.sizeSlots, this.hashSlots := sizeSlots, hashSlots;
      bySize := seq(sizeSlots, _ => []);
      byStart := seq(hashSlots, _ => []);
      byEnd := seq(hashSlots, _ => []);
      size, ext := map[], map[];
      extentCount, bytesFree, bytesAllocated := 0, 0, 0;
    }

    /** Takes extent r out of all three tables. */
    method UnlinkExtent(r: nat)
      requires Indexed() && r in ext
      modifies this
      ensures Indexed() && ext == old(ext) - {r}
      ensures size == old(size) && bytesFree == old(bytesFree) && bytesAllocated == old(bytesAllocated)
    {
      hide TablesIndex, Separated, HashSlot;
      ghost var e := ext;
      RemoveKeepsSeparated(e, r);
      UnlinkedTables(bySize, byStart, byEnd, hashSlots, e, r);
      bySize := Unlinked(bySize, r);
      byStart := Unlinked(byStart, r);
      byEnd := Unlinked(byEnd, r);
      extentCount := extentCount - 1;
      ext := e - {r};
      assert ext.Keys == e.Keys - {r};
    }

    /** Enters a new extent in all three tables. */
    method LinkExtent(r: nat, n: nat)
      requires Indexed() && 0 < r && 0 < n && Isolated(ext, r, n)
      modifies this
      ensures Indexed() && ext == old(ext)[r := n]
      ensures bytesFree == old(bytesFree) && bytesAllocated == old(bytesAllocated)
    {
      hide TablesIndex, Separated, Isolated, HashSlot;
      ghost var e := ext;
      AddKeepsSeparated(e, r, n);
      AddedIsNew(e, r, n);
      LinkedTables(bySize, byStart, byEnd, hashSlots, e, r, n);
      size := size[r := n];
      bySize := Added(bySize, SizeSlot(n, sizeSlots), r);
      byStart := Added(byStart, HashSlot(r, hashSlots), r);
      byEnd := Added(byEnd, HashSlot(r + n, hashSlots), r);
      extentCount := extentCount + 1;
      ext := e[r := n];
      assert ext.Keys == e.Keys + {r};
    }

    /** Finds the free extent that starts at addr; 0 when there is none. */
    method FindByStart(addr: nat) returns (r: nat)
      requires Indexed()
      ensures r == if addr in ext then addr else 0
    {
      hide Separated, Indexes, HashSlot;
      ghost var keys := StartKeys(ext, hashSlots);
      var slot := HashSlot(addr, hashSlots);
      var list := byStart[slot];
      BucketHolds(byStart, keys, slot);
      var k := 0;
      while k < |list|
        invariant k <= |list|
        invariant addr !in list[..k]
      {
        if list[k] == addr {
          return addr;
        }
        k := k + 1;
      }
      assert addr in ext <==> addr in keys;
      return 0;
    }

    /** Finds the free extent that ends where addr starts; 0 when there is none. */
    method FindByEnd(addr: nat) returns (r: nat)
      requires Indexed()
      ensures r != 0 ==> r in ext && r + ext[r] == addr
      ensures r == 0 ==> forall x | x in ext :: x + ext[x] != addr
    {
      hide Separated, Indexes, Holds, HashSlot, EndKeys;
      ZeroIsNotFree(ext);
      var slot := HashSlot(addr, hashSlots);
      var list := byEnd[slot];
      BucketHolds(byEnd, EndKeys(ext, hashSlots), slot);
      ListedEnds(list, hashSlots, ext, slot);
      var k := 0;
      while k < |list|
        invariant k <= |list|
        invariant forall j | 0 <= j < k :: list[j] + ext[list[j]] != addr
      {
        var x := list[k];
        if x + size[x] == addr {
          return x;
        }
        k := k + 1;
      }
      return 0;
    }

    /** Takes the extent that starts where the run ends, if any, out of the tables; returns the joined size. */
    method AbsorbRight(r: nat, n: nat) returns (total: nat)
      requires Indexed()
      requires 0 < n && Span(r, n) !! FreeChunks()
      modifies this
      ensures Indexed() && ClearOnRight(ext, r, total) && n <= total
      ensures FreeChunks() + Span(r, total) == old(FreeChunks()) + Span(r, n)
      ensures |FreeChunks()| + total == |old(FreeChunks())| + n
      ensures bytesFree == old(bytesFree) && bytesAllocated == old(bytesAllocated)
    {
      hide TablesIndex, Separated, Isolated, ClearOnRight, Covered, Span, HashSlot;
      total := n;
      var right := FindByStart(r + n);
      if right != 0 {
        MergeRight(ext, r, n);
        total := total + size[right];
        UnlinkExtent(right);
      } else {
        DisjointIsClear(ext, r, n);
      }
    }

    /** Takes the extent that ends where the run starts, if any, out of the tables; returns the joined run. */
    method AbsorbLeft(r: nat, n: nat) returns (start: nat, total: nat)
      requires Indexed()
      requires 0 < r && 0 < n && ClearOnRight(ext, r, n)
      modifies this
      ensures Indexed() && Isolated(ext, start, total) && 0 < start && 0 < total
      ensures FreeChunks() + Span(start, total) == old(FreeChunks()) + Span(r, n)
      ensures |FreeChunks()| + total == |old(FreeChunks())| + n
      ensures bytesFree == old(bytesFree) && bytesAllocated == old(bytesAllocated)
    {
      hide TablesIndex, Separated, Isolated, ClearOnRight, Covered, Span, HashSlot;
      start, total := r, n;
      var left := FindByEnd(r);
      if left != 0 {
        MergeLeft(ext, left, r, n);
        total := total + size[left];
        start := r - size[left];
        UnlinkExtent(left);
      } else {
        NoMergeLeft(ext, r, n);
      }
    }

    /**
     Releases the n chunks at r, merging them with the free extents on both sides. As the
     resulting extents are separated, they are fully determined by the chunks they cover.
     */
    method FreeExtent(r: nat, n: nat)
      requires Valid()
      requires r == 0 || Span(r, n) !! FreeChunks()
      modifies this
      ensures Valid() && bytesAllocated == old(bytesAllocated)
      ensures FreeChunks() == if r == 0 then old(FreeChunks()) else old(FreeChunks()) + Span(r, n)
    {
      hide TablesIndex, Separated, Isolated, ClearOnRight, Covered, Span, Bytes, HashSlot;
      if r == 0 || n == 0 {
        NoChunks(r);
        return;
      }
      DisjointIsNew(ext, r, n);
      BytesSum(|FreeChunks()|, n);
      size := size[r := 0];
      bytesFree := bytesFree + Bytes(n);
      var joined := AbsorbRight(r, n);
      var start, total := AbsorbLeft(r, joined);
      AddExtent(ext, start, total);
      LinkExtent(start, total);
    }

    /** Takes extent r out of the tables and out of the count of free bytes. */
    method AllocExtent(r: nat)
      requires Valid() && r in ext
      modifies this
      ensures Valid() && ext == old(ext) - {r}
      ensures size == old(size) && bytesAllocated == old(bytesAllocated)
    {
      hide TablesIndex, Separated, Covered, Span, Bytes, HashSlot;
      RemoveExtent(ext, r);
      BytesSum(|FreeChunks()| - ext[r], ext[r]);
      bytesFree := bytesFree - Bytes(size[r]);
      UnlinkExtent(r);
    }

    lemma SizeBucket(slot: nat)
      requires Indexed() && slot < sizeSlots
      ensures Holds(bySize[slot], SizeKeys(ext, sizeSlots), slot)
      ensures forall j | 0 <= j < |bySize[slot]| ::
                bySize[slot][j] in ext && SizeSlot(ext[bySize[slot][j]], sizeSlots) == slot
    {
      hide Indexes, Separated, HashSlot, SizeSlot, SizeKeys, Holds;
      BucketHolds(bySize, SizeKeys(ext, sizeSlots), slot);
      ListedSizes(bySize[slot], sizeSlots, ext, slot);
    }

    lemma SizeBucketIsComplete(slot: nat)
      requires Indexed() && slot < sizeSlots
      ensures forall x | x in ext && SizeSlot(ext[x], sizeSlots) == slot :: x in bySize[slot]
    {
      hide Indexes, Separated, HashSlot, SizeSlot, SizeKeys, Holds;
      BucketHolds(bySize, SizeKeys(ext, sizeSlots), slot);
      ListedSizes(bySize[slot], sizeSlots, ext, slot);
    }

    /** Takes the first n chunks of an extent and releases the rest of it again. */
    method TakeFront(r: nat, n: nat)
      requires Valid() && r in ext && 0 < n <= ext[r]
      modifies this
      ensures Valid() && bytesAllocated == old(bytesAllocated)
      ensures FreeChunks() == old(FreeChunks()) - Span(r, n)
    {
      hide TablesIndex, Separated, Covered, Span, Bytes, HashSlot;
      SplitExtent(ext, r, n);
      AllocExtent(r);
      if n != size[r] {
        FreeExtent(r + n, size[r] - n);
      } else {
        NoChunks(r + n);
      }
    }

    /** Takes n chunks from the first extent in a size bucket that is large enough; 0 when there is none. */
    method FindInSizeSlot(n: nat, slot: nat) returns (r: nat)
      requires Valid() && 0 < n && slot < sizeSlots
      modifies this
      ensures Valid() && bytesAllocated == old(bytesAllocated)
      ensures r == 0 ==> ext == old(ext) && forall x | x in ext && SizeSlot(ext[x], sizeSlots) == slot :: ext[x] < n
      ensures r != 0 ==>
                && r in old(ext) && n <= old(ext[r]) && SizeSlot(old(ext[r]), sizeSlots) == slot
                && FreeChunks() == old(FreeChunks()) - Span(r, n)
    {
      hide TablesIndex, Separated, Covered, Span, Bytes, HashSlot, SizeKeys, SizeSlot, Holds;
      ZeroIsNotFree(ext);
      var list := bySize[slot];
      SizeBucket(slot);
      SizeBucketIsComplete(slot);
      var k := 0;
      while k < |list|
        invariant k <= |list|
        invariant forall j | 0 <= j < k :: ext[list[j]] < n
        invariant Valid() && ext == old(ext) && bytesAllocated == old(bytesAllocated)
      {
        r := list[k];
        if n <= size[r] {
          TakeFront(r, n);
          return;
        }
        k := k + 1;
      }
      return 0;
    }

    /** Takes n chunks from the first large enough extent of the lowest bucket that has one. */
    method FindFreeExtent(n: nat) returns (r: nat)
      requires Valid()
      modifies this
      ensures Valid() && bytesAllocated == old(bytesAllocated)
      ensures r == 0 ==> ext == old(ext) && (n == 0 || forall x | x in ext :: ext[x] < n)
      ensures r != 0 ==>
                && 0 < n && TakenFromBest(old(ext), r, n, sizeSlots)
                && FreeChunks() == old(FreeChunks()) - Span(r, n)
    {
      hide TablesIndex, Separated, Covered, Span, Bytes, HashSlot;
      if n == 0 {
        return 0;
      }
      var i := SizeSlot(n, sizeSlots);
      while i < sizeSlots
        invariant SizeSlot(n, sizeSlots) <= i <= sizeSlots
        invariant Valid() && ext == old(ext) && bytesAllocated == old(bytesAllocated)
        invariant forall x | x in ext && SizeSlot(ext[x], sizeSlots) < i :: ext[x] < n
      {
        r := FindInSizeSlot(n, i);
        if r != 0 {
          return;
        }
        i := i + 1;
      }
      return 0;
    }

    /**
     Allocates bytes rounded up to chunks. It fails exactly when nothing was asked for or no
     long enough run of free chunks exists, and otherwise takes exactly the returned block.
     */
    method Alloc(bytes: nat) returns (r: nat)
      requires Valid()
      modifies this
      ensures Valid()
      ensures r == 0 <==> bytes == 0 || forall x :: !(Span(x, UnitsFor(bytes, chunkBytes)) <= old(FreeChunks()))
      ensures r == 0 ==> ext == old(ext) && bytesAllocated == old(bytesAllocated)
      ensures r != 0 ==>
                && Span(r, UnitsFor(bytes, chunkBytes)) <= old(FreeChunks())
                && FreeChunks() == old(FreeChunks()) - Span(r, UnitsFor(bytes, chunkBytes))
                && TakenFromBest(old(ext), r, UnitsFor(bytes, chunkBytes), sizeSlots)
                && bytesAllocated == old(bytesAllocated) + Bytes(UnitsFor(bytes, chunkBytes))
    {
      hide TablesIndex, Separated, Covered, Span, Bytes, HashSlot, UnitsFor, TakenFromBest;
      var n := UnitsFor(bytes, chunkBytes);
      NoUnits(bytes, chunkBytes);
      r := FindFreeExtent(n);
      if r == 0 {
        if n != 0 {
          NoRun(ext, n);
        }
        return;
      }
      BestIsFree(old(ext), r, n, sizeSlots);
      bytesAllocated := bytesAllocated + Bytes(n);
    }

    /** Returns a block to the free extents. The allocated byte count becomes min(..., 0) == 0. */
    method Free(r: nat, bytes: nat)
      requires Valid()
      requires r == 0 || Span(r, UnitsFor(bytes, chunkBytes)) !! FreeChunks()
      modifies this
      ensures Valid() && bytesAllocated == 0
      ensures FreeChunks() == if r == 0 then old(FreeChunks()) else old(FreeChunks()) + Span(r, UnitsFor(bytes, chunkBytes))
    {
      FreeExtent(r, UnitsFor(bytes, chunkBytes));
      bytesAllocated := 0;
    }

    /** Adds new storage to the free extents. */
    method AddToFreePool(r: nat, bytes: nat)
      requires Valid()
      requires r == 0 || Span(r, UnitsFor(bytes, chunkBytes)) !! FreeChunks()
      modifies this
      ensures Valid() && bytesAllocated == old(bytesAllocated)
      ensures FreeChunks() == if r == 0 then old(FreeChunks()) else old(FreeChunks()) + Span(r, UnitsFor(bytes, chunkBytes))
    {
      FreeExtent(r, UnitsFor(bytes, chunkBytes));
    }

    /** Freeing a block right after it was allocated restores every extent and the free byte count. */
    method AllocThenFree(bytes: nat) returns (r: nat)
      requires Valid()
      modifies this
      ensures Valid() && ext == old(ext) && bytesFree == old(bytesFree)
    {
      hide TablesIndex, Separated, Covered, Span, Bytes, HashSlot, UnitsFor, TakenFromBest;
      r := Alloc(bytes);
      if r != 0 {
        ghost var between := ext;
        Free(r, bytes);
        TakeThenRelease(old(ext), between, ext, r, UnitsFor(bytes, chunkBytes));
      }
    }

    /** Whatever was done to two allocators, equal free chunks mean equal extents and equal counters. */
    lemma SameFreeChunksSameExtents(that: ExtentAllocator)
      requires Valid() && that.Valid() && chunkBytes == that.chunkBytes
      requires FreeChunks() == that.FreeChunks()
      ensures ext == that.ext && extentCount == that.extentCount && bytesFree == that.bytesFree
    {
      hide Indexes, Separated, Covered;
      Canonical(ext, that.ext);
    }

    lemma CoveredChunks()
      requires Valid()
      ensures FreeChunks() == Covered(ext) && Separated(ext)
    {
      hide TablesIndex, Covered, Separated;
    }

    /** The number of chunks a 64-bit address space has room for. */
    function AddressChunks(): nat
      requires 0 < chunkBytes
    {
      0x1_0000_0000_0000_0000 / chunkBytes
    }

    /**
     Returns the chunks of free extent r from first to last (its whole pages) to the caller and
     keeps the chunks before and after them free.
     */
    method TrimFreeExtent(r: nat, first: nat, last: nat)
      requires Valid() && r in ext && r <= first < last <= r + ext[r]
      modifies this
      ensures Valid() && ext == Trimmed(old(ext), r, first, last)
      ensures FreeChunks() == old(FreeChunks()) - Span(first, last - first)
      ensures Span(first, last - first) <= old(FreeChunks())
      ensures |FreeChunks()| == |old(FreeChunks())| - (last - first)
    {
      hide TablesIndex, Separated, Isolated, Covered, Span, Bytes, HashSlot, UnitsFor, Trimmed;
      ghost var e := ext;
      ZeroIsNotFree(e);
      TrimExtent(e, r, first, last);
      TrimmedChunks(e, r, first, last);
      TrimmedSize(e, r, first, last);
      RemoveExtent(e, r);
      WholeChunks(first - r);
      WholeChunks(r + e[r] - last);
      var end := r + size[r];
      AllocExtent(r);
      if r < first {
        Free(r, Bytes(first - r));
      } else {
        NoChunks(r);
      }
      if last < end {
        Free(last, Bytes(end - last));
      } else {
        NoChunks(last);
      }
      Canonical(ext, Trimmed(e, r, first, last));
    }

    lemma WholeChunks(n: nat)
      requires 0 < chunkBytes
      ensures UnitsFor(Bytes(n), chunkBytes) == n
    {
      Rounding(n, chunkBytes);
    }

    /** Every address of a free chunk, and the address after it, is representable. */
    ghost predicate Addressable()
      requires 0 < chunkBytes
      reads this
    {
      forall c | c in FreeChunks() :: c + 1 < AddressChunks()
    }

    lemma ExtentIsAddressable(r: nat)
      requires Indexed() && Addressable() && r in ext
      ensures 0 < ext[r] && r + ext[r] < AddressChunks()
    {
      hide AddressChunks, Indexes, HashSlot;
      CoversSpan(ext, r);
      var last := r + ext[r] - 1;
      assert last in Span(r, ext[r]);
      assert last in FreeChunks();
    }

    /** The rounded ends of an extent in the buckets searched do not cross, and differ when it holds a page. */
    lemma PageEnds(r: nat, page: nat)
      requires Indexed() && Addressable() && r in ext
      requires 0 < page <= sizeSlots + 1 && SizeSlot(page, sizeSlots) <= SizeSlot(ext[r], sizeSlots)
      ensures CeilTo(r, page) <= FloorTo(r + ext[r], page) < AddressChunks()
      ensures HoldsPage(r, ext[r], page) <==> CeilTo(r, page) < FloorTo(r + ext[r], page)
    {
      hide TablesIndex, HashSlot, SizeSlot, HoldsPage, CeilTo, FloorTo, Addressable, AddressChunks;
      ExtentIsAddressable(r);
      BucketIsLarge(ext[r], page, sizeSlots);
      WholePages(r, ext[r], page);
      FloorFacts(r + ext[r], page);
    }

    /** What the reclaim loop keeps: the regions handed over so far, and the buckets already searched. */
    ghost predicate Reclaiming(rs: seq<Region>, page: nat, before: Extents, slot: nat)
      reads this
    {
      && Valid() && Addressable() && Separated(before)
      && Reclaimed(rs, page, Covered(before), FreeChunks())
      && Longest(rs, page, Covered(before)) && Untouched(ext, before, page)
      && NoPageBelow(ext, page, slot, sizeSlots)
    }

    /** Hands over the whole pages first, ..., last-1 of extent r as the next region. */
    method ReclaimExtent(r: nat, first: nat, last: nat, regions: array<Region>, n: nat, page: nat,
                         ghost before: Extents, ghost slot: nat)
      requires n < regions.Length && 0 < page && Reclaiming(regions[..n], page, before, slot)
      requires r in ext && first == CeilTo(r, page) && last == FloorTo(r + ext[r], page) && first < last
      modifies this, regions
      ensures Reclaiming(regions[..n + 1], page, before, slot)
      ensures regions[n + 1..] == old(regions[n + 1..])
      ensures |FreeChunks()| < |old(FreeChunks())|
    {
      hide TablesIndex, Separated, Covered, Span, Reclaimed, NoPageBelow, Trimmed, CeilTo, FloorTo;
      hide Longest, Untouched, HoldsPage, AddressChunks, WholePageRegion, HashSlot, Bytes, Aligned;
      var x := Region(first, last - first);
      RegionOf(r, first, last, page, slot);
      WholePages(r, ext[r], page);
      RegionIsLongest(regions[..n], r, first, last, page, before);
      regions[n] := x;
      assert regions[..n + 1] == regions[..n] + [x];
      TrimFreeExtent(r, first, last);
      ReclaimRegion(regions[..n], x, page, Covered(before), old(FreeChunks()));
    }

    /** The whole pages inside an extent are a region, and no page is left in the extent without them. */
    lemma RegionOf(r: nat, first: nat, last: nat, page: nat, slot: nat)
      requires 0 < page && 0 < sizeSlots && r in ext && NoPageBelow(ext, page, slot, sizeSlots)
      requires first == CeilTo(r, page) && last == FloorTo(r + ext[r], page) && first < last
      ensures r <= first && last <= r + ext[r] && WholePageRegion(Region(first, last - first), page)
      ensures NoPageBelow(Trimmed(ext, r, first, last), page, slot, sizeSlots)
    {
      hide NoPageBelow, Trimmed, CeilTo, FloorTo, WholePageRegion, Aligned;
      CeilFacts(r, page);
      FloorFacts(r + ext[r], page);
      AlignedGap(first, last, page);
      IsWholePageRegion(first, last, page);
      TrimmedHoldsNoPage(ext, r, first, last, page, slot, sizeSlots);
    }

    lemma RegionIsLongest(rs: seq<Region>, r: nat, first: nat, last: nat, page: nat, before: Extents)
      requires 0 < page && Separated(before) && Longest(rs, page, Covered(before)) && Untouched(ext, before, page)
      requires r in ext && HoldsPage(r, ext[r], page)
      requires first == CeilTo(r, page) && last == FloorTo(r + ext[r], page) && first < last
      ensures Longest(rs + [Region(first, last - first)], page, Covered(before))
      ensures Untouched(Trimmed(ext, r, first, last), before, page)
    {
      hide Longest, Separated, Covered, CeilTo, FloorTo, Trimmed, HoldsPage;
      CeilFacts(r, page);
      FloorFacts(r + ext[r], page);
      LongestRegion(rs, before, r, first, last, page);
      StillUntouched(ext, before, r, first, last, page);
    }

    /**
     Hands whole free pages over to the caller, as many regions as fit in the array. If there
     was room left, no free extent holds a whole page any more.
     */
    method ReclaimUnusedExtents(regions: array<Region>, page: nat) returns (n: nat)
      requires Valid() && Addressable()
      requires 0 < page <= sizeSlots + 1
      modifies this, regions
      ensures Valid() && Addressable()
      ensures n <= regions.Length && regions[n..] == old(regions[n..])
      ensures Reclaimed(regions[..n], page, old(FreeChunks()), FreeChunks())
      ensures Longest(regions[..n], page, old(FreeChunks()))
      ensures n < regions.Length ==> forall x | x in ext :: !HoldsPage(x, ext[x], page)
    {
      hide TablesIndex, Separated, Covered, Span, Bytes, HashSlot, SizeKeys, Holds;
      hide AddressChunks, Reclaimed, NoPageBelow, SizeSlot, HoldsPage, CeilTo, FloorTo, Addressable, Scanned, Longest, Untouched;
      n := 0;
      SmallBucketsHoldNoPage(ext, page, sizeSlots);
      NothingReclaimed(page, FreeChunks());
      NothingTouched(ext, page);
      assert regions[..0] == [];
      var i := SizeSlot(page, sizeSlots);
      while i < sizeSlots
        invariant SizeSlot(page, sizeSlots) <= i <= sizeSlots
        invariant n <= regions.Length && regions[n..] == old(regions[n..])
        invariant Reclaiming(regions[..n], page, old(ext), i)
      {
        var list := bySize[i];
        var k := 0;
        NoneScanned(list, ext, page);
        while k < |list|
          invariant n <= regions.Length && regions[n..] == old(regions[n..])
          invariant Reclaiming(regions[..n], page, old(ext), i)
          invariant k <= |list| && list == bySize[i]
          invariant Scanned(list, k, ext, page)
          decreases |FreeChunks()|, |list| - k
        {
          SizeBucket(i);
          var r := list[k];
          var end := r + size[r];
          PageEnds(r, page);
          var first, last := CeilTo(r, page), FloorTo(end, page);
          if WrapSub(last, first, AddressChunks()) == 0 {
            NextScanned(list, k, ext, page);
            k := k + 1;
          } else {
            if n == regions.Length {
              return;
            }
            ReclaimExtent(r, first, last, regions, n, page, old(ext), i);
            n := n + 1;
            list := bySize[i];
            k := 0;
            NoneScanned(list, ext, page);
          }
        }
        SizeBucket(i);
        NextBucket(list, ext, page, i, sizeSlots);
        i := i + 1;
      }
      AllBuckets(ext, page, sizeSlots);
    }

    /** Bytes in the largest size bucket in use: exact for extents below the last bucket, a lower bound there. */
    method LargestFreeExtentBytes() returns (bytes: nat)
      requires Valid()
      ensures forall x | x in ext :: Bytes(SizeSlot(ext[x], sizeSlots) + 1) <= bytes
      ensures ext == map[] ==> bytes == 0
      ensures ext != map[] ==> exists x :: x in ext && bytes == Bytes(SizeSlot(ext[x], sizeSlots) + 1)
    {
      hide TablesIndex, Separated, Covered, Bytes, HashSlot, SizeKeys, SizeSlot, Holds;
      var i := sizeSlots;
      while 0 < i
        invariant i <= sizeSlots
        invariant forall x | x in ext :: SizeSlot(ext[x], sizeSlots) < i
      {
        i := i - 1;
        SizeBucket(i);
        SizeBucketIsComplete(i);
        if bySize[i] != [] {
          var r := bySize[i][0];
          forall x | x in ext
            ensures Bytes(SizeSlot(ext[x], sizeSlots) + 1) <= Bytes(i + 1)
          {
            MoreBytes(SizeSlot(ext[x], sizeSlots) + 1, i + 1);
          }
          assert r in ext;
          return Bytes(i + 1);
        }
      }
      if x :| x in ext {
        assert false;
      }
      return 0;
    }

    lemma MoreBytes(m: nat, n: nat)
      requires m <= n
      ensures Bytes(m) <= Bytes(n)
    {
      BytesSum(m, n - m);
    }

    /** Adds up the sizes of the listed extents; the running count always agrees with the sum. */
    method TotalFreeBytes() returns (bytes: int, warning: bool)
      requires Valid()
      ensures bytes == Bytes(|FreeChunks()|) && !warning
    {
      hide TablesIndex, Separated, Covered, Bytes, HashSlot, SizeKeys, SizeSlot, Holds, Counted, CountedBytes, Lists;
      var total := 0;
      ghost var seen: Extents := map[];
      NothingCounted();
      var i := 0;
      while i < sizeSlots
        invariant i <= sizeSlots
        invariant Counted(seen, i, [])
        invariant total == CountedBytes(seen)
      {
        var list := bySize[i];
        SizeBucket(i);
        var k := 0;
        while k < |list|
          invariant k <= |list|
          invariant Counted(seen, i, list[..k])
          invariant total == CountedBytes(seen)
        {
          var r := list[k];
          CountNext(seen, i, list, k);
          seen := seen[r := ext[r]];
          total := total + Bytes(size[r]);
          k := k + 1;
        }
        CountedBucket(seen, i, list);
        i := i + 1;
      }
      AllCounted(seen);
      return bytesFree, total != bytesFree;
    }

    ghost function CountedBytes(seen: Extents): nat {
      Bytes(|Covered(seen)|)
    }

    /** The extents seen are those of the buckets below slot, and those listed. */
    ghost predicate Counted(seen: Extents, slot: nat, listed: seq<nat>)
      requires 0 < sizeSlots
      reads this
    {
      && Separated(seen)
      && (forall x | x in seen :: x in ext && seen[x] == ext[x])
      && (forall x | x in ext :: x in seen <==> SizeSlot(ext[x], sizeSlots) < slot || x in listed)
    }

    lemma NothingCounted()
      requires 0 < sizeSlots
      ensures Counted(map[], 0, []) && Lists([], map[]) && CountedBytes(map[]) == 0
    {
      assert Covered(map[]) == {};
    }

    lemma CountNext(seen: Extents, slot: nat, list: seq<nat>, k: nat)
      requires Indexed() && k < |list| && Counted(seen, slot, list[..k])
      requires slot < sizeSlots && Holds(list, SizeKeys(ext, sizeSlots), slot)
      ensures list[k] in ext && list[k] !in seen
      ensures Counted(seen[list[k] := ext[list[k]]], slot, list[..k + 1])
      ensures CountedBytes(seen[list[k] := ext[list[k]]]) == CountedBytes(seen) + Bytes(ext[list[k]])
    {
      hide TablesIndex, Covered, SizeKeys, SizeSlot, Holds, Bytes;
      ListedSizes(list, sizeSlots, ext, slot);
      ListedOnce(list, SizeKeys(ext, sizeSlots), slot, k);
      var r := list[k];
      assert list[..k + 1] == list[..k] + [r];
      assert Isolated(seen, r, ext[r]);
      AddExtent(seen, r, ext[r]);
      BytesSum(|Covered(seen)|, ext[r]);
    }

    lemma CountedBucket(seen: Extents, slot: nat, list: seq<nat>)
      requires 0 < sizeSlots && Counted(seen, slot, list[..|list|])
      requires Holds(list, SizeKeys(ext, sizeSlots), slot)
      ensures Counted(seen, slot + 1, [])
    {
      hide SizeKeys, SizeSlot, Holds, Separated;
      ListedSizes(list, sizeSlots, ext, slot);
      assert list[..|list|] == list;
      forall x | x in ext
        ensures x in list ==> SizeSlot(ext[x], sizeSlots) == slot
      {
        if x in list {
          var j :| 0 <= j < |list| && list[j] == x;
        }
      }
    }

    lemma AllCounted(seen: Extents)
      requires 0 < sizeSlots && Counted(seen, sizeSlots, [])
      ensures seen == ext && CountedBytes(seen) == Bytes(|FreeChunks()|)
    {
      hide Separated;
    }

    ghost predicate Lists(all: seq<nat>, seen: Extents) {
      Distinct(all) && |all| == |seen| && forall x :: x in all <==> x in seen
    }

    lemma ListNext(all: seq<nat>, seen: Extents, r: nat)
      requires r in ext && r !in seen && Lists(all, seen)
      ensures Lists(all + [r], seen[r := ext[r]])
    {
      DistinctAppend(all, r);
      assert seen[r := ext[r]].Keys == seen.Keys + {r};
    }

    lemma ListSize(all: seq<nat>, seen: Extents)
      requires Lists(all, seen)
      ensures |all| == |seen|
    {
    }

    lemma CountBelowAll(seen: Extents, r: nat)
      requires r in ext && r !in seen && forall x | x in seen :: x in ext
      ensures |seen| < |ext|
    {
      SubsetSize(seen.Keys + {r}, ext.Keys);
    }

    /** Collects the first chunks of all listed extents; their number never exceeds the extent count. */
    method CollectExtents() returns (ok: bool, all: seq<nat>)
      requires Valid()
      ensures ok && Lists(all, ext)
    {
      hide TablesIndex, Separated, Covered, Bytes, HashSlot, SizeKeys, SizeSlot, Holds, Counted, CountedBytes, Lists;
      all := [];
      ghost var seen: Extents := map[];
      NothingCounted();
      var i := 0;
      while i < sizeSlots
        invariant i <= sizeSlots
        invariant Counted(seen, i, [])
        invariant Lists(all, seen)
      {
        var list := bySize[i];
        SizeBucket(i);
        var k := 0;
        while k < |list|
          invariant k <= |list|
          invariant Counted(seen, i, list[..k])
          invariant Lists(all, seen)
        {
          var r := list[k];
          CountNext(seen, i, list, k);
          CountedAreFree(seen, i, list[..k]);
          CountBelowAll(seen, r);
          ListSize(all, seen);
          if |all| >= extentCount {
            return false, all;
          }
          ListNext(all, seen, r);
          seen := seen[r := ext[r]];
          all := all + [r];
          k := k + 1;
        }
        CountedBucket(seen, i, list);
        i := i + 1;
      }
      AllCounted(seen);
      return true, all;
    }

    lemma CountedAreFree(seen: Extents, slot: nat, listed: seq<nat>)
      requires 0 < sizeSlots && Counted(seen, slot, listed)
      ensures forall x | x in seen :: x in ext
    {
    }

    /** Compares all pairs of extents for overlap or contact; a valid allocator always passes. */
    method FullValidate() returns (ok: bool)
      requires Valid()
      ensures ok
    {
      hide TablesIndex, Covered, Bytes, HashSlot;
      var all;
      ok, all := CollectExtents();
      if !ok {
        return;
      }
      for i := 0 to extentCount {
        var start := all[i];
        assert start in all;
        var end := start + size[start];
        for j := 0 to extentCount {
          if j != i {
            var rstart := all[j];
            assert rstart in all;
            assert start < rstart || rstart < start;
            var rend := rstart + size[rstart];
            if rstart <= start < rend || rstart <= end < rend {
              return false;
            }
          }
        }
      }
    }
  }
}
