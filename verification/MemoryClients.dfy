/**
 Programs that use the memory manager: any sequence of allocations and releases leaves the blocks
 of others alone, and the release of a block after it gives back exactly what the block took.
 */
module MemoryClients {
  import opened Alignment
  import opened FreeExtents
  import opened MemoryManagement

  datatype Request =
    | Allocate(bytes: nat)
    | Release(k: nat) // what the k-th request got, unless that is released already

  /** Objects stay with the slab allocator that issued them, and blocks of the general pool keep their length. */
  ghost predicate Kept(lives: seq<set<nat>>, blocks: Extents, livesNow: seq<set<nat>>, blocksNow: Extents) {
    && |lives| == |livesNow|
    && (forall i | 0 <= i < |lives| :: lives[i] <= livesNow[i])
    && (forall r | r in blocks :: r in blocksNow && blocksNow[r] == blocks[r])
  }

  /** The blocks a program holds; it got no others, or released them. */
  ghost function Held(ptrs: seq<nat>): set<nat> {
    set k | 0 <= k < |ptrs| && ptrs[k] != 0 :: ptrs[k]
  }

  ghost predicate HeldOnce(ptrs: seq<nat>) {
    forall j, k | 0 <= j < k < |ptrs| && ptrs[j] != 0 :: ptrs[j] != ptrs[k]
  }

  lemma HoldsMore(ptrs: seq<nat>, p: nat)
    requires HeldOnce(ptrs) && p !in Held(ptrs)
    ensures HeldOnce(ptrs + [p]) && Held(ptrs + [p]) == if p == 0 then Held(ptrs) else Held(ptrs) + {p}
  {
    var more := ptrs + [p];
    forall q
      ensures q in Held(more) <==> q in Held(ptrs) || (q == p && p != 0)
    {
      if q in Held(ptrs) {
        var k :| 0 <= k < |ptrs| && ptrs[k] != 0 && ptrs[k] == q;
        assert more[k] == q;
      }
      assert more[|ptrs|] == p;
    }
    forall j, k | 0 <= j < k < |more| && more[j] != 0
      ensures more[j] != more[k]
    {
      assert more[j] in Held(ptrs);
    }
  }

  lemma HoldsLess(ptrs: seq<nat>, k: nat)
    requires HeldOnce(ptrs) && k < |ptrs| && ptrs[k] != 0
    ensures ptrs[k] in Held(ptrs)
    ensures HeldOnce(ptrs[k := 0]) && Held(ptrs[k := 0]) == Held(ptrs) - {ptrs[k]}
  {
    var less := ptrs[k := 0];
    forall q
      ensures q in Held(less) <==> q in Held(ptrs) && q != ptrs[k]
    {
      if q in Held(ptrs) && q != ptrs[k] {
        var j :| 0 <= j < |ptrs| && ptrs[j] != 0 && ptrs[j] == q;
        assert less[j] == q;
      }
    }
  }

  /** The addresses of the blocks of both kinds. */
  ghost function Addresses(lives: seq<set<nat>>, blocks: Extents): set<nat> {
    MemoryManager.Union(lives) + set r | r in blocks :: UserAddress(r)
  }

  lemma LiveAddresses(m: MemoryManager)
    ensures m.Live() == Addresses(m.Lives(), m.blocks)
    ensures Kept(m.Lives(), m.blocks, m.Lives(), m.blocks)
    ensures Held([]) == {} && HeldOnce([])
  {
    hide MemoryManager.Lives, MemoryManager.Union, UserAddress;
  }

  /** Allocates for a program that must not touch the given blocks. */
  method ServeAllocate(m: MemoryManager, bytes: nat, ghost lives: seq<set<nat>>, ghost blocks: Extents) returns (p: nat)
    requires m.Valid() && Kept(lives, blocks, m.Lives(), m.blocks)
    modifies m, m.pages, m.pagealloc, m.genalloc, m.slabs
    ensures m.Valid() && Kept(lives, blocks, m.Lives(), m.blocks)
    ensures p == 0 ==> m.Live() == old(m.Live())
    ensures p != 0 ==> p !in old(m.Live()) && m.Live() == old(m.Live()) + {p}
  {
    hide MemoryManager.Valid, MemoryManager.Live, MemoryManager.Lives, MemoryManager.HasRoom, MemoryManager.SlotOf;
    hide MemoryManager.BlockOf, MemoryManager.BlockSize, UnitsFor, UserAddress;
    p := m.Alloc(bytes);
  }

  /** Releases a block for a program that must not touch the given blocks, of which it is none. */
  method ServeRelease(m: MemoryManager, p: nat, ghost lives: seq<set<nat>>, ghost blocks: Extents)
    requires m.Valid() && Kept(lives, blocks, m.Lives(), m.blocks)
    requires p in m.Live() && p !in Addresses(lives, blocks)
    modifies m, m.pages, m.pagealloc, m.genalloc, m.slabs
    ensures m.Valid() && Kept(lives, blocks, m.Lives(), m.blocks)
    ensures m.Live() == old(m.Live()) - {p}
  {
    hide MemoryManager.Valid, MemoryManager.Lives, UserAddress, MemoryManager.LiveObjects, MemoryManager.LiveBlocks;
    ghost var was, wasBlocks := m.Lives(), m.blocks;
    LivesAre(m);
    m.IssuerIsKnown(p);
    m.Free(p);
    LivesAre(m);
    NotAmong(lives, blocks, p);
    forall i | 0 <= i < |lives|
      ensures lives[i] <= m.Lives()[i]
    {
      assert lives[i] <= was[i];
    }
  }

  lemma LivesAre(m: MemoryManager)
    ensures |m.Lives()| == |m.slabs| && forall i | 0 <= i < |m.slabs| :: m.Lives()[i] == m.slabs[i].live
    ensures m.Live() == m.LiveObjects() + m.LiveBlocks()
  {
  }

  lemma NotAmong(lives: seq<set<nat>>, blocks: Extents, p: nat)
    requires p !in Addresses(lives, blocks)
    ensures forall i | 0 <= i < |lives| :: p !in lives[i]
    ensures forall r | r in blocks :: UserAddress(r) != p
  {
    hide UserAddress;
  }

  /**
   Serves a program's requests. All blocks that were live before stay live, with their allocator
   and their length; the others now live are those the program holds.
   */
  method Serve(m: MemoryManager, requests: seq<Request>) returns (ptrs: seq<nat>)
    requires m.Valid()
    modifies m, m.pages, m.pagealloc, m.genalloc, m.slabs
    ensures m.Valid() && |ptrs| == |requests|
    ensures Kept(old(m.Lives()), old(m.blocks), m.Lives(), m.blocks)
    ensures HeldOnce(ptrs) && Held(ptrs) !! old(m.Live()) && m.Live() == old(m.Live()) + Held(ptrs)
  {
    hide MemoryManager.Valid, MemoryManager.Live, MemoryManager.Lives, Kept, Held, HeldOnce, Addresses;
    ghost var lives, blocks, live := m.Lives(), m.blocks, m.Live();
    LiveAddresses(m);
    ptrs := [];
    for i := 0 to |requests|
      invariant m.Valid() && |ptrs| == i
      invariant Kept(lives, blocks, m.Lives(), m.blocks)
      invariant HeldOnce(ptrs) && Held(ptrs) !! live && m.Live() == live + Held(ptrs)
    {
      NoneHeld(ptrs);
      match requests[i]
      case Allocate(bytes) =>
        var p := ServeAllocate(m, bytes, lives, blocks);
        HoldsMore(ptrs, p);
        ptrs := ptrs + [p];
      case Release(k) =>
        if k < i && ptrs[k] != 0 {
          HoldsLess(ptrs, k);
          ServeRelease(m, ptrs[k], lives, blocks);
          ptrs := ptrs[k := 0];
        }
        NoneHeld(ptrs);
        HoldsMore(ptrs, 0);
        ptrs := ptrs + [0];
    }
  }

  lemma NoneHeld(ptrs: seq<nat>)
    ensures 0 !in Held(ptrs)
  {
  }

  /** Releasing an object that was kept since it was issued takes it from the slab allocator for its size only. */
  method FreeKeptObject(m: MemoryManager, p: nat, i: nat, ghost lives: seq<set<nat>>, ghost blocks: Extents)
    requires m.Valid() && Kept(lives, blocks, m.Lives(), m.blocks) && i < |lives| && p in lives[i]
    modifies m, m.pages, m.pagealloc, m.genalloc, m.slabs
    ensures m.Valid() && old(p in m.Lives()[i]) && m.Lives() == old(m.Lives())[i := old(m.Lives())[i] - {p}]
    ensures m.blocks == old(m.blocks) && m.genalloc.FreeChunks() == old(m.genalloc.FreeChunks())
    ensures m.Live() == old(m.Live()) - {p}
  {
    hide MemoryManager.Valid, MemoryManager.Lives, UserAddress, MemoryManager.LiveObjects, MemoryManager.LiveBlocks;
    hide ExtentAllocation.ExtentAllocator.FreeChunks, Span;
    LivesAre(m);
    m.InLive(i, p);
    m.OneIssuer(i, p);
    ghost var was := m.Lives();
    m.Free(p);
    LivesAre(m);
    forall j | 0 <= j < |was|
      ensures m.Lives()[j] == was[i := was[i] - {p}][j]
    {
      assert j != i ==> p !in was[j];
    }
  }

  /** Releasing a block of the general pool that was kept gives back exactly the chunks it was issued. */
  method FreeKeptBlock(m: MemoryManager, r: nat, ghost lives: seq<set<nat>>, ghost blocks: Extents)
    requires m.Valid() && Kept(lives, blocks, m.Lives(), m.blocks) && r in blocks
    modifies m, m.pages, m.pagealloc, m.genalloc, m.slabs
    ensures m.Valid() && m.Lives() == old(m.Lives()) && m.blocks == old(m.blocks) - {r}
    ensures m.genalloc.FreeChunks() == old(m.genalloc.FreeChunks()) + Span(r, blocks[r])
    ensures |m.genalloc.FreeChunks()| == |old(m.genalloc.FreeChunks())| + blocks[r]
    ensures m.Live() == old(m.Live()) - {UserAddress(r)}
  {
    hide MemoryManager.Valid, MemoryManager.Lives, UserAddress, MemoryManager.LiveObjects;
    hide ExtentAllocation.ExtentAllocator.FreeChunks, Span;
    LivesAre(m);
    var p := UserAddress(r);
    m.NewBlock(r);
    m.IssuerIsKnown(p);
    ghost var was := m.Lives();
    m.Free(p);
    LivesAre(m);
    forall j | 0 <= j < |was|
      ensures m.Lives()[j] == was[j]
    {
      assert p !in was[j];
    }
  }

  lemma KeptTwice(a: seq<set<nat>>, aBlocks: Extents, b: seq<set<nat>>, bBlocks: Extents, c: seq<set<nat>>, cBlocks: Extents)
    requires Kept(a, aBlocks, b, bBlocks) && Kept(b, bBlocks, c, cBlocks)
    ensures Kept(a, aBlocks, c, cBlocks)
  {
  }

  /** What was kept stays kept when a block goes that was issued since. */
  lemma KeptWithout(a: seq<set<nat>>, aBlocks: Extents, b: seq<set<nat>>, bBlocks: Extents)
    requires Kept(a, aBlocks, b, bBlocks)
    ensures forall i, p | 0 <= i < |a| && p !in a[i] :: Kept(a, aBlocks, b[i := b[i] - {p}], bBlocks)
    ensures forall r | r !in aBlocks :: Kept(a, aBlocks, b, bBlocks - {r})
  {
  }

  /**
   Whatever is allocated and released between the allocation of a block of the general pool and
   its release, it gives back exactly the chunks it took, and no other block is touched.
   */
  method UseBlock(m: MemoryManager, bytes: nat, requests: seq<Request>) returns (p: nat, ptrs: seq<nat>, ghost free: set<nat>)
    requires m.Valid() && SLAB_ALLOC_LARGE_OBJ_THRESH < bytes
    modifies m, m.pages, m.pagealloc, m.genalloc, m.slabs
    ensures m.Valid() && (p != 0 ==> Kept(old(m.Lives()), old(m.blocks), m.Lives(), m.blocks))
    ensures m.Live() == old(m.Live()) + Held(ptrs)
    ensures p != 0 ==>
              var n := UnitsFor(MemoryManager.BlockSize(bytes), GEN_ALLOC_GRANULARITY);
              && m.genalloc.FreeChunks() == free + Span(MemoryManager.BlockOf(p), n)
              && |m.genalloc.FreeChunks()| == |free| + n
  {
    hide MemoryManager.Valid, MemoryManager.Lives, MemoryManager.Live, UserAddress, MemoryManager.LiveObjects;
    hide MemoryManager.LiveBlocks;
    hide MemoryManager.BlockOf, MemoryManager.BlockSize, UnitsFor, ExtentAllocation.ExtentAllocator.FreeChunks;
    hide Span, Kept, Held, HeldOnce;
    hide MemoryManager.HasRoom, MemoryManager.SlotOf;
    LiveAddresses(m);
    ptrs, free := [], {};
    p := IssueBlock(m, bytes);
    if p == 0 {
      return;
    }
    ghost var lives, blocks := m.Lives(), m.blocks;
    ptrs := Serve(m, requests);
    free := m.genalloc.FreeChunks();
    ghost var livesThen, blocksThen := m.Lives(), m.blocks;
    KeptTwice(old(m.Lives()), old(m.blocks), lives, blocks, livesThen, blocksThen);
    FreeKeptBlock(m, MemoryManager.BlockOf(p), lives, blocks);
    KeptWithout(old(m.Lives()), old(m.blocks), livesThen, blocksThen);
  }

  method IssueBlock(m: MemoryManager, bytes: nat) returns (p: nat)
    requires m.Valid() && SLAB_ALLOC_LARGE_OBJ_THRESH < bytes
    modifies m, m.pages, m.pagealloc, m.genalloc, m.slabs
    ensures m.Valid() && Kept(old(m.Lives()), old(m.blocks), m.Lives(), m.blocks)
    ensures m.Live() == old(m.Live()) + (if p == 0 then {} else {p}) && (p != 0 ==> p !in old(m.Live()))
    ensures p != 0 ==>
              && p == UserAddress(MemoryManager.BlockOf(p)) && MemoryManager.BlockOf(p) !in old(m.blocks)
              && MemoryManager.BlockOf(p) in m.blocks
              && m.blocks[MemoryManager.BlockOf(p)] == UnitsFor(MemoryManager.BlockSize(bytes), GEN_ALLOC_GRANULARITY)
  {
    hide MemoryManager.Valid, MemoryManager.Lives, MemoryManager.Live, MemoryManager.HasRoom;
    hide MemoryManager.BlockOf, MemoryManager.BlockSize, UnitsFor, UserAddress;
    p := m.Alloc(bytes);
  }

  method IssueObject(m: MemoryManager, bytes: nat) returns (p: nat)
    requires m.Valid() && 0 < bytes <= SLAB_ALLOC_LARGE_OBJ_THRESH
    modifies m, m.pages, m.pagealloc, m.genalloc, m.slabs
    ensures m.Valid() && Kept(old(m.Lives()), old(m.blocks), m.Lives(), m.blocks)
    ensures m.Live() == old(m.Live()) + (if p == 0 then {} else {p}) && (p != 0 ==> p !in old(m.Live()))
    ensures p != 0 ==>
              var i := MemoryManager.SlotOf(bytes);
              && i < |old(m.Lives())| == |m.Lives()|
              && p !in old(m.Lives()[i]) && p in m.Lives()[i]
  {
    hide MemoryManager.Valid, MemoryManager.Lives, MemoryManager.Live, MemoryManager.HasRoom, MemoryManager.SlotOf;
    LivesAre(m);
    LiveAddresses(m);
    ghost var lives, blocks := m.Lives(), m.blocks;
    p := m.Alloc(bytes);
    if p != 0 {
      NotAmong(lives, blocks, p);
    }
  }

  /** The same for an object: it goes back to the slab allocator for its size, and nothing else changes. */
  method UseObject(m: MemoryManager, bytes: nat, requests: seq<Request>)
    returns (p: nat, ptrs: seq<nat>, ghost lives: seq<set<nat>>, ghost free: set<nat>)
    requires m.Valid() && 0 < bytes <= SLAB_ALLOC_LARGE_OBJ_THRESH
    modifies m, m.pages, m.pagealloc, m.genalloc, m.slabs
    ensures m.Valid() && (p != 0 ==> Kept(old(m.Lives()), old(m.blocks), m.Lives(), m.blocks))
    ensures m.Live() == old(m.Live()) + Held(ptrs)
    ensures p != 0 ==>
              var i := MemoryManager.SlotOf(bytes);
              && i < |lives| && p in lives[i] && m.Lives() == lives[i := lives[i] - {p}]
              && m.genalloc.FreeChunks() == free
  {
    hide MemoryManager.Valid, MemoryManager.Lives, MemoryManager.Live, MemoryManager.SlotOf;
    hide ExtentAllocation.ExtentAllocator.FreeChunks, Kept, Held, HeldOnce;
    LiveAddresses(m);
    ptrs, lives, free := [], [], {};
    p := IssueObject(m, bytes);
    if p == 0 {
      return;
    }
    var i := MemoryManager.SlotOf(bytes);
    ghost var issued, blocks := m.Lives(), m.blocks;
    ptrs := Serve(m, requests);
    free, lives := m.genalloc.FreeChunks(), m.Lives();
    ghost var blocksThen := m.blocks;
    KeptTwice(old(m.Lives()), old(m.blocks), issued, blocks, lives, blocksThen);
    FreeKeptObject(m, p, i, issued, blocks);
    KeptWithout(old(m.Lives()), old(m.blocks), lives, blocksThen);
  }
}
