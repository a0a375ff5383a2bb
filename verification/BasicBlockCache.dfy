/**
 The cache of translated basic blocks, found by the address they were translated from, and listed
 under each of the one or two physical pages their code lies on.
 */
module BasicBlockCaching {
  import opened Alignment
  import opened Buckets

  const INVALID_MFN: nat := 0xfff_ffff
  const MAX_URGENCY: int := 65535
  const W64_MAX: nat := 0xffff_ffff_ffff_ffff

  /** Where and in which mode code was translated: its address and the physical pages there and 4095 bytes on. */
  datatype Key = Key(rip: nat, mfnlo: nat, mfnhi: nat, use64: bool, kernel: bool, df: bool)

  datatype Block = Block(key: Key, bytes: nat, refcount: nat, lastused: nat) {
    /** Whether the code goes on in the next page. */
    predicate Crosses() {
      key.rip % PAGE_SIZE + bytes > PAGE_SIZE
    }

    predicate OnPage(mfn: nat) {
      mfn == key.mfnlo || (Crosses() && mfn == key.mfnhi)
    }

    predicate Valid() {
      0 < bytes <= PAGE_SIZE && lastused <= W64_MAX && (Crosses() ==> key.mfnlo != key.mfnhi)
    }
  }

  /** The source's test: the page offset plus the length less one, in whole pages. */
  lemma CrossingTest(b: Block)
    requires b.Valid()
    ensures (b.key.rip % PAGE_SIZE + (b.bytes - 1)) / PAGE_SIZE != 0 <==> b.Crosses()
  {
  }

  type Blocks = map<nat, Block>

  /** The blocks on a page, and who holds the list. */
  datatype PageList = PageList(entries: seq<nat>, refcount: nat)

  type PageLists = map<nat, PageList>

  function KeySlot(k: Key, slots: nat): (slot: nat)
    requires 0 < slots
    ensures slot < slots
  {
    Xor(HashSlot(k.rip, slots), k.mfnlo) % slots
  }

  /** The address and the page both decide the slot. */
  lemma SmallKeySlots(k: Key, slots: nat)
    requires 2 <= slots
    ensures k.mfnlo == 0 && k.rip < slots ==> KeySlot(k, slots) == k.rip
    ensures k.rip == 0 && k.mfnlo < slots ==> KeySlot(k, slots) == k.mfnlo
  {
    XorZero(HashSlot(k.rip, slots));
    ZeroXor(k.mfnlo);
    if k.rip < slots {
      SmallKeys(k.rip, slots);
      QuotientOfLess(k.rip, slots);
    }
    if k.mfnlo < slots {
      QuotientOfLess(k.mfnlo, slots);
    }
  }

  ghost function Slots(blocks: Blocks, slots: nat): map<nat, nat>
    requires 0 < slots
  {
    map b | b in blocks :: KeySlot(blocks[b].key, slots)
  }

  ghost predicate DistinctKeys(blocks: Blocks) {
    forall a, b | a in blocks && b in blocks && blocks[a].key == blocks[b].key :: a == b
  }

  ghost predicate AllValid(blocks: Blocks) {
    forall b | b in blocks :: 0 < b && blocks[b].Valid()
  }

  /** The list of a page has exactly the blocks on it, each once; pages without a list have no blocks. */
  ghost predicate PageListed(blocks: Blocks, pages: PageLists, mfn: nat) {
    if mfn in pages then
      Distinct(pages[mfn].entries) && forall b: nat :: b in pages[mfn].entries <==> b in blocks && blocks[b].OnPage(mfn)
    else
      forall b | b in blocks :: !blocks[b].OnPage(mfn)
  }

  ghost predicate PagesListed(blocks: Blocks, pages: PageLists) {
    forall mfn: nat {:trigger PageListed(blocks, pages, mfn)} :: PageListed(blocks, pages, mfn)
  }

  // ---- Adding and removing a block

  function WithoutEntry(pages: PageLists, mfn: nat, b: nat): PageLists
    requires mfn in pages
  {
    pages[mfn := pages[mfn].(entries := Without(pages[mfn].entries, b))]
  }

  function WithEntry(pages: PageLists, mfn: nat, b: nat): PageLists {
    var list := if mfn in pages then pages[mfn] else PageList([], 0);
    pages[mfn := list.(entries := list.entries + [b])]
  }

  /** The lists without a block on its pages. */
  function WithoutBlock(pages: PageLists, blocks: Blocks, b: nat): (ps: PageLists)
    requires b in blocks && blocks[b].key.mfnlo in pages && (blocks[b].Crosses() ==> blocks[b].key.mfnhi in pages)
    ensures ps.Keys == pages.Keys
  {
    var lo := WithoutEntry(pages, blocks[b].key.mfnlo, b);
    if blocks[b].Crosses() then WithoutEntry(lo, blocks[b].key.mfnhi, b) else lo
  }

  lemma PagesOfBlock(blocks: Blocks, pages: PageLists, b: nat)
    requires PagesListed(blocks, pages) && b in blocks
    ensures blocks[b].key.mfnlo in pages && (blocks[b].Crosses() ==> blocks[b].key.mfnhi in pages)
  {
    assert PageListed(blocks, pages, blocks[b].key.mfnlo);
    assert PageListed(blocks, pages, blocks[b].key.mfnhi);
  }

  lemma RemovedFromPages(blocks: Blocks, pages: PageLists, b: nat)
    requires PagesListed(blocks, pages) && AllValid(blocks) && b in blocks
    requires blocks[b].key.mfnlo in pages && (blocks[b].Crosses() ==> blocks[b].key.mfnhi in pages)
    ensures PagesListed(blocks - {b}, WithoutBlock(pages, blocks, b))
    ensures forall mfn | mfn in pages :: WithoutBlock(pages, blocks, b)[mfn].refcount == pages[mfn].refcount
  {
    hide Without;
    var rest, now := blocks - {b}, WithoutBlock(pages, blocks, b);
    forall mfn: nat
      ensures PageListed(rest, now, mfn)
    {
      assert PageListed(blocks, pages, mfn);
      if mfn in pages {
        WithoutMembers(pages[mfn].entries, b);
      }
    }
  }

  /** The lists with a new block on its pages. */
  function WithBlock(pages: PageLists, b: nat, x: Block): PageLists {
    var lo := WithEntry(pages, x.key.mfnlo, b);
    if x.Crosses() then WithEntry(lo, x.key.mfnhi, b) else lo
  }

  lemma AddedToPages(blocks: Blocks, pages: PageLists, b: nat, x: Block)
    requires PagesListed(blocks, pages) && b !in blocks && x.Valid()
    ensures PagesListed(blocks[b := x], WithBlock(pages, b, x))
  {
    var all, now := blocks[b := x], WithBlock(pages, b, x);
    forall mfn: nat
      ensures PageListed(all, now, mfn)
    {
      assert PageListed(blocks, pages, mfn);
      if mfn in pages && x.OnPage(mfn) {
        DistinctAppend(pages[mfn].entries, b);
      }
    }
  }

  lemma RemovedSlots(blocks: Blocks, slots: nat, b: nat)
    requires 0 < slots
    ensures Slots(blocks - {b}, slots) == Slots(blocks, slots) - {b}
  {
  }

  lemma AddedSlots(blocks: Blocks, slots: nat, b: nat, x: Block)
    requires 0 < slots
    ensures Slots(blocks[b := x], slots) == Slots(blocks, slots)[b := KeySlot(x.key, slots)]
  {
  }

  lemma RemovedKeys(blocks: Blocks, b: nat)
    requires DistinctKeys(blocks) && AllValid(blocks)
    ensures DistinctKeys(blocks - {b}) && AllValid(blocks - {b})
  {
  }

  lemma SlotKeys(blocks: Blocks, slots: nat)
    requires 0 < slots
    ensures Slots(blocks, slots).Keys == blocks.Keys
  {
  }

  lemma AddedBlock(blocks: Blocks, b: nat, x: Block)
    requires DistinctKeys(blocks) && AllValid(blocks) && 0 < b && b !in blocks && x.Valid()
    requires forall y | y in blocks :: blocks[y].key != x.key
    ensures DistinctKeys(blocks[b := x]) && AllValid(blocks[b := x])
  {
  }

  lemma NoMembers(s: seq<nat>)
    ensures (forall b: nat :: b !in s) ==> s == []
  {
    if s != [] {
      assert s[0] in s;
    }
  }

  // ---- Reclaiming by age

  /** The sum of the times of last use. */
  ghost function TotalUse(blocks: Blocks): nat {
    if blocks == map[] then 0
    else
      var b :| b in blocks;
      blocks[b].lastused + TotalUse(blocks - {b})
  }

  /** The sum does not depend on the order. */
  lemma TotalUseOf(blocks: Blocks, b: nat)
    requires b in blocks
    ensures TotalUse(blocks) == blocks[b].lastused + TotalUse(blocks - {b})
  {
    var c :| c in blocks && TotalUse(blocks) == blocks[c].lastused + TotalUse(blocks - {c});
    if c != b {
      TotalUseOf(blocks - {c}, b);
      TotalUseOf(blocks - {b}, c);
      assert blocks - {c} - {b} == blocks - {b} - {c};
    }
  }

  lemma OneMoreUse(blocks: Blocks, b: nat, x: Block)
    requires b !in blocks
    ensures TotalUse(blocks[b := x]) == TotalUse(blocks) + x.lastused
  {
    TotalUseOf(blocks[b := x], b);
    assert blocks[b := x] - {b} == blocks;
  }

  lemma {:induction false} TotalUseAtLeast(blocks: Blocks, least: nat)
    requires forall b | b in blocks :: least <= blocks[b].lastused
    ensures Times(|blocks|, least) <= TotalUse(blocks)
  {
    hide TotalUse, Times;
    if blocks == map[] {
      TimesOf(0, least);
    } else {
      var b :| b in blocks;
      var rest := blocks - {b};
      assert rest.Keys == blocks.Keys - {b};
      TotalUseOf(blocks, b);
      TotalUseAtLeast(rest, least);
      TimesOf(|rest|, least);
    }
  }

  function Times(n: nat, x: nat): nat {
    n * x
  }

  lemma TimesOf(n: nat, x: nat)
    ensures Times(0, x) == 0 && Times(n + 1, x) == Times(n, x) + x
  {
  }

  lemma AverageBound(total: nat, n: nat)
    requires 0 < n
    ensures total < Times(n, total / n + 1)
  {
  }

  /** Some block is no newer than the average. */
  lemma SomeIsOld(blocks: Blocks) returns (b: nat)
    requires blocks != map[]
    ensures b in blocks && blocks[b].lastused <= TotalUse(blocks) / |blocks|
  {
    hide TotalUse, Times;
    var average := TotalUse(blocks) / |blocks|;
    if forall x | x in blocks :: average + 1 <= blocks[x].lastused {
      TotalUseAtLeast(blocks, average + 1);
    }
    AverageBound(TotalUse(blocks), |blocks|);
    b :| b in blocks && blocks[b].lastused <= average;
  }

  predicate Reclaimable(x: Block, threshold: nat) {
    x.refcount == 0 && x.lastused <= threshold
  }

  /** The blocks that stay: those referenced, or used after the threshold. */
  ghost function Kept(blocks: Blocks, threshold: nat): Blocks {
    map b | b in blocks && !Reclaimable(blocks[b], threshold) :: blocks[b]
  }

  /** The average time of last use, or in an emergency no limit. */
  ghost function Threshold(blocks: Blocks, urgency: int): nat
    requires blocks != map[]
  {
    if urgency >= MAX_URGENCY then W64_MAX else TotalUse(blocks) / |blocks|
  }

  /** When no block is referenced, at least one is reclaimed; in an emergency all are. */
  lemma ReclaimMakesProgress(blocks: Blocks, urgency: int)
    requires blocks != map[] && AllValid(blocks) && forall b | b in blocks :: blocks[b].refcount == 0
    ensures |Kept(blocks, Threshold(blocks, urgency))| < |blocks|
    ensures urgency >= MAX_URGENCY ==> Kept(blocks, Threshold(blocks, urgency)) == map[]
  {
    hide TotalUse;
    var b := SomeIsOld(blocks);
    var kept := Kept(blocks, Threshold(blocks, urgency));
    assert b !in kept;
    SubsetSize(kept.Keys, blocks.Keys - {b});
  }

  /** A block stays exactly if it is referenced or, short of an emergency, newer than the average. */
  lemma KeptExactly(blocks: Blocks, urgency: int, b: nat)
    requires b in blocks && AllValid(blocks)
    ensures b in Kept(blocks, Threshold(blocks, urgency)) <==>
              blocks[b].refcount != 0 || (urgency < MAX_URGENCY && TotalUse(blocks) < Times(blocks[b].lastused, |blocks|))
  {
    hide TotalUse;
    assert blocks[b].Valid();
    NewerThanAverage(TotalUse(blocks), |blocks|, blocks[b].lastused);
  }

  lemma NewerThanAverage(total: nat, n: nat, x: nat)
    requires 0 < n
    ensures total / n < x <==> total < Times(x, n)
  {
    var q, r := total / n, total % n;
    assert total == q * n + r;
    if q < x {
      assert (q + 1) * n <= x * n;
    } else {
      assert x * n <= q * n;
    }
  }

  class BasicBlockCache {
    const slots: nat
    var sets: Table          // the hash table of blocks
    var count: int
    var block: Blocks        // the cached blocks
    var pages: PageLists     // the lists of blocks by physical page
    var dirty: set<nat>      // the pages written to since they were last invalidated

    /** The hash table and the page lists hold the same blocks, each where it belongs. */
    ghost predicate Valid()
      reads this
    {
      && 0 < slots && |sets| == slots
      && AllValid(block) && DistinctKeys(block)
      && Indexes(sets, Slots(block, slots))
      && count == |block|
      && PagesListed(block, pages)
    }

    constructor (slots: nat)
      requires 0 < slots
      ensures Valid() && block == map[] && pages == map[] && this.slots == slots
    {
      this.slots := slots;
      sets := seq(slots, _ => []);
      count, block, pages, dirty := 0, map[], map[], {};
    }

    /** The cached block for a key; 0 when there is none. */
    method Get(key: Key) returns (b: nat)
      requires Valid()
      ensures b != 0 ==> b in block && block[b].key == key
      ensures b == 0 ==> forall x | x in block :: block[x].key != key
    {
      hide KeySlot, PagesListed, DistinctKeys;
      var slot := KeySlot(key, slots);
      BucketHolds(sets, Slots(block, slots), slot);
      var list := sets[slot];
      assert forall j | 0 <= j < |list| :: list[j] in list && list[j] in Slots(block, slots);
      assert forall x | x in block && KeySlot(block[x].key, slots) == slot :: x in Slots(block, slots) && x in list;
      var k := 0;
      while k < |list|
        invariant k <= |list|
        invariant forall j | 0 <= j < k :: block[list[j]].key != key
      {
        if block[list[k]].key == key {
          return list[k];
        }
        k := k + 1;
      }
      return 0;
    }

    /** Takes an unreferenced block out of the hash table and off its page lists; refuses a referenced one. */
    method Invalidate(b: nat) returns (ok: bool)
      requires Valid() && b in block
      modifies this
      ensures Valid() && dirty == old(dirty)
      ensures ok <==> old(block)[b].refcount == 0
      ensures block == if ok then old(block) - {b} else old(block)
      ensures pages.Keys == old(pages).Keys && forall mfn | mfn in pages :: pages[mfn].refcount == old(pages)[mfn].refcount
    {
      hide KeySlot, Indexes, PagesListed, DistinctKeys, AllValid, Without;
      if block[b].refcount != 0 {
        return false;
      }
      ghost var was := block;
      PagesOfBlock(block, pages, b);
      RemovedFromPages(block, pages, b);
      RemovedSlots(block, slots, b);
      RemovedKeys(block, b);
      UnlinkedIndexes(sets, Slots(block, slots), b);
      pages := WithoutBlock(pages, block, b);
      sets := Unlinked(sets, b);
      count := count - 1;
      block := block - {b};
      assert block.Keys == was.Keys - {b};
      return true;
    }

    method InvalidateKey(key: Key) returns (ok: bool)
      requires Valid()
      modifies this
      ensures Valid()
      ensures ok <==> forall x | x in old(block) && old(block)[x].key == key :: old(block)[x].refcount == 0
      ensures block == if ok then map x | x in old(block) && old(block)[x].key != key :: old(block)[x] else old(block)
    {
      hide KeySlot, Indexes, PagesListed, AllValid;
      var b := Get(key);
      if b == 0 {
        return true;
      }
      ok := Invalidate(b);
    }

    /** Counts a reference to a block, or one less. */
    method SetRefcount(b: nat, refcount: nat)
      requires Valid() && b in block
      modifies this
      ensures Valid() && block == old(block)[b := old(block)[b].(refcount := refcount)]
      ensures pages == old(pages) && dirty == old(dirty)
    {
      hide KeySlot, Indexes, PageListed;
      SameBlocks(block, pages, slots, b, block[b].(refcount := refcount));
      block := block[b := block[b].(refcount := refcount)];
      assert block.Keys == old(block).Keys;
    }

    static lemma SameBlocks(blocks: Blocks, pages: PageLists, slots: nat, b: nat, x: Block)
      requires b in blocks && x.key == blocks[b].key && x.bytes == blocks[b].bytes
      requires 0 < slots && PagesListed(blocks, pages)
      ensures PagesListed(blocks[b := x], pages) && Slots(blocks[b := x], slots) == Slots(blocks, slots)
    {
      hide KeySlot;
      var now := blocks[b := x];
      forall mfn: nat
        ensures PageListed(now, pages, mfn)
      {
        assert PageListed(blocks, pages, mfn);
        assert forall y | y in blocks :: now[y].OnPage(mfn) == blocks[y].OnPage(mfn);
      }
    }

    /**
     The block for a key: the cached one, or else the one just translated, which is entered in the
     hash table and on the lists of its pages. The new block is placed at address b.
     */
    method Translate(key: Key, b: nat, translated: Block) returns (found: nat)
      requires Valid() && 0 < b && b !in block && translated.Valid() && translated.key == key
      modifies this
      ensures Valid() && found in block && block[found].key == key && dirty == old(dirty)
      ensures (exists x :: x in old(block) && old(block)[x].key == key) ==> block == old(block) && pages == old(pages)
      ensures (forall x | x in old(block) :: old(block)[x].key != key) ==> found == b && block == old(block)[b := translated]
    {
      hide KeySlot, Indexes, PagesListed, DistinctKeys, AllValid, Slots;
      found := Get(key);
      if found != 0 {
        assert block[found].key == key;
        return;
      }
      AddedBlock(block, b, translated);
      AddedToPages(block, pages, b, translated);
      AddedSlots(block, slots, b, translated);
      assert b !in Slots(block, slots) && |sets| == slots by {
        SlotKeys(block, slots);
      }
      AddedIndexes(sets, Slots(block, slots), b, KeySlot(key, slots));
      sets := Added(sets, KeySlot(key, slots), b);
      count := count + 1;
      pages := WithBlock(pages, b, translated);
      block := block[b := translated];
      assert block.Keys == old(block).Keys + {b};
      found := b;
    }

    /** A page list has exactly the cached blocks on its page, each once; all pages of a cached block have lists. */
    lemma OnItsPages(b: nat, mfn: nat)
      requires Valid()
      ensures mfn in pages ==> Distinct(pages[mfn].entries)
      ensures mfn in pages && b in pages[mfn].entries <==>
                b in block && (mfn == block[b].key.mfnlo || (block[b].Crosses() && mfn == block[b].key.mfnhi))
    {
      hide Indexes;
      assert PageListed(block, pages, mfn);
      if b in block {
        PagesOfBlock(block, pages, b);
      }
    }

    /** The blocks but those on a page. */
    ghost function OffPage(blocks: Blocks, mfn: nat): Blocks {
      map b | b in blocks && !blocks[b].OnPage(mfn) :: blocks[b]
    }

    /**
     Takes all blocks on a page out of the cache. It succeeds exactly when the page has a list and
     none of its blocks is referenced; blocks on other pages stay in any case.
     */
    method InvalidatePage(mfn: nat) returns (ok: bool)
      requires Valid()
      modifies this
      ensures Valid() && pages.Keys == old(pages).Keys
      ensures ok <==> mfn != INVALID_MFN && mfn in old(pages)
                      && forall b | b in old(block) && old(block)[b].OnPage(mfn) :: old(block)[b].refcount == 0
      ensures ok ==> block == OffPage(old(block), mfn) && pages[mfn].entries == []
      ensures mfn == INVALID_MFN || mfn !in old(pages) ==> block == old(block)
      ensures OffPage(block, mfn) == OffPage(old(block), mfn) && forall b | b in block :: b in old(block) && block[b] == old(block)[b]
      ensures dirty == if mfn == INVALID_MFN then old(dirty) else old(dirty) - {mfn}
    {
      hide Valid, Block.OnPage;
      if mfn == INVALID_MFN {
        return false;
      }
      ghost var was := block;
      ClearDirty(mfn);
      if mfn !in pages {
        return false;
      }
      OnPageList(mfn);
      ghost var list := pages[mfn].entries;
      assert forall b | b in list :: b in was;
      ok := InvalidateList(pages[mfn].entries);
      assert forall k | 0 <= k < |list| :: list[k] in list;
      if ok {
        OnPageList(mfn);
        NoMembers(pages[mfn].entries);
      }
    }

    method ClearDirty(mfn: nat)
      requires Valid()
      modifies `dirty
      ensures Valid() && dirty == old(dirty) - {mfn}
    {
      dirty := dirty - {mfn};
    }

    /** Invalidates the listed blocks up to the first that is referenced. */
    method InvalidateList(list: seq<nat>) returns (ok: bool)
      requires Valid() && Distinct(list) && forall b | b in list :: b in block
      modifies this
      ensures Valid() && pages.Keys == old(pages).Keys && dirty == old(dirty)
      ensures ok <==> forall b | b in list :: old(block)[b].refcount == 0
      ensures forall b | b in old(block) && b !in list :: b in block
      ensures forall b | b in block :: b in old(block) && block[b] == old(block)[b] && (ok ==> b !in list)
    {
      hide Valid;
      for k := 0 to |list|
        invariant Valid() && pages.Keys == old(pages).Keys && dirty == old(dirty)
        invariant block == map b | b in old(block) && b !in list[..k] :: old(block)[b]
        invariant forall j | 0 <= j < k :: old(block)[list[j]].refcount == 0
      {
        assert list[k] in list && list[k] !in list[..k];
        ok := Invalidate(list[k]);
        assert list[..k + 1] == list[..k] + [list[k]];
        if !ok {
          return false;
        }
      }
      assert list[..|list|] == list;
      return true;
    }

    lemma OnPageList(mfn: nat)
      requires Valid() && mfn in pages
      ensures Distinct(pages[mfn].entries)
      ensures forall b: nat :: b in pages[mfn].entries <==> b in block && block[b].OnPage(mfn)
    {
      hide Indexes;
      assert PageListed(block, pages, mfn);
    }

    // ---- Walks through the hash table

    /** The blocks walked through: those in slots below the given one, and those listed. */
    ghost predicate Walked(seen: Blocks, all: Blocks, slot: nat, listed: seq<nat>)
      requires 0 < slots
    {
      && (forall b | b in seen :: b in all && seen[b] == all[b])
      && (forall b | b in all :: b in seen <==> KeySlot(all[b].key, slots) < slot || b in listed)
    }

    /** The list of a slot holds exactly the blocks with that slot. */
    lemma SlotList(slot: nat)
      requires Valid() && slot < slots
      ensures Distinct(sets[slot])
      ensures forall b :: b in sets[slot] <==> b in block && KeySlot(block[b].key, slots) == slot
    {
      hide KeySlot, PagesListed, DistinctKeys, AllValid;
      BucketHolds(sets, Slots(block, slots), slot);
      assert forall b :: b in Slots(block, slots) <==> b in block;
    }

    lemma WalkOn(seen: Blocks, all: Blocks, slot: nat, list: seq<nat>, k: nat)
      requires 0 < slots && Distinct(list) && k < |list| && Walked(seen, all, slot, list[..k])
      requires forall b | b in list :: b in all && KeySlot(all[b].key, slots) == slot
      ensures list[k] in all && list[k] !in seen
      ensures Walked(seen[list[k] := all[list[k]]], all, slot, list[..k + 1])
    {
      hide KeySlot;
      assert list[k] in list && list[k] !in list[..k];
      assert list[..k + 1] == list[..k] + [list[k]];
    }

    lemma SlotDone(seen: Blocks, all: Blocks, slot: nat, list: seq<nat>)
      requires 0 < slots && Walked(seen, all, slot, list[..|list|])
      requires forall b: nat :: b in list <==> b in all && KeySlot(all[b].key, slots) == slot
      ensures Walked(seen, all, slot + 1, [])
    {
      hide KeySlot;
      assert list[..|list|] == list;
    }

    lemma WalkDone(seen: Blocks, all: Blocks)
      requires 0 < slots && Walked(seen, all, slots, [])
      ensures seen == all
    {
      hide KeySlot;
    }

    lemma WalkStart(all: Blocks)
      requires 0 < slots
      ensures Walked(map[], all, 0, [])
    {
    }

    /** The blocks walked through, their number and the sum of the times of their last use. */
    ghost predicate Scanned(seen: Blocks, slot: nat, listed: seq<nat>, n: nat, total: nat)
      requires 0 < slots
      reads this
    {
      Walked(seen, block, slot, listed) && n == |seen| && total == TotalUse(seen)
    }

    lemma ScanOn(seen: Blocks, slot: nat, list: seq<nat>, k: nat, n: nat, total: nat)
      requires 0 < slots && Distinct(list) && k < |list| && Scanned(seen, slot, list[..k], n, total)
      requires forall b | b in list :: b in block && KeySlot(block[b].key, slots) == slot
      ensures list[k] in block
      ensures Scanned(seen[list[k] := block[list[k]]], slot, list[..k + 1], n + 1, total + block[list[k]].lastused)
    {
      hide KeySlot, Walked, TotalUse;
      var b := list[k];
      WalkOn(seen, block, slot, list, k);
      OneMoreUse(seen, b, block[b]);
      assert seen[b := block[b]].Keys == seen.Keys + {b};
    }

    lemma ScanSlotDone(seen: Blocks, slot: nat, list: seq<nat>, n: nat, total: nat)
      requires 0 < slots && Scanned(seen, slot, list[..|list|], n, total)
      requires forall b: nat :: b in list <==> b in block && KeySlot(block[b].key, slots) == slot
      ensures Scanned(seen, slot + 1, [], n, total)
    {
      hide KeySlot, Walked, TotalUse;
      SlotDone(seen, block, slot, list);
    }

    lemma ScanStart()
      requires 0 < slots
      ensures Scanned(map[], 0, [], 0, 0)
    {
      WalkStart(block);
      NoUse();
    }

    lemma ScanDone(seen: Blocks, n: nat, total: nat)
      requires 0 < slots && Scanned(seen, slots, [], n, total)
      ensures n == |block| && total == TotalUse(block)
    {
      hide KeySlot, Walked, TotalUse;
      WalkDone(seen, block);
    }

    /** The number of cached blocks and the sum of the times of their last use. */
    method Scan() returns (n: nat, total: nat)
      requires Valid()
      ensures n == |block| == count && total == TotalUse(block)
    {
      hide Valid, KeySlot, Scanned, TotalUse, Distinct;
      TableSize();
      n, total := 0, 0;
      ghost var seen: Blocks := map[];
      ScanStart();
      for i := 0 to slots
        invariant Scanned(seen, i, [], n, total)
      {
        var list := sets[i];
        SlotList(i);
        assert list[..0] == [];
        for k := 0 to |list|
          invariant Scanned(seen, i, list[..k], n, total)
        {
          ScanOn(seen, i, list, k, n, total);
          seen := seen[list[k] := block[list[k]]];
          total := total + block[list[k]].lastused;
          n := n + 1;
        }
        ScanSlotDone(seen, i, list, n, total);
      }
      ScanDone(seen, n, total);
    }

    static lemma NoUse()
      ensures TotalUse(map[]) == 0
    {
    }

    /** What is cached when the blocks walked through were reclaimed if possible, and how many were unreferenced. */
    ghost predicate Reclaimed(all: Blocks, seen: Blocks, threshold: nat, slot: nat, listed: seq<nat>, n: nat, now: Blocks)
      requires 0 < slots
    {
      && Walked(seen, all, slot, listed) && n == |Unreferenced(seen)|
      && (forall b | b in now :: b in all && now[b] == all[b])
      && (forall b | b in all :: b in now <==> !(b in seen && Reclaimable(all[b], threshold)))
    }

    lemma ReclaimOn(all: Blocks, seen: Blocks, threshold: nat, slot: nat, list: seq<nat>, k: nat, n: nat, now: Blocks)
      requires 0 < slots && Distinct(list) && k < |list|
      requires Reclaimed(all, seen, threshold, slot, list[..k], n, now)
      requires forall b | b in list :: b in all && KeySlot(all[b].key, slots) == slot
      ensures list[k] in all && list[k] in now && now[list[k]] == all[list[k]]
      ensures Reclaimed(all, seen[list[k] := all[list[k]]], threshold, slot, list[..k + 1],
                        if all[list[k]].refcount == 0 then n + 1 else n,
                        if Reclaimable(all[list[k]], threshold) then now - {list[k]} else now)
    {
      hide KeySlot, Walked, Reclaimable, Unreferenced;
      WalkOn(seen, all, slot, list, k);
      Counts(seen, list[k], all[list[k]]);
    }

    lemma ReclaimSlotDone(all: Blocks, seen: Blocks, threshold: nat, slot: nat, list: seq<nat>, n: nat, now: Blocks)
      requires 0 < slots && Reclaimed(all, seen, threshold, slot, list[..|list|], n, now)
      requires forall b: nat :: b in list <==> b in all && KeySlot(all[b].key, slots) == slot
      ensures Reclaimed(all, seen, threshold, slot + 1, [], n, now)
    {
      hide KeySlot, Walked;
      SlotDone(seen, all, slot, list);
    }

    lemma ReclaimStart(all: Blocks, threshold: nat)
      requires 0 < slots
      ensures Reclaimed(all, map[], threshold, 0, [], 0, all)
    {
      WalkStart(all);
    }

    lemma ReclaimDone(all: Blocks, seen: Blocks, threshold: nat, n: nat, now: Blocks)
      requires 0 < slots && Reclaimed(all, seen, threshold, slots, [], n, now)
      ensures now == Kept(all, threshold) && n == |Unreferenced(all)|
    {
      hide KeySlot, Walked, Reclaimable, Unreferenced;
      WalkDone(seen, all);
    }

    /** The list of a slot not walked through yet is not affected by the blocks already reclaimed. */
    lemma SlotOf(all: Blocks, seen: Blocks, threshold: nat, slot: nat, n: nat, now: Blocks, list: seq<nat>)
      requires 0 < slots && Reclaimed(all, seen, threshold, slot, [], n, now)
      requires forall b: nat :: b in list <==> b in now && KeySlot(now[b].key, slots) == slot
      ensures forall b: nat :: b in list <==> b in all && KeySlot(all[b].key, slots) == slot
    {
      hide KeySlot;
    }

    /** Takes all unreferenced blocks last used up to the threshold out of the cache; counts the unreferenced ones. */
    method ReclaimOlder(threshold: nat) returns (n: nat)
      requires Valid()
      modifies this
      ensures Valid() && block == Kept(old(block), threshold) && dirty == old(dirty)
      ensures n == |Unreferenced(old(block))| && pages.Keys == old(pages).Keys
    {
      hide KeySlot, Valid, Reclaimed, Distinct, Kept, Unreferenced;
      n := 0;
      ghost var all, seen: Blocks := block, map[];
      TableSize();
      ReclaimStart(all, threshold);
      for i := 0 to slots
        invariant Valid() && Reclaimed(all, seen, threshold, i, [], n, block)
        invariant dirty == old(dirty) && pages.Keys == old(pages).Keys
      {
        TableSize();
        var list := sets[i];
        SlotList(i);
        SlotOf(all, seen, threshold, i, n, block, list);
        assert list[..0] == [];
        for k := 0 to |list|
          invariant Valid() && Reclaimed(all, seen, threshold, i, list[..k], n, block)
          invariant dirty == old(dirty) && pages.Keys == old(pages).Keys
        {
          var b := list[k];
          ReclaimOn(all, seen, threshold, i, list, k, n, block);
          seen := seen[b := all[b]];
          if block[b].refcount == 0 {
            if block[b].lastused <= threshold {
              var ok := Invalidate(b);
            }
            n := n + 1;
          }
        }
        ReclaimSlotDone(all, seen, threshold, i, list, n, block);
      }
      ReclaimDone(all, seen, threshold, n, block);
    }

    lemma TableSize()
      requires Valid()
      ensures |sets| == slots > 0 && count == |block|
    {
    }

    static ghost function Unreferenced(blocks: Blocks): set<nat> {
      set b | b in blocks && blocks[b].refcount == 0
    }

    static lemma Counts(seen: Blocks, b: nat, x: Block)
      requires b !in seen
      ensures |Unreferenced(seen[b := x])| == |Unreferenced(seen)| + if x.refcount == 0 then 1 else 0
    {
      assert Unreferenced(seen[b := x]) == Unreferenced(seen) + if x.refcount == 0 then {b} else {};
    }

    /**
     Makes room: drops all unreferenced blocks not used since the average time of last use, and
     then the lists of the pages that have no blocks left and are not being filled.
     */
    method Reclaim(urgency: int) returns (n: nat)
      requires Valid()
      modifies this
      ensures Valid() && dirty == old(dirty)
      ensures old(block) == map[] ==> n == 0 && pages == old(pages) && block == map[]
      ensures old(block) != map[] ==>
                && block == Kept(old(block), Threshold(old(block), urgency))
                && n == |Unreferenced(old(block))|
                && forall mfn | mfn in pages :: pages[mfn].entries != [] || pages[mfn].refcount != 0
    {
      hide KeySlot, Indexes, PagesListed, AllValid, DistinctKeys, Kept, TotalUse, Unreferenced;
      if count == 0 {
        return 0;
      }
      var m, total := Scan();
      var threshold := if urgency >= MAX_URGENCY then W64_MAX else total / m;
      n := ReclaimOlder(threshold);
      DropEmptyLists();
    }

    method DropEmptyLists()
      requires Valid()
      modifies `pages
      ensures Valid() && forall mfn | mfn in pages :: pages[mfn].entries != [] || pages[mfn].refcount != 0
      ensures forall mfn | mfn in pages :: mfn in old(pages) && pages[mfn] == old(pages)[mfn]
    {
      hide KeySlot, Indexes, AllValid, DistinctKeys;
      ghost var was := pages;
      pages := map mfn | mfn in pages && (pages[mfn].entries != [] || pages[mfn].refcount != 0) :: pages[mfn];
      forall mfn: nat
        ensures PageListed(block, pages, mfn)
      {
        assert PageListed(block, was, mfn);
      }
    }

    /** Empties the cache, when nothing in it is referenced; all page lists are empty by then. */
    method Flush()
      requires Valid() && forall b | b in block :: block[b].refcount == 0
      modifies this
      ensures Valid() && block == map[] && pages == map[]
    {
      hide KeySlot, Indexes, DistinctKeys;
      var n := ReclaimOlder(W64_MAX);
      forall mfn | mfn in pages
        ensures pages[mfn].entries == []
      {
        OnPageList(mfn);
        NoMembers(pages[mfn].entries);
      }
      pages := map[];
    }
  }
}
