/**
 The slab allocator: pages cut into objects of one size. Every page is on exactly one of three
 lists, according to how many of its objects are free, and keeps a list of its free objects.
 Addresses are in bytes; pages are page numbers.
 */
module SlabAllocation {
  import opened Alignment
  import opened Buckets
  import opened ExtentAllocation
  import opened FreeExtents

  const PAGE_HEADER_SIZE: nat := 32
  const FREE_PAGE_HI_THRESH := 4
  const FREE_PAGE_LO_THRESH := 1

  /** The page bitmap and the allocator field of the page headers, shared by all slab allocators. */
  class PageMap {
    var isSlab: set<nat>
    var allocator: map<nat, nat>

    constructor ()
      ensures isSlab == {} && allocator == map[]
    {
      isSlab, allocator := {}, map[];
    }
  }

  function PageOf(address: nat): nat {
    address / PAGE_SIZE
  }

  function ObjectAt(page: nat, i: nat, size: nat): nat {
    page * PAGE_SIZE + i * size
  }

  predicate IsObject(a: nat, page: nat, size: nat, count: nat) {
    exists i: nat | i < count :: a == ObjectAt(page, i, size)
  }

  /** The addresses of the objects of a page. */
  function Objects(page: nat, size: nat, count: nat): (s: set<nat>)
    ensures forall a: nat :: a in s <==> IsObject(a, page, size, count)
  {
    set i: nat | i < count :: ObjectAt(page, i, size)
  }

  lemma Steps(i: nat, j: nat, size: nat)
    requires i < j
    ensures i * size + size <= j * size
  {
    assert (i + 1) * size <= j * size;
  }

  /** Objects lie inside their page, in front of its header. */
  lemma ObjectInPage(a: nat, page: nat, size: nat, count: nat)
    requires a in Objects(page, size, count) && count * size <= PAGE_SIZE - PAGE_HEADER_SIZE
    ensures page * PAGE_SIZE <= a && a + size <= page * PAGE_SIZE + PAGE_SIZE - PAGE_HEADER_SIZE
    ensures 0 < size ==> PageOf(a) == page
  {
    var i: nat :| i < count && a == ObjectAt(page, i, size);
    Steps(i, count, size);
  }

  /** Distinct objects of a page do not overlap. */
  lemma ObjectsApart(a: nat, b: nat, page: nat, size: nat, count: nat)
    requires a in Objects(page, size, count) && b in Objects(page, size, count) && a < b
    ensures a + size <= b
  {
    var i: nat :| i < count && a == ObjectAt(page, i, size);
    var j: nat :| j < count && b == ObjectAt(page, j, size);
    if i < j {
      Steps(i, j, size);
    } else if j < i {
      Steps(j, i, size);
    }
  }

  lemma ObjectCount(page: nat, size: nat, count: nat)
    requires 0 < size
    ensures |Objects(page, size, count)| == count
  {
    if count == 0 {
      assert Objects(page, size, count) == {};
    } else {
      ObjectCount(page, size, count - 1);
      var last := ObjectAt(page, count - 1, size);
      forall i: nat | i < count - 1
        ensures ObjectAt(page, i, size) != last
      {
        Steps(i, count - 1, size);
      }
      assert Objects(page, size, count) == Objects(page, size, count - 1) + {last};
    }
  }

  // ---- Lists of free objects

  /** The list holds the objects that are not live, each once. */
  ghost predicate FreeObjects(list: seq<nat>, objects: set<nat>, live: set<nat>) {
    Distinct(list) && forall a :: a in list <==> a in objects && a !in live
  }

  lemma DistinctSize(s: seq<nat>, members: set<nat>)
    requires Distinct(s) && forall a :: a in s <==> a in members
    ensures |s| == |members|
  {
    if s == [] {
      assert members <= {};
    } else {
      assert s == [s[0]] + s[1..];
      assert s[0] !in s[1..];
      DistinctSize(s[1..], members - {s[0]});
    }
  }

  /** A page is free when none of its objects is live, and full when all are. */
  lemma FreeObjectCount(list: seq<nat>, objects: set<nat>, live: set<nat>)
    requires FreeObjects(list, objects, live)
    ensures |list| <= |objects|
    ensures |list| == |objects| <==> objects !! live
    ensures list == [] <==> objects <= live
  {
    DistinctSize(list, objects - live);
    if objects !! live {
      assert objects - live == objects;
    } else {
      var a :| a in objects && a in live;
      SubsetSize(objects - live, objects - {a});
    }
    if list == [] {
      forall a | a in objects
        ensures a in live
      {
        assert a !in list;
      }
    }
    if list != [] {
      assert list[0] in list;
    }
  }

  lemma TakeFirst(list: seq<nat>, objects: set<nat>, live: set<nat>)
    requires FreeObjects(list, objects, live) && list != []
    ensures list[0] in objects && list[0] !in live
    ensures FreeObjects(list[1..], objects, live + {list[0]})
  {
    assert list == [list[0]] + list[1..];
    assert list[0] in list && list[0] !in list[1..];
  }

  lemma PutFirst(list: seq<nat>, objects: set<nat>, live: set<nat>, a: nat)
    requires FreeObjects(list, objects, live) && a in objects && a in live
    ensures FreeObjects([a] + list, objects, live - {a})
  {
    assert a !in list;
  }

  lemma OtherPage(list: seq<nat>, objects: set<nat>, live: set<nat>, a: nat)
    requires FreeObjects(list, objects, live) && a !in objects
    ensures FreeObjects(list, objects, live + {a}) && FreeObjects(list, objects, live - {a})
  {
  }

  lemma CutIsPositive(lists: FreeLists, live: set<nat>, size: nat, count: nat)
    requires Cut(lists, live, size, count)
    ensures 0 < size && 0 < count
  {
  }

  lemma KeysOfLists(lists: FreeLists, count: nat)
    ensures ListKeys(lists, count).Keys == lists.Keys
  {
  }

  type FreeLists = map<nat, seq<nat>>

  /** Each page's list holds its objects that are not live, and every live object is on one of the pages. */
  ghost predicate Cut(lists: FreeLists, live: set<nat>, size: nat, count: nat) {
    && 0 < size && 0 < count && count * size <= PAGE_SIZE - PAGE_HEADER_SIZE
    && (forall p | p in lists :: FreeObjects(lists[p], Objects(p, size, count), live))
    && (forall a | a in live :: PageOf(a) in lists && a in Objects(PageOf(a), size, count))
  }

  lemma CutTake(lists: FreeLists, live: set<nat>, size: nat, count: nat, page: nat)
    requires Cut(lists, live, size, count) && page in lists && lists[page] != []
    ensures lists[page][0] !in live && PageOf(lists[page][0]) == page
    ensures Cut(lists[page := lists[page][1..]], live + {lists[page][0]}, size, count)
  {
    hide FreeObjects, Objects, PageOf;
    var a := lists[page][0];
    TakeFirst(lists[page], Objects(page, size, count), live);
    ObjectInPage(a, page, size, count);
    forall p | p in lists && p != page
      ensures FreeObjects(lists[p], Objects(p, size, count), live + {a})
    {
      OtherObject(a, p, size, count);
      OtherPage(lists[p], Objects(p, size, count), live, a);
    }
  }

  lemma OtherObject(a: nat, page: nat, size: nat, count: nat)
    requires PageOf(a) != page && 0 < size && count * size <= PAGE_SIZE - PAGE_HEADER_SIZE
    ensures a !in Objects(page, size, count)
  {
    hide PageOf, Objects;
    if a in Objects(page, size, count) {
      ObjectInPage(a, page, size, count);
    }
  }

  lemma CutPut(lists: FreeLists, live: set<nat>, size: nat, count: nat, a: nat)
    requires Cut(lists, live, size, count) && a in live
    ensures PageOf(a) in lists && |lists[PageOf(a)]| < count
    ensures Cut(lists[PageOf(a) := [a] + lists[PageOf(a)]], live - {a}, size, count)
  {
    hide FreeObjects, Objects, PageOf;
    var page := PageOf(a);
    PutFirst(lists[page], Objects(page, size, count), live, a);
    FreeObjectCount(lists[page], Objects(page, size, count), live);
    ObjectCount(page, size, count);
    forall p | p in lists && p != page
      ensures FreeObjects(lists[p], Objects(p, size, count), live - {a})
    {
      OtherObject(a, p, size, count);
      OtherPage(lists[p], Objects(p, size, count), live, a);
    }
  }

  lemma CutAdd(lists: FreeLists, live: set<nat>, size: nat, count: nat, page: nat, list: seq<nat>)
    requires Cut(lists, live, size, count) && page !in lists
    requires FreeObjects(list, Objects(page, size, count), {})
    ensures Cut(lists[page := list], live, size, count)
    ensures |list| == count
  {
    hide Objects, PageOf;
    forall a | a in Objects(page, size, count)
      ensures a !in live
    {
      ObjectInPage(a, page, size, count);
    }
    FreeObjectCount(list, Objects(page, size, count), {});
    ObjectCount(page, size, count);
  }

  lemma CutDrop(lists: FreeLists, live: set<nat>, size: nat, count: nat, page: nat)
    requires Cut(lists, live, size, count) && page in lists && |lists[page]| == count
    ensures Cut(lists - {page}, live, size, count)
  {
    hide FreeObjects, Objects, PageOf;
    FreeObjectCount(lists[page], Objects(page, size, count), live);
    ObjectCount(page, size, count);
  }

  // ---- The three lists of pages

  const FREE: nat := 0
  const PARTIAL: nat := 1
  const FULL: nat := 2

  /** The list a page with n of count objects free belongs on. */
  function ListFor(n: nat, count: nat): nat {
    if n == count then FREE else if n == 0 then FULL else PARTIAL
  }

  ghost function ListKeys(lists: FreeLists, count: nat): map<nat, nat> {
    map p | p in lists :: ListFor(|lists[p]|, count)
  }

  /** The pages are listed according to key. */
  ghost predicate Listed(free: seq<nat>, partial: seq<nat>, full: seq<nat>, key: map<nat, nat>) {
    Indexes([free, partial, full], key)
  }

  lemma ListMembers(free: seq<nat>, partial: seq<nat>, full: seq<nat>, key: map<nat, nat>)
    requires Listed(free, partial, full, key)
    ensures forall p :: p in free <==> p in key && key[p] == FREE
    ensures forall p :: p in partial <==> p in key && key[p] == PARTIAL
    ensures forall p :: p in full <==> p in key && key[p] == FULL
    ensures Distinct(free) && Distinct(partial) && Distinct(full)
  {
    BucketHolds([free, partial, full], key, FREE);
    BucketHolds([free, partial, full], key, PARTIAL);
    BucketHolds([free, partial, full], key, FULL);
  }

  lemma UnlinkPage(free: seq<nat>, partial: seq<nat>, full: seq<nat>, key: map<nat, nat>, page: nat)
    requires Listed(free, partial, full, key)
    ensures Listed(Without(free, page), Without(partial, page), Without(full, page), key - {page})
  {
    hide Indexes, Without;
    UnlinkedIndexes([free, partial, full], key, page);
    assert Unlinked([free, partial, full], page) == [Without(free, page), Without(partial, page), Without(full, page)];
  }

  lemma LinkPage(free: seq<nat>, partial: seq<nat>, full: seq<nat>, key: map<nat, nat>, page: nat)
    requires Listed(free, partial, full, key) && page !in key
    ensures Listed([page] + free, partial, full, key[page := FREE])
    ensures Listed(free, [page] + partial, full, key[page := PARTIAL])
    ensures Listed(free, partial, [page] + full, key[page := FULL])
  {
    hide Indexes;
    var t := [free, partial, full];
    AddedIndexes(t, key, page, FREE);
    AddedIndexes(t, key, page, PARTIAL);
    AddedIndexes(t, key, page, FULL);
    assert Added(t, FREE, page) == [[page] + free, partial, full];
    assert Added(t, PARTIAL, page) == [free, [page] + partial, full];
    assert Added(t, FULL, page) == [free, partial, [page] + full];
  }

  /** The counts in the page headers are the lengths of the lists. */
  ghost predicate Counts(lists: FreeLists, counts: map<nat, int>) {
    counts.Keys == lists.Keys && forall p | p in lists :: counts[p] == |lists[p]|
  }

  lemma CountPage(lists: FreeLists, counts: map<nat, int>, page: nat, list: seq<nat>)
    requires Counts(lists, counts)
    ensures page in lists ==> page in counts && counts[page] == |lists[page]|
    ensures Counts(lists[page := list], counts[page := |list|])
    ensures Counts(lists - {page}, counts - {page})
  {
  }

  ghost function Rekey(key: map<nat, nat>, page: nat, list: nat): map<nat, nat> {
    key[page := list]
  }

  /** Moving a page to the head of another list. */
  lemma MovePage(free: seq<nat>, partial: seq<nat>, full: seq<nat>, key: map<nat, nat>, page: nat)
    requires Listed(free, partial, full, key)
    ensures Listed([page] + Without(free, page), Without(partial, page), Without(full, page), Rekey(key, page, FREE))
    ensures Listed(Without(free, page), [page] + Without(partial, page), Without(full, page), Rekey(key, page, PARTIAL))
    ensures Listed(Without(free, page), Without(partial, page), [page] + Without(full, page), Rekey(key, page, FULL))
    ensures |Without(free, page)| == if page in key && key[page] == FREE then |free| - 1 else |free|
  {
    hide Listed, Without;
    ListMembers(free, partial, full, key);
    WithoutSize(free, page);
    UnlinkPage(free, partial, full, key, page);
    LinkPage(Without(free, page), Without(partial, page), Without(full, page), key - {page}, page);
    assert (key - {page})[page := FREE] == Rekey(key, page, FREE);
    assert (key - {page})[page := PARTIAL] == Rekey(key, page, PARTIAL);
    assert (key - {page})[page := FULL] == Rekey(key, page, FULL);
  }

  lemma RekeyedAt(key: map<nat, nat>, page: nat, list: nat)
    ensures page in Rekey(key, page, list) && Rekey(key, page, list)[page] == list
  {
  }

  /** The keys after a page's list of free objects changed. */
  lemma NewKey(lists: FreeLists, count: nat, page: nat, list: seq<nat>, x: nat)
    ensures ListKeys(lists[page := list], count) == Rekey(ListKeys(lists, count), page, ListFor(|list|, count))
    ensures Rekey(Rekey(ListKeys(lists, count), page, x), page, ListFor(|list|, count))
         == Rekey(ListKeys(lists, count), page, ListFor(|list|, count))
  {
  }

  lemma KeyAt(lists: FreeLists, count: nat, page: nat)
    requires page in lists
    ensures page in ListKeys(lists, count) && ListKeys(lists, count)[page] == ListFor(|lists[page]|, count)
    ensures Rekey(ListKeys(lists, count), page, ListFor(|lists[page]|, count)) == ListKeys(lists, count)
  {
  }

  lemma DroppedKey(lists: FreeLists, count: nat, page: nat)
    ensures ListKeys(lists - {page}, count) == ListKeys(lists, count) - {page}
  {
  }

  lemma AddedKey(lists: FreeLists, count: nat, page: nat, list: seq<nat>)
    ensures Rekey(ListKeys(lists[page := list], count), page, PARTIAL) == ListKeys(lists, count)[page := PARTIAL]
  {
  }

  lemma FreeListBound(lists: FreeLists, live: set<nat>, size: nat, count: nat)
    requires Cut(lists, live, size, count)
    ensures forall p | p in lists :: |lists[p]| <= count
  {
    hide FreeObjects, Objects, PageOf;
    forall p | p in lists
      ensures |lists[p]| <= count
    {
      FreeObjectCount(lists[p], Objects(p, size, count), live);
      ObjectCount(p, size, count);
    }
  }

  /** The first page of the partial list, or else of the free list, has a free object. */
  lemma HeadPages(free: seq<nat>, partial: seq<nat>, full: seq<nat>, lists: FreeLists, count: nat)
    requires Listed(free, partial, full, ListKeys(lists, count)) && 0 < count
    ensures partial != [] ==>
              && partial[0] in lists && lists[partial[0]] != []
              && Rekey(ListKeys(lists, count), partial[0], PARTIAL) == ListKeys(lists, count)
              && (free != [] ==> free[0] != partial[0])
    ensures free != [] ==>
              && free[0] in lists && lists[free[0]] != [] && |lists[free[0]]| == count
              && free[0] in ListKeys(lists, count) && ListKeys(lists, count)[free[0]] == FREE
    ensures |free| <= |lists| && forall p | p in free :: p in lists
  {
    hide Listed;
    ListMembers(free, partial, full, ListKeys(lists, count));
    assert partial != [] ==> partial[0] in partial;
    assert free != [] ==> free[0] in free;
    var members := set p | p in free;
    DistinctSize(free, members);
    SubsetSize(members, lists.Keys);
  }

  /** Pages no longer owned were taken off the bitmap and went to the page allocator. */
  ghost predicate HandedBack(was: set<nat>, now: set<nat>, slabWas: set<nat>, slabNow: set<nat>,
                             freeWas: set<nat>, freeNow: set<nat>) {
    && now <= was
    && slabNow == slabWas - (was - now)
    && freeNow == freeWas + (was - now)
  }

  lemma NothingBack(was: set<nat>, slab: set<nat>, free: set<nat>)
    ensures HandedBack(was, was, slab, slab, free, free)
  {
  }

  lemma PageBack(was: set<nat>, now: set<nat>, slabWas: set<nat>, slabNow: set<nat>,
                 freeWas: set<nat>, freeNow: set<nat>, page: nat)
    requires HandedBack(was, now, slabWas, slabNow, freeWas, freeNow) && page in now
    ensures HandedBack(was, now - {page}, slabWas, slabNow - {page}, freeWas, freeNow + {page})
  {
    assert was - (now - {page}) == (was - now) + {page};
  }

  lemma OnePage(page: nat)
    ensures Span(page, 1) == {page}
  {
  }

  lemma WithoutSize(s: seq<nat>, x: nat)
    ensures |Without(s, x)| == if x in s then |s| - 1 else |s|
  {
  }

  lemma WithoutHead(s: seq<nat>)
    requires s != []
    ensures Without(s, s[0]) == s[1..]
  {
  }

  class SlabAllocator {
    const index: nat      // the position of this allocator in the table of slab allocators
    const objectSize: nat
    const maxObjects: nat // objects per page
    var freePages: seq<nat>
    var partialPages: seq<nat>
    var fullPages: seq<nat>
    var freePageCount: int
    var freelist: FreeLists
    var freecount: map<nat, int>
    var pagesAllocated: int
    var objectsAllocated: int
    ghost var live: set<nat> // the objects handed out

    /** The pages owned by this allocator. */
    ghost function Pages(): set<nat>
      reads this
    {
      freelist.Keys
    }

    /** Everything but the place of the pages on the lists. */
    ghost predicate Counted()
      reads this
    {
      && Cut(freelist, live, objectSize, maxObjects)
      && Counts(freelist, freecount)
      && freePageCount == |freePages|
      && pagesAllocated == |freelist|
      && objectsAllocated == |live|
    }

    /** Every page is on the one list that its number of free objects calls for. */
    ghost predicate Consistent()
      reads this
    {
      && Counted()
      && Listed(freePages, partialPages, fullPages, ListKeys(freelist, maxObjects))
    }

    /** What holds between any two calls: at most three pages without live objects are kept. */
    ghost predicate Valid()
      reads this
    {
      Consistent() && freePageCount < FREE_PAGE_HI_THRESH
    }

    lemma ValidMeans()
      ensures Valid() <==> Consistent() && freePageCount < FREE_PAGE_HI_THRESH
      ensures Valid() && NeedsPage() ==> freePageCount == 0
    {
      hide Cut, Counts, Listed, ListKeys;
    }

    /** A live object lies on a page of this allocator, in front of the page header. */
    lemma LiveObject(a: nat)
      requires Valid() && a in live
      ensures PageOf(a) in Pages() && a in Objects(PageOf(a), objectSize, maxObjects)
      ensures 0 < objectSize && a + objectSize <= PageOf(a) * PAGE_SIZE + PAGE_SIZE - PAGE_HEADER_SIZE
    {
      hide Objects, Counts, Listed, ListKeys, PageOf, FreeObjects;
      ObjectInPage(a, PageOf(a), objectSize, maxObjects);
    }

    /** Live objects do not overlap each other or any free object of the allocator. */
    lemma LiveObjectsApart(a: nat, b: nat)
      requires Valid() && a in live && a != b
      requires b in live || exists p :: p in freelist && b in freelist[p]
      ensures a + objectSize <= b || b + objectSize <= a
    {
      hide Objects, Counts, Listed, ListKeys;
      LiveObject(a);
      var page := PageOf(b);
      if b in live {
        LiveObject(b);
      } else {
        var p :| p in freelist && b in freelist[p];
        assert b in Objects(p, objectSize, maxObjects);
        ObjectInPage(b, p, objectSize, maxObjects);
      }
      if page == PageOf(a) {
        if a < b {
          ObjectsApart(a, b, page, objectSize, maxObjects);
        } else {
          ObjectsApart(b, a, page, objectSize, maxObjects);
        }
      }
    }

    constructor (index: nat, size: nat)
      requires 0 < size <= PAGE_SIZE - PAGE_HEADER_SIZE
      ensures Valid() && live == {} && Pages() == {}
      ensures this.index == index && objectSize == size
      ensures maxObjects * size <= PAGE_SIZE - PAGE_HEADER_SIZE < (maxObjects + 1) * size
    {
      this.index, objectSize := index, size;
      maxObjects := (PAGE_SIZE - PAGE_HEADER_SIZE) / size;
      freePages, partialPages, fullPages := [], [], [];
      freePageCount, pagesAllocated, objectsAllocated := 0, 0, 0;
      freelist, freecount := map[], map[];
      live := {};
      new;
      assert forall b: nat | b < 3 :: Holds([[], [], []][b], map[], b);
      assert ListKeys(freelist, maxObjects) == map[];
    }

    /** Takes a page off the list it is on. */
    method Unlink(page: nat)
      modifies `freePages, `partialPages, `fullPages
      ensures freePages == Without(old(freePages), page)
      ensures partialPages == Without(old(partialPages), page)
      ensures fullPages == Without(old(fullPages), page)
    {
      freePages := Without(freePages, page);
      partialPages := Without(partialPages, page);
      fullPages := Without(fullPages, page);
    }

    /** Whether the next allocation needs a new page. */
    predicate NeedsPage()
      reads this
    {
      partialPages == [] && freePages == []
    }

    /** Cuts a new page into objects, all free, listed in the order of their addresses. */
    method InitPage(page: nat) returns (list: seq<nat>)
      requires 0 < objectSize
      ensures FreeObjects(list, Objects(page, objectSize, maxObjects), {})
      ensures |list| == maxObjects && forall k | 0 <= k < |list| :: list[k] == ObjectAt(page, k, objectSize)
    {
      list := [];
      var obj := page * PAGE_SIZE;
      for i := 0 to maxObjects
        invariant |list| == i && forall k | 0 <= k < i :: list[k] == ObjectAt(page, k, objectSize)
        invariant obj == ObjectAt(page, i, objectSize)
        invariant FreeObjects(list, Objects(page, objectSize, i), {})
        invariant forall a | a in list :: a < obj
      {
        ghost var before := list;
        list := list + [obj];
        DistinctAppend(before, obj);
        OneMoreObject(page, objectSize, i);
        obj := obj + objectSize;
      }
    }

    static lemma OneMoreObject(page: nat, size: nat, count: nat)
      ensures Objects(page, size, count + 1) == Objects(page, size, count) + {ObjectAt(page, count, size)}
    {
    }

    /** Everything holds with the given page, which has a free object, on the partial list. */
    ghost predicate Ready(page: nat)
      reads this
    {
      && Counted()
      && page in freelist && freelist[page] != []
      && Listed(freePages, partialPages, fullPages, Rekey(ListKeys(freelist, maxObjects), page, PARTIAL))
    }

    /** Takes the first free object of a page on the partial list. */
    method AllocFromPage(page: nat) returns (obj: nat)
      requires Ready(page) && |freelist[page]| <= maxObjects
      modifies this
      ensures Consistent() && freePageCount == old(freePageCount)
      ensures obj !in old(live) && live == old(live) + {obj} && PageOf(obj) == page
      ensures obj == old(freelist)[page][0] && freelist == old(freelist)[page := old(freelist)[page][1..]]
      ensures Pages() == old(Pages())
    {
      hide Cut, Counts, Listed, Without, PageOf, Rekey, ListKeys;
      ghost var keys := Rekey(ListKeys(freelist, maxObjects), page, PARTIAL);
      RekeyedAt(ListKeys(freelist, maxObjects), page, PARTIAL);
      obj := freelist[page][0];
      CutTake(freelist, live, objectSize, maxObjects, page);
      NewKey(freelist, maxObjects, page, freelist[page][1..], PARTIAL);
      CountPage(freelist, freecount, page, freelist[page][1..]);
      live := live + {obj};
      freelist := freelist[page := freelist[page][1..]];
      freecount := freecount[page := freecount[page] - 1];
      if freelist[page] == [] {
        MovePage(freePages, partialPages, fullPages, keys, page);
        Unlink(page);
        fullPages := [page] + fullPages;
      }
      objectsAllocated := objectsAllocated + 1;
    }

    static lemma PageAdded(free: seq<nat>, partial: seq<nat>, full: seq<nat>, lists: FreeLists, counts: map<nat, int>,
                           count: nat, page: nat, list: seq<nat>)
      requires Listed(free, partial, full, ListKeys(lists, count)) && Counts(lists, counts) && page !in lists
      ensures Counts(lists[page := list], counts[page := |list|])
      ensures Listed(free, [page] + partial, full, Rekey(ListKeys(lists[page := list], count), page, PARTIAL))
    {
      hide Counts, Listed, Rekey, ListKeys;
      AddedKey(lists, count, page, list);
      CountPage(lists, counts, page, list);
      KeysOfLists(lists, count);
      LinkPage(free, partial, full, ListKeys(lists, count), page);
    }

    /** Enters a new page, with all its objects free, on the partial list. */
    method AddPage(page: nat)
      requires Consistent() && page !in Pages() && NeedsPage()
      modifies this
      ensures Ready(page) && |freelist[page]| == maxObjects && live == old(live)
      ensures freelist == old(freelist)[page := freelist[page]]
      ensures forall k | 0 <= k < maxObjects :: freelist[page][k] == ObjectAt(page, k, objectSize)
      ensures freePageCount == 0 && freePages == [] && Pages() == old(Pages()) + {page}
    {
      hide Cut, Counts, Listed, Without, PageOf, Rekey, ListKeys, FreeObjects, Objects;
      CutIsPositive(freelist, live, objectSize, maxObjects);
      var list := InitPage(page);
      CutAdd(freelist, live, objectSize, maxObjects, page, list);
      PageAdded(freePages, partialPages, fullPages, freelist, freecount, maxObjects, page, list);
      freelist := freelist[page := list];
      freecount := freecount[page := maxObjects];
      pagesAllocated := pagesAllocated + 1;
      partialPages := [page] + partialPages;
    }

    /** Sets up a page that the page allocator supplied. */
    method AllocNewPage(page: nat, pages: PageMap)
      requires Consistent() && page !in Pages() && NeedsPage()
      modifies this, pages
      ensures Ready(page) && |freelist[page]| == maxObjects && live == old(live)
      ensures freelist == old(freelist)[page := freelist[page]]
      ensures forall k | 0 <= k < maxObjects :: freelist[page][k] == ObjectAt(page, k, objectSize)
      ensures freePageCount == 0 && freePages == []
      ensures Pages() == old(Pages()) + {page}
      ensures pages.isSlab == old(pages.isSlab) + {page} && pages.allocator == old(pages.allocator)[page := index]
    {
      hide Counted, Listed, Rekey, ListKeys;
      AddPage(page);
      pages.isSlab := pages.isSlab + {page};
      pages.allocator := pages.allocator[page := index];
    }

    /**
     Hands out an object. When no page has a free one, a new page is set up first; newPage is
     the one that the page allocator supplies in that case.
     */
    method Alloc(newPage: nat, pages: PageMap) returns (obj: nat)
      requires Valid()
      requires NeedsPage() ==> newPage !in Pages()
      modifies this, pages
      ensures Valid()
      ensures obj !in old(live) && live == old(live) + {obj}
      ensures old(partialPages) != [] ==> PageOf(obj) == old(partialPages)[0]
      ensures old(partialPages) == [] && old(freePages) != [] ==> PageOf(obj) == old(freePages)[0]
      ensures old(NeedsPage()) ==> PageOf(obj) == newPage && obj == newPage * PAGE_SIZE
      ensures !old(NeedsPage()) ==>
                && PageOf(obj) in old(freelist) && old(freelist)[PageOf(obj)] != []
                && [obj] + freelist[PageOf(obj)] == old(freelist)[PageOf(obj)]
                && freelist == old(freelist)[PageOf(obj) := freelist[PageOf(obj)]]
      ensures Pages() == if old(NeedsPage()) then old(Pages()) + {newPage} else old(Pages())
      ensures pages.isSlab == if old(NeedsPage()) then old(pages.isSlab) + {newPage} else old(pages.isSlab)
      ensures pages.allocator
           == if old(NeedsPage()) then old(pages.allocator)[newPage := index] else old(pages.allocator)
    {
      hide Cut, Counts, Listed, Without, PageOf, Rekey, ListKeys, FreeObjects, Objects;
      CutIsPositive(freelist, live, objectSize, maxObjects);
      HeadPages(freePages, partialPages, fullPages, freelist, maxObjects);
      var page := newPage;
      if partialPages != [] {
        page := partialPages[0];
      } else if freePages != [] {
        page := freePages[0];
      } else {
        AllocNewPage(newPage, pages);
      }
      if freePages != [] && page == freePages[0] {
        MovePage(freePages, partialPages, fullPages, ListKeys(freelist, maxObjects), page);
        Unlink(page);
        partialPages := [page] + partialPages;
        freePageCount := freePageCount - 1;
      }
      FreeListBound(freelist, live, objectSize, maxObjects);
      obj := AllocFromPage(page);
    }

    lemma Bounds()
      requires Consistent()
      ensures freePageCount == |freePages|
      ensures freePages != [] ==> freePages[0] in Pages()
    {
      hide Cut, Counts, Listed, Rekey, ListKeys;
      CutIsPositive(freelist, live, objectSize, maxObjects);
      HeadPages(freePages, partialPages, fullPages, freelist, maxObjects);
    }

    /** Takes the first page without live objects out of the allocator. */
    method DropPage() returns (page: nat)
      requires Consistent() && freePages != []
      modifies this
      ensures Consistent() && live == old(live) && freePageCount == old(freePageCount) - 1
      ensures page == old(freePages)[0] && freePages == old(freePages)[1..]
      ensures page in old(Pages()) && Pages() == old(Pages()) - {page}
      ensures |Pages()| == |old(Pages())| - 1
    {
      hide Cut, Counts, Listed, Without, Rekey, ListKeys, FreeObjects, Objects;
      CutIsPositive(freelist, live, objectSize, maxObjects);
      HeadPages(freePages, partialPages, fullPages, freelist, maxObjects);
      page := freePages[0];
      UnlinkPage(freePages, partialPages, fullPages, ListKeys(freelist, maxObjects), page);
      DroppedKey(freelist, maxObjects, page);
      CountPage(freelist, freecount, page, []);
      CutDrop(freelist, live, objectSize, maxObjects, page);
      WithoutHead(freePages);
      Unlink(page);
      ghost var was := freelist.Keys;
      freelist := freelist - {page};
      freecount := freecount - {page};
      assert freelist.Keys == was - {page};
      if pagesAllocated > 0 {
        pagesAllocated := pagesAllocated - 1;
      }
      freePageCount := freePageCount - 1;
    }

    /** Returns pages without live objects to the page allocator until at most limit are kept. */
    method Reclaim(limit: nat, pages: PageMap, pagealloc: ExtentAllocator) returns (n: nat)
      requires Consistent() && pagealloc.Valid() && pagealloc.chunkBytes == PAGE_SIZE
      requires 0 !in Pages() && Pages() !! pagealloc.FreeChunks()
      modifies this, pages, pagealloc
      ensures Consistent() && pagealloc.Valid()
      ensures freePageCount == if limit < old(freePageCount) then limit else old(freePageCount)
      ensures live == old(live) && n == |old(Pages())| - |Pages()|
      ensures old(freePageCount) <= limit ==>
                && freePages == old(freePages) && partialPages == old(partialPages)
                && pagealloc.FreeChunks() == old(pagealloc.FreeChunks())
      ensures pages.allocator == old(pages.allocator)
      ensures HandedBack(old(Pages()), Pages(), old(pages.isSlab), pages.isSlab,
                         old(pagealloc.FreeChunks()), pagealloc.FreeChunks())
    {
      hide Consistent, Pages, ExtentAllocator.Valid, ExtentAllocator.FreeChunks, HandedBack, Span;
      n := 0;
      NothingBack(Pages(), pages.isSlab, pagealloc.FreeChunks());
      while freePageCount > limit
        invariant Consistent() && pagealloc.Valid() && live == old(live)
        invariant pages.allocator == old(pages.allocator)
        invariant n + |Pages()| == |old(Pages())|
        invariant freePageCount == old(freePageCount) || limit <= freePageCount < old(freePageCount)
        invariant old(freePageCount) <= limit ==>
                    && freePages == old(freePages) && partialPages == old(partialPages)
                    && pagealloc.FreeChunks() == old(pagealloc.FreeChunks())
        invariant 0 !in Pages() && Pages() !! pagealloc.FreeChunks()
        invariant HandedBack(old(Pages()), Pages(), old(pages.isSlab), pages.isSlab,
                             old(pagealloc.FreeChunks()), pagealloc.FreeChunks())
        decreases freePageCount
      {
        Bounds();
        if freePages == [] {
          break;
        }
        ghost var now := Pages();
        var page := DropPage();
        PageBack(old(Pages()), now, old(pages.isSlab), pages.isSlab, old(pagealloc.FreeChunks()), pagealloc.FreeChunks(), page);
        pages.isSlab := pages.isSlab - {page};
        OnePage(page);
        pagealloc.Free(page, PAGE_SIZE);
        n := n + 1;
      }
    }

    /** Puts an object on its page's list of free objects, and the page on the list it now belongs on. */
    method FreeObject(obj: nat)
      requires Valid() && obj in live
      modifies this
      ensures Consistent() && live == old(live) - {obj} && Pages() == old(Pages())
      ensures freePageCount <= old(freePageCount) + 1
      ensures PageOf(obj) in old(freelist)
      ensures freelist == old(freelist)[PageOf(obj) := [obj] + old(freelist)[PageOf(obj)]]
      ensures var page, list := PageOf(obj), old(freelist)[PageOf(obj)];
              && freePages == OnFreeList(old(freePages), page, |list| + 1 == maxObjects, list == [])
              && partialPages == OnPartialList(old(partialPages), page, |list| + 1 == maxObjects, list == [])
    {
      hide Cut, Counts, Listed, Without, Rekey, ListKeys, FreeObjects, Objects, PageOf;
      var page := PageOf(obj);
      CutIsPositive(freelist, live, objectSize, maxObjects);
      CutPut(freelist, live, objectSize, maxObjects, obj);
      CountPage(freelist, freecount, page, [obj] + freelist[page]);
      NewKey(freelist, maxObjects, page, [obj] + freelist[page], PARTIAL);
      KeyAt(freelist, maxObjects, page);
      MovePage(freePages, partialPages, fullPages, ListKeys(freelist, maxObjects), page);
      if objectsAllocated > 0 {
        objectsAllocated := objectsAllocated - 1;
      }
      var wasFull := freecount[page] == 0;
      freelist := freelist[page := [obj] + freelist[page]];
      freecount := freecount[page := freecount[page] + 1];
      live := live - {obj};
      Relist(page, wasFull);
    }

    /** Puts a page to which an object was given back on the list it now belongs on. */
    method Relist(page: nat, wasFull: bool)
      requires page in freecount
      modifies `freePages, `partialPages, `fullPages, `freePageCount
      ensures freePages == OnFreeList(old(freePages), page, freecount[page] == maxObjects, wasFull)
      ensures partialPages == OnPartialList(old(partialPages), page, freecount[page] == maxObjects, wasFull)
      ensures fullPages == if freecount[page] == maxObjects || wasFull then Without(old(fullPages), page) else old(fullPages)
      ensures freePageCount == old(freePageCount) + if freecount[page] == maxObjects then 1 else 0
    {
      if freecount[page] == maxObjects {
        Unlink(page);
        freePages := [page] + freePages;
        freePageCount := freePageCount + 1;
      } else if wasFull {
        Unlink(page);
        partialPages := [page] + partialPages;
      }
    }

    /** A page none of whose objects is live comes first on the free list. */
    static function OnFreeList(list: seq<nat>, page: nat, isFree: bool, wasFull: bool): seq<nat> {
      if isFree then [page] + Without(list, page) else if wasFull then Without(list, page) else list
    }

    /** A page that was full comes first on the partial list; others stay where they are on it. */
    static function OnPartialList(list: seq<nat>, page: nat, isFree: bool, wasFull: bool): seq<nat> {
      if isFree then Without(list, page) else if wasFull then [page] + Without(list, page) else list
    }

    /**
     Takes an object back. A page none of whose objects is live any more is kept for later use,
     but once four such pages have come together, all but one go back to the page allocator.
     */
    method Free(obj: nat, pages: PageMap, pagealloc: ExtentAllocator)
      requires Valid() && obj in live && pagealloc.Valid() && pagealloc.chunkBytes == PAGE_SIZE
      requires 0 !in Pages() && Pages() !! pagealloc.FreeChunks()
      modifies this, pages, pagealloc
      ensures Valid() && pagealloc.Valid() && live == old(live) - {obj}
      ensures freePageCount <= 3 && (Pages() != old(Pages()) ==> freePageCount == 1)
      ensures pages.allocator == old(pages.allocator)
      ensures HandedBack(old(Pages()), Pages(), old(pages.isSlab), pages.isSlab,
                         old(pagealloc.FreeChunks()), pagealloc.FreeChunks())
    {
      hide Consistent, Pages, ExtentAllocator.Valid, ExtentAllocator.FreeChunks, HandedBack;
      NothingBack(Pages(), pages.isSlab, pagealloc.FreeChunks());
      FreeObject(obj);
      if freePageCount >= FREE_PAGE_HI_THRESH {
        var n := Reclaim(FREE_PAGE_LO_THRESH, pages, pagealloc);
      }
    }

    lemma FreeObjectsOf(page: nat)
      requires Cut(freelist, live, objectSize, maxObjects) && page in freelist
      ensures 0 < objectSize
      ensures forall k | 0 <= k < |freelist[page]| ::
                && page * PAGE_SIZE <= freelist[page][k] < page * PAGE_SIZE + PAGE_SIZE
                && (freelist[page][k] - page * PAGE_SIZE) % objectSize == 0
    {
      hide Objects;
      forall k | 0 <= k < |freelist[page]|
        ensures page * PAGE_SIZE <= freelist[page][k] < page * PAGE_SIZE + PAGE_SIZE
        ensures (freelist[page][k] - page * PAGE_SIZE) % objectSize == 0
      {
        var a := freelist[page][k];
        assert a in freelist[page];
        ObjectInPage(a, page, objectSize, maxObjects);
        var i: nat :| i < maxObjects && a == ObjectAt(page, i, objectSize);
        NoRemainder(i, objectSize);
      }
    }

    static lemma NoRemainder(i: nat, size: nat)
      requires 0 < size
      ensures i * size % size == 0
    {
      var q, r := i * size / size, i * size % size;
      if q < i {
        Steps(q, i, size);
      } else if i < q {
        Steps(i, q, size);
      }
    }

    /** Checks that the free objects of a page lie in it, are aligned, and are as many as its header says. */
    method ValidatePage(page: nat) returns (ok: bool)
      requires Consistent() && page in freelist
      ensures ok
    {
      hide Cut, Listed, Counts, Rekey, ListKeys;
      FreeObjectsOf(page);
      CountPage(freelist, freecount, page, []);
      var list := freelist[page];
      var base := page * PAGE_SIZE;
      var n := 0;
      while n < |list|
        invariant n <= |list|
      {
        if !(base <= list[n] <= base + PAGE_SIZE - 1) || (list[n] - base) % objectSize != 0 {
          return false;
        }
        n := n + 1;
      }
      return n == freecount[page];
    }

    /** Checks that the pages on one list all pass and have between lo and hi free objects. */
    method ValidateList(list: seq<nat>, lo: int, hi: int) returns (ok: bool)
      requires Consistent()
      requires forall p | p in list :: p in freelist && lo <= |freelist[p]| <= hi
      ensures ok
    {
      hide Cut, Listed, Rekey, ListKeys;
      var k := 0;
      while k < |list|
        invariant k <= |list|
      {
        var page := list[k];
        assert page in list;
        ok := ValidatePage(page);
        if !ok || !(lo <= freecount[page] <= hi) {
          return false;
        }
        k := k + 1;
      }
      return true;
    }

    /** Checks all pages on the three lists; a valid allocator always passes. */
    method Validate() returns (ok: bool)
      requires Consistent()
      ensures ok
    {
      hide Cut, Listed, Counts, Rekey;
      FreeListBound(freelist, live, objectSize, maxObjects);
      ListMembers(freePages, partialPages, fullPages, ListKeys(freelist, maxObjects));
      ok := ValidateList(freePages, maxObjects, maxObjects);
      if ok {
        ok := ValidateList(partialPages, 1, maxObjects - 1);
      }
      if ok {
        ok := ValidateList(fullPages, 0, 0);
      }
    }
  }
}
