/**
 A set of pages kept as a two-level bitmap whose leaves are allocated when they are first needed.
 Page numbers have 36 bits.
 */
module PageBitmaps {
  import opened Alignment

  const TOP_LEVEL_CHUNKS: nat := 131072
  const BYTES_PER_CHUNK: nat := 65536
  const PAGES_PER_CHUNK: nat := 524288
  const PAGE_COUNT: nat := 0x10_0000_0000

  /** The byte with only bit i set. */
  function Mask(i: nat): bv8
    requires i < 8
  {
    match i
    case 0 => 1
    case 1 => 2
    case 2 => 4
    case 3 => 8
    case 4 => 16
    case 5 => 32
    case 6 => 64
    case _ => 128
  }

  predicate Bit(b: bv8, i: nat)
    requires i < 8
  {
    b & Mask(i) != 0
  }

  function WithBit(b: bv8, i: nat, on: bool): bv8
    requires i < 8
  {
    if on then b | Mask(i) else b & !Mask(i)
  }

  lemma BitOfWithBit(b: bv8, i: nat, on: bool, j: nat)
    requires i < 8 && j < 8
    ensures Bit(WithBit(b, i, on), j) <==> if i == j then on else Bit(b, j)
  {
  }

  function ChunkOf(page: nat): (i: nat)
    requires page < PAGE_COUNT
    ensures i < TOP_LEVEL_CHUNKS
  {
    page / PAGES_PER_CHUNK
  }

  function ByteOf(page: nat): (i: nat)
    ensures i < BYTES_PER_CHUNK
  {
    page / 8 % BYTES_PER_CHUNK
  }

  /** A page is determined by its chunk, byte and bit. */
  lemma PlaceOfPage(p: nat, q: nat)
    requires p < PAGE_COUNT && q < PAGE_COUNT
    requires ChunkOf(p) == ChunkOf(q) && ByteOf(p) == ByteOf(q) && p % 8 == q % 8
    ensures p == q
  {
  }

  /** A leaf is null until it is allocated. */
  datatype Leaf = Null | Chunk(bits: seq<bv8>)

  class PageBitmap {
    const top: array<Leaf>

    ghost predicate Valid()
      reads top
    {
      && top.Length == TOP_LEVEL_CHUNKS
      && forall i | 0 <= i < top.Length && top[i].Chunk? :: |top[i].bits| == BYTES_PER_CHUNK
    }

    /** Whether the page is in the set. */
    predicate Has(page: nat)
      requires Valid() && page < PAGE_COUNT
      reads top
    {
      var leaf := top[ChunkOf(page)];
      leaf.Chunk? && Bit(leaf.bits[ByteOf(page)], page % 8)
    }

    constructor ()
      ensures Valid() && fresh(top) && forall p: nat | p < PAGE_COUNT :: !Has(p)
    {
      top := new Leaf[TOP_LEVEL_CHUNKS](_ => Null);
    }

    /** Makes sure that the leaf with the bit of a page is there, and tells the place of its byte. */
    method PageIdToMapByte(page: nat) returns (chunk: nat, byteId: nat)
      requires Valid() && page < PAGE_COUNT
      modifies top
      ensures Valid() && chunk == ChunkOf(page) && byteId == ByteOf(page) && top[chunk].Chunk?
      ensures forall q: nat | q < PAGE_COUNT :: Has(q) <==> old(Has(q))
    {
      hide Mask, ByteOf;
      chunk, byteId := ChunkOf(page), ByteOf(page);
      if top[chunk].Null? {
        top[chunk] := Chunk(seq(BYTES_PER_CHUNK, _ => 0));
        NoBits();
      }
    }

    static lemma NoBits()
      ensures forall i: nat | i < 8 :: !Bit(0, i)
    {
    }

    /** Adds a page to the set or takes it out. */
    method SetPage(page: nat, on: bool)
      requires Valid() && page < PAGE_COUNT
      modifies top
      ensures Valid()
      ensures forall q: nat | q < PAGE_COUNT :: Has(q) <==> if q == page then on else old(Has(q))
    {
      hide WithBit, Bit, ChunkOf, ByteOf;
      var chunk, byteId := PageIdToMapByte(page);
      ghost var was := top[chunk].bits[byteId];
      assert forall q: nat | q < PAGE_COUNT :: Has(q) <==> old(Has(q));
      label Before:
      top[chunk] := Chunk(top[chunk].bits[byteId := WithBit(top[chunk].bits[byteId], page % 8, on)]);
      forall q: nat | q < PAGE_COUNT
        ensures Has(q) <==> if q == page then on else old@Before(Has(q))
      {
        BitOfWithBit(was, page % 8, on, q % 8);
        if ChunkOf(q) == ChunkOf(page) && ByteOf(q) == ByteOf(page) && q % 8 == page % 8 {
          PlaceOfPage(q, page);
        }
      }
    }

    /** Adds the pages from first to last to the set or takes them out. */
    method SetPages(first: nat, last: nat, on: bool)
      requires Valid() && first <= last < PAGE_COUNT
      modifies top
      ensures Valid()
      ensures forall q: nat | q < PAGE_COUNT :: Has(q) <==> if first <= q <= last then on else old(Has(q))
    {
      hide Mask, Bit;
      var i := first;
      while i <= last
        invariant first <= i <= last + 1
        invariant Valid()
        invariant forall q: nat | q < PAGE_COUNT :: Has(q) <==> if first <= q < i then on else old(Has(q))
      {
        SetPage(i, on);
        i := i + 1;
      }
    }
  }

  const ADDRESS_SPACE_SIZE: nat := 0x1_0000_0000_0000

  /** The page number of an address; the address bits above the 48th do not count. */
  function PageId(addr: nat): (page: nat)
    ensures page < PAGE_COUNT
  {
    addr % ADDRESS_SPACE_SIZE / PAGE_SIZE
  }

  datatype Protection = Protection(read: bool, write: bool, exec: bool)

  const NONE := Protection(false, false, false)

  /** A call that set the protection of a range of bytes. */
  datatype Range = Range(start: nat, length: nat, prot: Protection) {
    ghost predicate Valid() {
      0 < length && start % ADDRESS_SPACE_SIZE + length <= ADDRESS_SPACE_SIZE
    }

    ghost predicate Covers(page: nat) {
      PageId(start) <= page && page * PAGE_SIZE < start % ADDRESS_SPACE_SIZE + length
    }
  }

  /** The protection that the last call covering a page gave it. */
  ghost function LastProtection(calls: seq<Range>, page: nat): Protection {
    if calls == [] then NONE
    else if calls[|calls| - 1].Covers(page) then calls[|calls| - 1].prot
    else LastProtection(calls[..|calls| - 1], page)
  }

  class AddressSpace {
    const readMap: PageBitmap
    const writeMap: PageBitmap
    const execMap: PageBitmap
    const dirtyMap: PageBitmap
    ghost var calls: seq<Range> // the calls of SetAttr so far

    ghost predicate Apart() {
      && readMap.top != writeMap.top && readMap.top != execMap.top && readMap.top != dirtyMap.top
      && writeMap.top != execMap.top && writeMap.top != dirtyMap.top && execMap.top != dirtyMap.top
    }

    ghost function Repr(): set<object> {
      {this, readMap.top, writeMap.top, execMap.top, dirtyMap.top}
    }

    /** Each page has the protection that the last call covering it gave it. */
    ghost predicate Valid()
      reads Repr()
    {
      && Apart() && readMap.Valid() && writeMap.Valid() && execMap.Valid() && dirtyMap.Valid()
      && (forall p: nat | p < PAGE_COUNT :: readMap.Has(p) == LastProtection(calls, p).read)
      && (forall p: nat | p < PAGE_COUNT :: writeMap.Has(p) == LastProtection(calls, p).write)
      && (forall p: nat | p < PAGE_COUNT :: execMap.Has(p) == LastProtection(calls, p).exec)
    }

    constructor ()
      ensures Valid() && calls == [] && forall p: nat | p < PAGE_COUNT :: !dirtyMap.Has(p)
      ensures fresh(Repr())
    {
      hide PageBitmap.Has, PageBitmap.Valid;
      readMap := new PageBitmap();
      writeMap := new PageBitmap();
      execMap := new PageBitmap();
      dirtyMap := new PageBitmap();
      calls := [];
    }

    /** The pages from the first to the last byte of a range. */
    static lemma CoveredPages(r: Range, page: nat)
      requires r.Valid()
      ensures PageId(r.start) <= (r.start % ADDRESS_SPACE_SIZE + r.length - 1) / PAGE_SIZE < PAGE_COUNT
      ensures r.Covers(page) <==> PageId(r.start) <= page <= (r.start % ADDRESS_SPACE_SIZE + r.length - 1) / PAGE_SIZE
    {
    }

    static lemma OneMoreCall(calls: seq<Range>, r: Range, page: nat)
      ensures LastProtection(calls + [r], page) == if r.Covers(page) then r.prot else LastProtection(calls, page)
    {
    }

    /** Gives the pages of a range of bytes a new protection. Other pages keep theirs. */
    method SetAttr(start: nat, length: nat, prot: Protection)
      requires Valid() && Range(start, length, prot).Valid()
      modifies this, readMap.top, writeMap.top, execMap.top
      ensures Valid() && calls == old(calls) + [Range(start, length, prot)]
    {
      hide PageBitmap.Valid, PageBitmap.Has, LastProtection, PageId, Range.Covers, Range.Valid;
      ghost var r := Range(start, length, prot);
      CoveredPages(r, 0);
      var first, last := PageId(start), (start % ADDRESS_SPACE_SIZE + length - 1) / PAGE_SIZE;
      readMap.SetPages(first, last, prot.read);
      writeMap.SetPages(first, last, prot.write);
      execMap.SetPages(first, last, prot.exec);
      calls := calls + [r];
      forall p: nat | p < PAGE_COUNT
        ensures LastProtection(calls, p) == if first <= p <= last then prot else LastProtection(old(calls), p)
      {
        CoveredPages(r, p);
        OneMoreCall(old(calls), r, p);
      }
    }

    /** Whether a page is in one of the maps; never for addresses of more than 48 bits. */
    predicate FastCheck(addr: nat, m: PageBitmap)
      requires m.Valid()
      reads m.top
    {
      addr < ADDRESS_SPACE_SIZE && m.Has(PageId(addr))
    }

    /** Whether an address may be accessed in all the given ways. */
    predicate Check(addr: nat, prot: Protection)
      requires Valid()
      reads Repr()
    {
      && (prot.read ==> FastCheck(addr, readMap))
      && (prot.write ==> FastCheck(addr, writeMap))
      && (prot.exec ==> FastCheck(addr, execMap))
    }

    /** An access is allowed when the last call covering the page of its 48-bit address allowed it. */
    lemma CheckMeans(addr: nat, prot: Protection)
      requires Valid() && prot != NONE
      ensures var last := LastProtection(calls, PageId(addr));
              Check(addr, prot) <==>
                && addr < ADDRESS_SPACE_SIZE
                && (prot.read ==> last.read) && (prot.write ==> last.write) && (prot.exec ==> last.exec)
    {
      hide PageBitmap.Valid, PageBitmap.Has, LastProtection, PageId;
    }

    /** The bit of a page in a map, whose leaf is allocated if need be. */
    static method MapBit(m: PageBitmap, page: nat) returns (on: bool)
      requires m.Valid() && page < PAGE_COUNT
      modifies m.top
      ensures m.Valid() && on == m.Has(page) && forall q: nat | q < PAGE_COUNT :: m.Has(q) <==> old(m.Has(q))
    {
      hide Bit, ChunkOf, ByteOf;
      var chunk, byteId := m.PageIdToMapByte(page);
      on := Bit(m.top[chunk].bits[byteId], page % 8);
    }

    /** The protection of the page of an address, which is that of the last call covering it. */
    method GetAttr(addr: nat) returns (prot: Protection)
      requires Valid()
      modifies readMap.top, writeMap.top, execMap.top
      ensures Valid() && prot == LastProtection(calls, PageId(addr))
    {
      hide PageBitmap.Valid, PageBitmap.Has, LastProtection, PageId;
      var page := PageId(addr);
      var r := MapBit(readMap, page);
      var w := MapBit(writeMap, page);
      var x := MapBit(execMap, page);
      prot := Protection(r, w, x);
    }

    /** Marks the page of an address as written to. */
    method SetDirty(mfn: nat)
      requires Valid()
      modifies dirtyMap.top
      ensures Valid()
      ensures forall q: nat | q < PAGE_COUNT :: dirtyMap.Has(q) <==> q == PageId(mfn * PAGE_SIZE) || old(dirtyMap.Has(q))
    {
      hide PageBitmap.Valid, PageBitmap.Has, LastProtection, PageId;
      dirtyMap.SetPage(PageId(mfn * PAGE_SIZE), true);
    }
  }
}

/** Copying between the simulator and the memory of the simulated program, at most two pages at a time. */
module UserMemory {
  import opened Alignment
  import opened PageBitmaps

  type Byte = bv8

  /** Bytes never written to read as zero. */
  type Memory = map<nat, Byte>

  datatype PageFault = PageFault(p: bool, rw: bool, nx: bool)

  const NO_FAULT := PageFault(false, false, false)

  function Load(m: Memory, a: nat): Byte {
    if a in m then m[a] else 0
  }

  function Loaded(m: Memory, from: nat, n: nat): seq<Byte> {
    seq(n, i requires 0 <= i < n => Load(m, from + i))
  }

  predicate InRun(a: nat, at: nat, n: nat) {
    at <= a < at + n
  }

  /** Memory after bytes were stored from the given address on. */
  function Stored(m: Memory, at: nat, bytes: seq<Byte>): Memory {
    m + map a: nat | at <= a < at + |bytes| && InRun(a, at, |bytes|) :: bytes[a - at]
  }

  lemma StoredLoads(m: Memory, at: nat, bytes: seq<Byte>)
    ensures forall a: nat :: Load(Stored(m, at, bytes), a) == if InRun(a, at, |bytes|) then bytes[a - at] else Load(m, a)
  {
  }

  lemma {:induction false} StoredIsLoaded(m: Memory, at: nat, bytes: seq<Byte>, n: nat)
    requires n <= |bytes| && forall a: nat | InRun(a, at, |bytes|) :: Load(m, a) == bytes[a - at]
    ensures Loaded(m, at, n) == bytes[..n]
  {
    forall i | 0 <= i < n
      ensures Loaded(m, at, n)[i] == bytes[i]
    {
      assert InRun(at + i, at, |bytes|);
    }
  }

  lemma StoredInTwo(m: Memory, at: nat, bytes: seq<Byte>, n: nat)
    requires n <= |bytes|
    ensures Stored(Stored(m, at + n, bytes[n..]), at, bytes[..n]) == Stored(m, at, bytes)
  {
  }

  /** The number of bytes of a run that lie on its first page. */
  function OnFirstPage(addr: nat, bytes: nat): (n: nat)
    ensures n <= bytes && (0 < bytes ==> 0 < n)
  {
    var room := PAGE_SIZE - addr % PAGE_SIZE;
    if room < bytes then room else bytes
  }

  /** Runs of at most a page lie on the page of their first byte and on that of the byte after those on it. */
  lemma TwoPages(addr: nat, bytes: nat, a: nat)
    requires bytes <= PAGE_SIZE && addr <= a < addr + bytes
    ensures var n := OnFirstPage(addr, bytes);
            var b := if a < addr + n then addr else addr + n;
            PageId(a) == PageId(b) && (a < ADDRESS_SPACE_SIZE <==> b < ADDRESS_SPACE_SIZE)
  {
    var n := OnFirstPage(addr, bytes);
    SamePage(if a < addr + n then addr else addr + n, a);
  }

  lemma SamePage(b: nat, a: nat)
    requires b <= a < b + PAGE_SIZE - b % PAGE_SIZE
    ensures PageId(a) == PageId(b) && (a < ADDRESS_SPACE_SIZE <==> b < ADDRESS_SPACE_SIZE)
  {
    assert a / PAGE_SIZE == b / PAGE_SIZE;
    PageNumber(a);
    PageNumber(b);
  }

  lemma PageNumber(a: nat)
    ensures PageId(a) == a / PAGE_SIZE % PAGE_COUNT
    ensures a < ADDRESS_SPACE_SIZE <==> a / PAGE_SIZE < PAGE_COUNT
  {
  }

  class Context {
    const asp: AddressSpace
    var memory: Memory

    ghost predicate Valid()
      reads asp.Repr()
    {
      asp.Valid()
    }

    constructor (asp: AddressSpace)
      requires asp.Valid()
      ensures Valid() && this.asp == asp && memory == map[] && forall a: nat :: Load(memory, a) == 0
    {
      this.asp := asp;
      memory := map[];
    }

    predicate Writable(a: nat)
      requires asp.writeMap.Valid()
      reads asp.writeMap.top
    {
      asp.FastCheck(a, asp.writeMap)
    }

    predicate Readable(a: nat)
      requires asp.readMap.Valid()
      reads asp.readMap.top
    {
      asp.FastCheck(a, asp.readMap)
    }

    predicate Fetchable(a: nat, forExec: bool)
      requires Valid()
      reads asp.Repr()
    {
      Readable(a) && (forExec ==> asp.FastCheck(a, asp.execMap))
    }

    /** What the last call that covered the page of an address allows. */
    lemma AccessMeans(a: nat, forExec: bool)
      requires Valid()
      ensures var last := LastProtection(asp.calls, PageId(a));
              && (Writable(a) <==> a < ADDRESS_SPACE_SIZE && last.write)
              && (Readable(a) <==> a < ADDRESS_SPACE_SIZE && last.read)
              && (Fetchable(a, forExec) <==> a < ADDRESS_SPACE_SIZE && last.read && (forExec ==> last.exec))
    {
      hide PageBitmap.Valid, PageBitmap.Has, LastProtection, PageId;
    }

    ghost predicate AllWritable(addr: nat, bytes: nat)
      requires asp.writeMap.Valid()
      reads asp.writeMap.top
    {
      forall a | addr <= a < addr + bytes :: Writable(a)
    }

    /** A run of at most a page is writable when its first byte and the first byte on its second page are. */
    lemma WritablePages(addr: nat, bytes: nat)
      requires asp.writeMap.Valid() && 0 < bytes <= PAGE_SIZE
      ensures var n := OnFirstPage(addr, bytes);
              AllWritable(addr, bytes) <==> Writable(addr) && (n == bytes || Writable(addr + n))
    {
      hide PageBitmap.Has, PageBitmap.Valid, AddressSpace.Valid, PageId;
      forall a | addr <= a < addr + bytes
        ensures Writable(a) <==> if a < addr + OnFirstPage(addr, bytes) then Writable(addr) else Writable(addr + OnFirstPage(addr, bytes))
      {
        TwoPages(addr, bytes, a);
      }
    }

    /** The pages marked as written to. */
    ghost predicate Dirty(page: nat)
      requires Valid() && page < PAGE_COUNT
      reads asp.Repr()
    {
      asp.dirtyMap.Has(page)
    }

    /**
     Stores up to a page of bytes: all of them if they may all be written, and none otherwise. In
     the second case the count returned is that of the bytes on a writable first page, which is
     marked as written to although it is not.
     */
    method CopyToUser(target: nat, source: seq<Byte>) returns (n: nat, fault: PageFault, faultAddr: nat)
      requires Valid() && |source| <= PAGE_SIZE
      modifies this, asp.dirtyMap.top
      ensures Valid()
      ensures memory == if AllWritable(target, |source|) then Stored(old(memory), target, source) else old(memory)
      ensures forall a: nat :: Load(memory, a) ==
                if AllWritable(target, |source|) && InRun(a, target, |source|) then source[a - target] else Load(old(memory), a)
      ensures n == if !Writable(target) then 0 else if AllWritable(target, |source|) then |source| else OnFirstPage(target, |source|)
      ensures source != [] ==> (AllWritable(target, |source|) <==> n == |source|) && (fault == NO_FAULT <==> n == |source|)
      ensures n < |source| ==> faultAddr == target + n && !Writable(faultAddr) && fault == PageFault(Readable(faultAddr), true, false)
      ensures forall q: nat | q < PAGE_COUNT :: Dirty(q) <==>
                || old(Dirty(q))
                || (Writable(target) && q == PageId(target))
                || (Writable(target) && n == |source| > OnFirstPage(target, |source|)
                    && q == PageId(target + OnFirstPage(target, |source|)))
    {
      hide PageBitmap.Has, PageBitmap.Valid, LastProtection, PageId, Stored, OnFirstPage, AllWritable;
      ghost var m := memory;
      NoBytes(m, target, source);
      StoredLoads(m, target, source);
      if source != [] {
        WritablePages(target, |source|);
      }
      if !asp.FastCheck(target, asp.writeMap) {
        return 0, PageFault(asp.FastCheck(target, asp.readMap), true, false), target;
      }
      var nlo := OnFirstPage(target, |source|);
      PageOfNumber(target);
      asp.SetDirty(target / PAGE_SIZE);
      if nlo == |source| {
        memory := Stored(memory, target, source[..nlo]);
        assert source[..nlo] == source;
        return |source|, NO_FAULT, 0;
      }
      if !asp.FastCheck(target + nlo, asp.writeMap) {
        return nlo, PageFault(asp.FastCheck(target + nlo, asp.readMap), true, false), target + nlo;
      }
      StoredInTwo(memory, target, source, nlo);
      memory := Stored(memory, target + nlo, source[nlo..]);
      memory := Stored(memory, target, source[..nlo]);
      PageOfNumber(target + nlo);
      asp.SetDirty((target + nlo) / PAGE_SIZE);
      return |source|, NO_FAULT, 0;
    }

    lemma NoBytes(m: Memory, target: nat, source: seq<Byte>)
      requires Valid()
      ensures source == [] ==> AllWritable(target, |source|) && Stored(m, target, source) == m && OnFirstPage(target, 0) == 0
    {
      hide AddressSpace.Valid;
    }

    static lemma PageOfNumber(addr: nat)
      ensures PageId(addr / PAGE_SIZE * PAGE_SIZE) == PageId(addr)
    {
      PageNumber(addr);
      PageNumber(addr / PAGE_SIZE * PAGE_SIZE);
    }

    ghost predicate AllFetchable(addr: nat, bytes: nat, forExec: bool)
      requires Valid()
      reads asp.Repr()
    {
      forall a | addr <= a < addr + bytes :: Fetchable(a, forExec)
    }

    lemma FetchablePages(addr: nat, bytes: nat, forExec: bool)
      requires Valid() && 0 < bytes <= PAGE_SIZE
      ensures var n := OnFirstPage(addr, bytes);
              && (AllFetchable(addr, bytes, forExec) <==>
                    Fetchable(addr, forExec) && (n == bytes || Fetchable(addr + n, forExec)))
              && (Fetchable(addr, forExec) ==> AllFetchable(addr, n, forExec))
    {
      hide PageBitmap.Has, PageBitmap.Valid, AddressSpace.Valid, PageId;
      forall a | addr <= a < addr + bytes
        ensures Fetchable(a, forExec) <==>
          if a < addr + OnFirstPage(addr, bytes) then Fetchable(addr, forExec)
          else Fetchable(addr + OnFirstPage(addr, bytes), forExec)
      {
        TwoPages(addr, bytes, a);
      }
    }

    /**
     Loads up to a page of bytes, as far as they may be read (and executed, for instructions); the
     byte after them is then the one that faults.
     */
    method CopyFromUser(addr: nat, bytes: nat, forExec: bool)
      returns (data: seq<Byte>, fault: PageFault, faultAddr: nat)
      requires Valid() && bytes <= PAGE_SIZE
      ensures |data| <= bytes && data == Loaded(memory, addr, |data|) && AllFetchable(addr, |data|, forExec)
      ensures |data| < bytes ==> faultAddr == addr + |data| && !Fetchable(faultAddr, forExec)
                                 && fault == PageFault(!Readable(faultAddr), false, forExec && !asp.FastCheck(faultAddr, asp.execMap))
      ensures bytes > 0 ==> (|data| == bytes <==> fault == NO_FAULT)
    {
      hide PageBitmap.Has, PageBitmap.Valid, LastProtection, PageId, OnFirstPage, AllFetchable;
      NoFetch(addr, forExec);
      if 0 < bytes {
        FetchablePages(addr, bytes, forExec);
      }
      if !Fetchable(addr, forExec) {
        return [], PageFault(!Readable(addr), false, forExec && !asp.FastCheck(addr, asp.execMap)), addr;
      }
      var n := OnFirstPage(addr, bytes);
      data := Loaded(memory, addr, n);
      if n == bytes {
        return data, NO_FAULT, 0;
      }
      if !Fetchable(addr + n, forExec) {
        return data, PageFault(!Readable(addr + n), false, forExec && !asp.FastCheck(addr + n, asp.execMap)), addr + n;
      }
      data := data + Loaded(memory, addr + n, bytes - n);
      return data, NO_FAULT, 0;
    }

    lemma NoFetch(addr: nat, forExec: bool)
      requires Valid()
      ensures AllFetchable(addr, 0, forExec) && OnFirstPage(addr, 0) == 0
    {
      hide AddressSpace.Valid;
    }

    /** Bytes that could all be written are read back as far as they may be read. */
    method WriteThenRead(target: nat, source: seq<Byte>) returns (n: nat, data: seq<Byte>)
      requires Valid() && |source| <= PAGE_SIZE
      modifies this, asp.dirtyMap.top
      ensures Valid()
      ensures old(AllWritable(target, |source|)) ==> n == |source| && |data| <= n && data == source[..|data|]
      ensures old(AllWritable(target, |source|)) && AllFetchable(target, |source|, false) ==> data == source
    {
      hide PageBitmap.Has, PageBitmap.Valid, LastProtection, PageId, Stored, Loaded, OnFirstPage, AllWritable, AllFetchable;
      NoBytes(memory, target, source);
      var fault, faultAddr;
      n, fault, faultAddr := CopyToUser(target, source);
      data, fault, faultAddr := CopyFromUser(target, |source|, false);
      if old(AllWritable(target, |source|)) {
        StoredIsLoaded(memory, target, source, |data|);
      }
      NotAllFetchable(target, |source|, |data|);
    }

    lemma NotAllFetchable(addr: nat, bytes: nat, n: nat)
      requires Valid()
      ensures n < bytes && !Fetchable(addr + n, false) ==> !AllFetchable(addr, bytes, false)
    {
      hide AddressSpace.Valid;
    }
  }
}
