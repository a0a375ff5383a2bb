/** Every step of the miss machine keeps its invariant. */
module MissInvariant {
  import opened MissState

  lemma BitsSize(n: nat)
    ensures |Bits(n)| == n
  {
    if n == 0 {
      assert Bits(0) == {};
    } else {
      BitsSize(n - 1);
      assert Bits(n) == Bits(n - 1) + {n - 1};
    }
  }

  lemma EmptyInv()
    ensures Inv(EmptyState())
  {
    BitsSize(LFRQ_SIZE);
    BitsSize(MISSBUF_COUNT);
  }

  // ---- Waking up a load

  lemma WakeOneLinks(s: State)
    requires Shape(s) && QueueInv(s) && LinkInv(s)
    ensures LinkInv(WakeOne(s))
  {
    var i := Lowest(s.ready, LFRQ_SIZE);
    if i < LFRQ_SIZE {
      var t := WakeOne(s);
      forall j, k | 0 <= j < MISSBUF_COUNT && k in t.mbs[j].map_
        ensures Linked(t, k, j)
      {
        assert Linked(s, k, j);
      }
      forall k: nat | k < LFRQ_SIZE && k !in t.free && k in t.waiting
        ensures Linked(t, k, t.mbidx[k]) && k in t.mbs[t.mbidx[k]].map_
      {
        assert Linked(s, k, s.mbidx[k]);
      }
    }
  }

  lemma WakeOneCounts(s: State)
    requires Shape(s) && QueueInv(s) && CountInv(s)
    ensures CountInv(WakeOne(s))
  {
  }

  lemma WakeOneInv(s: State)
    requires Inv(s)
    ensures Inv(WakeOne(s))
  {
    hide LinkInv, CountInv;
    WakeOneLinks(s);
    WakeOneCounts(s);
  }

  // ---- Advancing the miss buffers

  lemma AdvanceQueue(s: State)
    requires Shape(s) && QueueInv(s) && LinkInv(s)
    ensures QueueInv(Advance(s))
  {
    var woken := Woken(s.mbs, |s.mbs|);
    forall k | k in woken
      ensures k < LFRQ_SIZE && k !in s.free && k in s.waiting
    {
      var i :| 0 <= i < |s.mbs| && Arrives(s.mbs[i]) && s.mbs[i].dcache && k in s.mbs[i].map_;
      assert Linked(s, k, i);
    }
  }

  lemma TickInv(e: Entry)
    requires EntryInv(e)
    ensures EntryInv(Tick(e))
    ensures Tick(e).stage == Idle <==> e.stage == Idle || Arrives(e)
    ensures Tick(e).stage != Idle ==> Tick(e).addr == e.addr && Tick(e).dcache == e.dcache && Tick(e).map_ == e.map_
  {
  }

  lemma AdvanceEntry(s: State, i: nat)
    requires Shape(s) && BufferInv(s) && i < MISSBUF_COUNT
    ensures
      var e, t := s.mbs[i], Advance(s);
      && t.mbs[i] == Tick(e) && EntryInv(t.mbs[i])
      && (t.mbs[i].stage == Idle <==> e.stage == Idle || Arrives(e))
      && (t.mbs[i].stage == Idle <==> i in t.mbfree)
      && (t.mbs[i].stage != Idle ==> t.mbs[i].addr == e.addr && t.mbs[i].dcache == e.dcache && t.mbs[i].map_ == e.map_)
      && (t.mbs[i].stage == Idle ==> t.mbs[i].map_ == {})
  {
    hide Tick, Arrives;
    assert EntryInv(s.mbs[i]);
    TickInv(s.mbs[i]);
  }

  /** Entries that keep their line or become idle still wait for different lines. */
  lemma SameLines(old_: seq<Entry>, new_: seq<Entry>)
    requires DistinctLines(old_) && |new_| == |old_|
    requires forall i | 0 <= i < |new_| && new_[i].stage != Idle ::
               old_[i].stage != Idle && new_[i].addr == old_[i].addr
    ensures DistinctLines(new_)
  {
  }

  lemma AdvanceBuffers(s: State)
    requires Shape(s) && BufferInv(s)
    ensures BufferInv(Advance(s))
  {
    hide EntryInv, Tick, Arrives, DistinctLines, Advance;
    var t := Advance(s);
    AdvanceShape(s);
    forall i: nat | i < MISSBUF_COUNT
      ensures EntryInv(t.mbs[i]) && (i in t.mbfree <==> t.mbs[i].stage == Idle)
      ensures t.mbs[i].stage != Idle ==> s.mbs[i].stage != Idle && t.mbs[i].addr == s.mbs[i].addr
    {
      AdvanceEntry(s, i);
    }
    SameLines(s.mbs, t.mbs);
  }

  lemma AdvanceShape(s: State)
    requires Shape(s) && s.mbfree <= Bits(MISSBUF_COUNT)
    ensures Shape(Advance(s)) && Advance(s).mbfree <= Bits(MISSBUF_COUNT)
  {
  }

  /** A linked slot is woken up exactly when its own line arrives. */
  lemma WokenByOwnLine(s: State, k: nat, i: nat)
    requires Shape(s) && LinkInv(s) && i < MISSBUF_COUNT && k in s.mbs[i].map_
    ensures k in Woken(s.mbs, |s.mbs|) <==> Arrives(s.mbs[i])
  {
    hide Arrives;
    assert Linked(s, k, i);
    forall j | 0 <= j < |s.mbs| && k in s.mbs[j].map_
      ensures j == i
    {
      assert Linked(s, k, j);
    }
  }

  lemma AdvancedLink(s: State, k: nat, i: nat)
    requires Shape(s) && BufferInv(s) && LinkInv(s) && i < MISSBUF_COUNT && k in s.mbs[i].map_
    ensures !Arrives(s.mbs[i]) ==> Linked(Advance(s), k, i) && k in Advance(s).mbs[i].map_
    ensures Arrives(s.mbs[i]) ==> k !in Advance(s).waiting
  {
    hide LinkInv, EntryInv, Tick, Arrives, BufferInv;
    AdvanceEntry(s, i);
    WokenByOwnLine(s, k, i);
    assert Linked(s, k, i) by {
      MappedIsLinked(s, k, i);
    }
  }

  lemma MappedIsLinked(s: State, k: nat, i: nat)
    requires Shape(s) && LinkInv(s) && i < MISSBUF_COUNT && k in s.mbs[i].map_
    ensures Linked(s, k, i)
  {
  }

  lemma AdvanceLinks(s: State)
    requires Shape(s) && BufferInv(s) && LinkInv(s)
    ensures LinkInv(Advance(s))
  {
    var t := Advance(s);
    AdvanceShape(s);
    forall i: nat, k: nat | i < MISSBUF_COUNT && k in t.mbs[i].map_
      ensures Linked(t, k, i)
    {
      hide *;
      AdvanceEntry(s, i);
      AdvancedLink(s, k, i);
    }
    forall k: nat | k < LFRQ_SIZE && k !in t.free && k in t.waiting
      ensures Linked(t, k, t.mbidx[k]) && k in t.mbs[t.mbidx[k]].map_
    {
      var i := s.mbidx[k];
      assert Linked(s, k, i) && k in s.mbs[i].map_;
      AdvancedLink(s, k, i);
    }
    hide Linked, Advance, BufferInv;
  }

  lemma AdvanceCounts(s: State)
    requires Shape(s) && BufferInv(s) && CountInv(s)
    ensures CountInv(Advance(s))
  {
    var arrivals := Arrivals(s.mbs, |s.mbs|);
    forall i: nat | i in arrivals
      ensures i !in s.mbfree
    {
      assert EntryInv(s.mbs[i]);
    }
    assert arrivals !! s.mbfree;
  }

  lemma AdvanceInv(s: State)
    requires Inv(s)
    ensures Inv(Advance(s))
  {
    hide QueueInv, BufferInv, LinkInv, CountInv, Advance;
    assert s.mbfree <= Bits(MISSBUF_COUNT) by {
      BufferBounds(s);
    }
    AdvanceShape(s);
    AdvanceQueue(s);
    AdvanceBuffers(s);
    AdvanceLinks(s);
    AdvanceCounts(s);
  }

  lemma ClockInv(s: State)
    requires Inv(s)
    ensures Inv(Clock(s))
  {
    hide QueueInv, BufferInv, LinkInv, CountInv, Advance, WakeOne;
    WakeOneInv(s);
    WakeOneInv(WakeOne(s));
    AdvanceInv(WakeOne(WakeOne(s)));
  }

  lemma BufferBounds(s: State)
    requires Shape(s) && BufferInv(s)
    ensures s.mbfree <= Bits(MISSBUF_COUNT)
  {
  }

  // ---- Misses on a line

  /** Only the miss buffers of two states differ. */
  ghost predicate SameQueue(s: State, t: State) {
    && t.free == s.free && t.waiting == s.waiting && t.ready == s.ready
    && t.reqs == s.reqs && t.mbidx == s.mbidx && t.count == s.count && t.delivered == s.delivered
  }

  /** Entry i of s is still waiting for its line in t, for the same loads and as many cycles, serving at least the same caches. */
  ghost predicate EntryKept(e: Entry, f: Entry) {
    && e.stage == f.stage && e.cycles == f.cycles && e.addr == f.addr && e.map_ == f.map_
    && (e.dcache ==> f.dcache)
  }

  ghost predicate BuffersKept(s: State, t: State)
    requires Shape(s) && Shape(t)
  {
    forall i: nat | i < MISSBUF_COUNT && s.mbs[i].stage != Idle :: EntryKept(s.mbs[i], t.mbs[i])
  }

  /** No entry for the line, and room: a fresh entry is a legal one. */
  lemma FreshEntryInv(line: nat, hitL2: bool, hitL3: bool, icache: bool)
    ensures
      var e := FreshEntry(line, hitL2, hitL3, icache);
      EntryInv(e) && e.stage != Idle && e.addr == line && e.map_ == {} && e.dcache == !icache
  {
  }

  lemma MergedBuffers(s: State, i: nat, icache: bool)
    requires Shape(s) && BufferInv(s) && i < MISSBUF_COUNT && i !in s.mbfree
    ensures
      var e := s.mbs[i].(icache := s.mbs[i].icache || icache, dcache := s.mbs[i].dcache || !icache);
      var t := s.(mbs := s.mbs[i := e]);
      BufferInv(t) && BuffersKept(s, t) && e.stage != Idle
  {
    var e := s.mbs[i].(icache := s.mbs[i].icache || icache, dcache := s.mbs[i].dcache || !icache);
    var t := s.(mbs := s.mbs[i := e]);
    assert EntryInv(s.mbs[i]);
    hide DistinctLines;
    SameLines(s.mbs, t.mbs);
  }

  lemma NewLine(mbs: seq<Entry>, j: nat, e: Entry)
    requires DistinctLines(mbs) && j < |mbs|
    requires forall i | 0 <= i < |mbs| && mbs[i].stage != Idle :: mbs[i].addr != e.addr
    ensures DistinctLines(mbs[j := e])
  {
  }

  lemma AllocatedBuffers(s: State, j: nat, e: Entry)
    requires Shape(s) && BufferInv(s) && j in s.mbfree
    requires EntryInv(e) && e.stage != Idle
    requires forall i: nat | i < MISSBUF_COUNT :: !WaitsFor(s, i, e.addr)
    ensures
      var t := s.(mbs := s.mbs[j := e], mbfree := s.mbfree - {j}, mbcount := s.mbcount + 1);
      Shape(t) && BufferInv(t) && BuffersKept(s, t)
  {
    hide EntryInv;
    forall i: nat | i < MISSBUF_COUNT && s.mbs[i].stage != Idle
      ensures s.mbs[i].addr != e.addr
    {
      assert !WaitsFor(s, i, e.addr);
    }
    hide DistinctLines;
    NewLine(s.mbs, j, e);
  }

  /** Keeping the queue, and the entries in use, keeps all links. */
  lemma KeptLinks(s: State, t: State)
    requires Shape(s) && Shape(t) && LinkInv(s)
    requires SameQueue(s, t) && BuffersKept(s, t)
    requires forall i: nat | i < MISSBUF_COUNT && s.mbs[i].stage == Idle :: t.mbs[i].map_ == {}
    ensures LinkInv(t)
  {
    forall i: nat, k: nat | i < MISSBUF_COUNT && k in t.mbs[i].map_
      ensures Linked(t, k, i)
    {
      assert s.mbs[i].stage != Idle;
      assert EntryKept(s.mbs[i], t.mbs[i]);
      assert Linked(s, k, i);
    }
    forall k: nat | k < LFRQ_SIZE && k !in t.free && k in t.waiting
      ensures Linked(t, k, t.mbidx[k]) && k in t.mbs[t.mbidx[k]].map_
    {
      var i := s.mbidx[k];
      assert Linked(s, k, i);
      assert EntryKept(s.mbs[i], t.mbs[i]);
    }
  }

  /**
   A miss on a line keeps the invariant, the queue and every outstanding miss with its latency.
   It is refused exactly when no buffer waits for the line and none is free; otherwise the buffer
   returned waits for the line and serves the cache that missed.
   */
  lemma LineMissInv(s: State, addr: nat, hitL2: bool, hitL3: bool, icache: bool)
    requires Inv(s)
    ensures
      var (t, i) := LineMiss(s, addr, hitL2, hitL3, icache);
      && Inv(t) && SameQueue(s, t) && BuffersKept(s, t)
      && (i < 0 <==> s.mbfree == {} && forall j: nat | j < MISSBUF_COUNT :: !WaitsFor(s, j, LineOf(addr)))
      && (i < 0 ==> t == s)
      && (i >= 0 ==> t.mbs[i].stage != Idle && t.mbs[i].addr == LineOf(addr) && (icache || t.mbs[i].dcache))
  {
    var line := LineOf(addr);
    var (t, r) := LineMiss(s, addr, hitL2, hitL3, icache);
    var i, j := Find(s, line), Lowest(s.mbfree, MISSBUF_COUNT);
    hide LineOf, QueueInv, LinkInv, DistinctLines, FreshEntry;
    if i < MISSBUF_COUNT {
      MergedBuffers(s, i, icache);
      KeptLinks(s, t);
    } else if j < MISSBUF_COUNT {
      FreshEntryInv(line, hitL2, hitL3, icache);
      AllocatedBuffers(s, j, FreshEntry(line, hitL2, hitL3, icache));
      KeptLinks(s, t);
    }
  }

  /** The buffer returned serves the cache that missed, the instruction cache as well. */
  lemma ServesBoth(s: State, addr: nat, hitL2: bool, hitL3: bool, icache: bool)
    requires Shape(s)
    ensures
      var (t, i) := LineMiss(s, addr, hitL2, hitL3, icache);
      i >= 0 ==> if icache then t.mbs[i].icache else t.mbs[i].dcache
  {
    hide LineOf, Find;
  }

  // ---- Misses of a load

  /** Taking a queue slot does not touch the miss buffers. */
  lemma EnqueueCommutes(s: State, req: Request, k: nat, hitL2: bool, hitL3: bool)
    requires Shape(s) && k < LFRQ_SIZE
    ensures
      var (t, i) := LineMiss(s, req.addr, hitL2, hitL3, false);
      LineMiss(Enqueue(s, req, k), req.addr, hitL2, hitL3, false) == (Enqueue(t, req, k), i)
  {
    hide LineOf, FreshEntry;
    var e := Enqueue(s, req, k);
    var line := LineOf(req.addr);
    forall j: nat | j < MISSBUF_COUNT
      ensures WaitsFor(e, j, line) == WaitsFor(s, j, line)
    {
    }
    assert Find(e, line) == Find(s, line);
  }

  /** Adds queue slot k to the wakeup map of miss buffer i. */
  function Link(s: State, k: nat, i: nat): State
    requires Shape(s) && k < LFRQ_SIZE && i < MISSBUF_COUNT
  {
    s.(mbs := s.mbs[i := s.mbs[i].(map_ := s.mbs[i].map_ + {k})], mbidx := s.mbidx[k := i])
  }

  lemma EnqueueLinkQueue(s: State, req: Request, k: nat, i: nat)
    requires Inv(s) && k in s.free && i < MISSBUF_COUNT
    ensures k < LFRQ_SIZE && Shape(Link(Enqueue(s, req, k), k, i)) && QueueInv(Link(Enqueue(s, req, k), k, i))
    ensures CountInv(Link(Enqueue(s, req, k), k, i))
  {
    hide BufferInv, LinkInv;
  }

  lemma EnqueueLinkBuffers(s: State, req: Request, k: nat, i: nat)
    requires Shape(s) && BufferInv(s) && k < LFRQ_SIZE && i < MISSBUF_COUNT && s.mbs[i].stage != Idle
    ensures Shape(Link(Enqueue(s, req, k), k, i)) && BufferInv(Link(Enqueue(s, req, k), k, i))
  {
    hide DistinctLines;
    SameLines(s.mbs, Link(Enqueue(s, req, k), k, i).mbs);
  }

  lemma EnqueueLinkLinks(s: State, req: Request, k: nat, i: nat)
    requires Shape(s) && LinkInv(s) && k < LFRQ_SIZE && k in s.free && i < MISSBUF_COUNT
    requires s.mbs[i].stage != Idle && s.mbs[i].dcache && s.mbs[i].addr == LineOf(req.addr)
    ensures Shape(Link(Enqueue(s, req, k), k, i)) && LinkInv(Link(Enqueue(s, req, k), k, i))
  {
    hide LineOf;
    var t := Link(Enqueue(s, req, k), k, i);
    forall j: nat, m: nat | j < MISSBUF_COUNT && m in t.mbs[j].map_
      ensures Linked(t, m, j)
    {
      if m in s.mbs[j].map_ {
        assert Linked(s, m, j);
      }
    }
    forall m: nat | m < LFRQ_SIZE && m !in t.free && m in t.waiting
      ensures Linked(t, m, t.mbidx[m]) && m in t.mbs[t.mbidx[m]].map_
    {
      if m != k {
        assert Linked(s, m, s.mbidx[m]);
      }
    }
  }

  /** The loads in the queue. */
  ghost function Pending(s: State): multiset<Request>
    requires Shape(s)
  {
    PendingBelow(s.free, s.reqs, LFRQ_SIZE)
  }

  ghost function PendingBelow(free: set<nat>, reqs: seq<Request>, n: nat): multiset<Request>
    requires n <= |reqs|
  {
    if n == 0 then multiset{}
    else PendingBelow(free, reqs, n - 1) + if n - 1 in free then multiset{} else multiset{reqs[n - 1]}
  }

  lemma PendingOthers(free: set<nat>, reqs: seq<Request>, free': set<nat>, reqs': seq<Request>, n: nat)
    requires n <= |reqs| && n <= |reqs'|
    requires forall k: nat | k < n :: k in free <==> k in free'
    requires forall k: nat | k < n && k !in free :: reqs[k] == reqs'[k]
    ensures PendingBelow(free, reqs, n) == PendingBelow(free', reqs', n)
  {
  }

  /** Emptying a slot takes its request from those pending. */
  lemma PendingRemoved(free: set<nat>, reqs: seq<Request>, k: nat, n: nat)
    requires k !in free && k < n <= |reqs|
    ensures PendingBelow(free, reqs, n) == PendingBelow(free + {k}, reqs, n) + multiset{reqs[k]}
  {
    if k == n - 1 {
      PendingOthers(free, reqs, free + {k}, reqs, n - 1);
    } else {
      PendingRemoved(free, reqs, k, n - 1);
    }
  }

  /** Filling a free slot adds its request to those pending. */
  lemma PendingAdded(free: set<nat>, reqs: seq<Request>, k: nat, req: Request, n: nat)
    requires k in free && k < n <= |reqs|
    ensures PendingBelow(free - {k}, reqs[k := req], n) == PendingBelow(free, reqs, n) + multiset{req}
  {
    PendingRemoved(free - {k}, reqs[k := req], k, n);
    assert free - {k} + {k} == free;
    PendingOthers(free, reqs, free, reqs[k := req], n);
  }

  /** Every outstanding miss of s is still outstanding in t, for the same line and as many cycles. */
  ghost predicate MissesKept(s: State, t: State)
    requires Shape(s) && Shape(t)
  {
    forall i: nat | i < MISSBUF_COUNT && s.mbs[i].stage != Idle ::
      t.mbs[i].stage != Idle && t.mbs[i].addr == s.mbs[i].addr && Rank(t.mbs[i]) == Rank(s.mbs[i])
  }

  /** The state after a load got queue slot k but no miss buffer. */
  function Refuse(s: State, req: Request, k: nat): State
    requires Shape(s) && k < LFRQ_SIZE
  {
    var e := Enqueue(s, req, k);
    e.(waiting := e.waiting - {k}, free := e.free + {k})
  }

  lemma RefuseInv(s: State, req: Request, k: nat)
    requires Inv(s) && k in s.free
    ensures k < LFRQ_SIZE && Inv(Refuse(s, req, k)) && Refuse(s, req, k).free == s.free
    ensures Pending(Refuse(s, req, k)) == Pending(s)
  {
    var t := Refuse(s, req, k);
    assert t.free == s.free;
    RefuseLinks(s, req, k);
    PendingOthers(s.free, s.reqs, t.free, t.reqs, LFRQ_SIZE);
    hide LinkInv, BufferInv;
  }

  lemma RefuseLinks(s: State, req: Request, k: nat)
    requires Shape(s) && LinkInv(s) && k in s.free && k < LFRQ_SIZE
    ensures LinkInv(Refuse(s, req, k))
  {
    hide LineOf;
    var t := Refuse(s, req, k);
    forall j: nat, m: nat | j < MISSBUF_COUNT && m in t.mbs[j].map_
      ensures Linked(t, m, j)
    {
      assert Linked(s, m, j);
    }
    forall m: nat | m < LFRQ_SIZE && m !in t.free && m in t.waiting
      ensures Linked(t, m, t.mbidx[m]) && m in t.mbs[t.mbidx[m]].map_
    {
      assert Linked(s, m, s.mbidx[m]);
    }
  }

  /**
   A load miss keeps the invariant. An accepted load becomes pending in a slot linked to the buffer
   of its line; a refused one leaves everything but the counter, and the contents of free slots.
   */
  lemma LoadMissInv(s: State, req: Request, hitL2: bool, hitL3: bool)
    requires Inv(s)
    ensures
      var (t, r) := LoadMiss(s, req, hitL2, hitL3);
      && Inv(t) && MissesKept(s, t) && t.delivered == s.delivered && t.ready == s.ready
      && (r.Accepted? ==>
            && r.slot in s.free && t.free == s.free - {r.slot} && t.reqs == s.reqs[r.slot := req]
            && Linked(t, r.slot, t.mbidx[r.slot])
            && Pending(t) == Pending(s) + multiset{req})
      && (forall m: nat | m < LFRQ_SIZE && m !in s.free :: t.reqs[m] == s.reqs[m])
      && (!r.Accepted? ==> t.free == s.free && t.mbs == s.mbs && t.mbfree == s.mbfree && Pending(t) == Pending(s))
  {
    hide LineOf, QueueInv, LinkInv, BufferInv, CountInv, LineMiss;
    var k := Lowest(s.free, LFRQ_SIZE);
    if k < LFRQ_SIZE && s.count < LFRQ_SIZE {
      LineMissInv(s, req.addr, hitL2, hitL3, false);
      EnqueueCommutes(s, req, k, hitL2, hitL3);
      var (t, i) := LineMiss(s, req.addr, hitL2, hitL3, false);
      if i >= 0 {
        EnqueueLinkQueue(t, req, k, i);
        EnqueueLinkBuffers(t, req, k, i);
        EnqueueLinkLinks(t, req, k, i);
        PendingAdded(s.free, s.reqs, k, req, LFRQ_SIZE);
      } else {
        RefuseInv(s, req, k);
      }
    }
  }

  /** A load is taken in exactly when there is a queue slot, room by the count, and a buffer, be it one waiting for its line. */
  lemma LoadAccepted(s: State, req: Request, hitL2: bool, hitL3: bool)
    requires Inv(s)
    ensures
      var r := LoadMiss(s, req, hitL2, hitL3).1;
      && (r.AssertionFailed? <==> s.free != {} && s.count >= LFRQ_SIZE)
      && (r.Accepted? <==>
            && s.free != {} && s.count < LFRQ_SIZE
            && (s.mbfree != {} || exists i: nat :: i < MISSBUF_COUNT && WaitsFor(s, i, LineOf(req.addr))))
  {
    hide LineOf, LinkInv, BufferInv, CountInv, LineMiss;
    var k := Lowest(s.free, LFRQ_SIZE);
    LineMissInv(s, req.addr, hitL2, hitL3, false);
    assert forall j | j in s.free :: j < LFRQ_SIZE;
    if k < LFRQ_SIZE {
      EnqueueCommutes(s, req, k, hitL2, hitL3);
    }
  }

  // ---- Cancelling loads

  lemma AnnulLinks(s: State, k: nat)
    requires Shape(s) && k < LFRQ_SIZE && LinkInv(s)
    ensures LinkInv(Annul(s, k))
  {
    hide LineOf;
    var t := Annul(s, k);
    forall j: nat, m: nat | j < MISSBUF_COUNT && m in t.mbs[j].map_
      ensures Linked(t, m, j)
    {
      assert Linked(s, m, j);
    }
    forall m: nat | m < LFRQ_SIZE && m !in t.free && m in t.waiting
      ensures Linked(t, m, t.mbidx[m]) && m in t.mbs[t.mbidx[m]].map_
    {
      assert Linked(s, m, s.mbidx[m]);
    }
  }

  lemma AnnulBuffers(s: State, k: nat)
    requires Shape(s) && k < LFRQ_SIZE && BufferInv(s)
    ensures BufferInv(Annul(s, k))
  {
    hide DistinctLines;
    SameLines(s.mbs, Annul(s, k).mbs);
  }

  /** Cancelling a load takes exactly it from those pending. */
  lemma AnnulInv(s: State, k: nat)
    requires Inv(s) && k < LFRQ_SIZE && k !in s.free
    ensures Inv(Annul(s, k)) && MissesKept(s, Annul(s, k))
    ensures Pending(s) == Pending(Annul(s, k)) + multiset{s.reqs[k]}
  {
    hide LinkInv, BufferInv, PendingBelow;
    PendingRemoved(s.free, s.reqs, k, LFRQ_SIZE);
    AnnulLinks(s, k);
    AnnulBuffers(s, k);
  }

  lemma RestartBuffers(s: State)
    requires Shape(s) && BufferInv(s)
    ensures Shape(Restart(s)) && BufferInv(Restart(s))
  {
    hide DistinctLines;
    SameLines(s.mbs, Restart(s).mbs);
  }

  lemma PendingNone(free: set<nat>, reqs: seq<Request>, n: nat)
    requires n <= |reqs| && forall k: nat | k < n :: k in free
    ensures PendingBelow(free, reqs, n) == multiset{}
  {
  }

  lemma RestartInv(s: State)
    requires Inv(s)
    ensures Inv(Restart(s)) && MissesKept(s, Restart(s)) && Pending(Restart(s)) == multiset{}
  {
    RestartBuffers(s);
    BitsSize(LFRQ_SIZE);
    PendingNone(Bits(LFRQ_SIZE), s.reqs, LFRQ_SIZE);
    hide BufferInv;
  }

  // ---- What a clock does to the loads

  /** A wakeup hands one pending load to the core. */
  lemma WakeOneDelivers(s: State)
    requires Shape(s) && QueueInv(s)
    ensures s.delivered <= WakeOne(s).delivered
    ensures Pending(s) + multiset(s.delivered) == Pending(WakeOne(s)) + multiset(WakeOne(s).delivered)
  {
    var i := Lowest(s.ready, LFRQ_SIZE);
    if i < LFRQ_SIZE {
      PendingRemoved(s.free, s.reqs, i, LFRQ_SIZE);
    }
  }

  /** A clock neither loses nor invents loads: those no longer pending were handed to the core. */
  lemma ClockDelivers(s: State)
    requires Inv(s)
    ensures s.delivered <= Clock(s).delivered
    ensures Pending(s) + multiset(s.delivered) == Pending(Clock(s)) + multiset(Clock(s).delivered)
  {
    hide QueueInv, BufferInv, LinkInv, CountInv, Advance, WakeOne, PendingBelow;
    WakeOneInv(s);
    WakeOneInv(WakeOne(s));
    WakeOneDelivers(s);
    WakeOneDelivers(WakeOne(s));
    AdvancePending(WakeOne(WakeOne(s)));
  }

  lemma AdvancePending(s: State)
    requires Shape(s)
    ensures Shape(Advance(s)) && Pending(Advance(s)) == Pending(s) && Advance(s).delivered == s.delivered
  {
  }
}
