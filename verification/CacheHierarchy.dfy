/**
 The miss handling code of the cache hierarchy, updating its bit vectors, queue slots and miss
 buffers in place, proved against the step functions of MissState.
 */
module MissHandling {
  import opened MissInvariant
  import opened MissState

  lemma ReadyIsBusy(s: State, i: nat)
    requires Inv(s) && i in s.ready
    ensures i !in s.free
  {
  }

  /** The state when the first n miss buffers have advanced. */
  ghost function Advanced(s: State, n: nat): State
    requires Shape(s) && n <= MISSBUF_COUNT
  {
    s.(mbs := Ticked(s.mbs)[..n] + s.mbs[n..],
       mbfree := s.mbfree + Arrivals(s.mbs, n), mbcount := s.mbcount - |Arrivals(s.mbs, n)|,
       waiting := s.waiting - Woken(s.mbs, n), ready := s.ready + Woken(s.mbs, n))
  }

  lemma AdvancedNone(s: State)
    requires Shape(s)
    ensures Advanced(s, 0) == s
  {
  }

  lemma AdvancedAll(s: State)
    requires Shape(s)
    ensures Advanced(s, MISSBUF_COUNT) == Advance(s)
  {
    hide Tick, Arrives, Woken, Arrivals;
    assert Ticked(s.mbs)[..MISSBUF_COUNT] + s.mbs[MISSBUF_COUNT..] == Ticked(s.mbs);
  }

  lemma NextTicked(mbs: seq<Entry>, n: nat)
    requires n < |mbs|
    ensures Ticked(mbs)[..n + 1] + mbs[n + 1..] == (Ticked(mbs)[..n] + mbs[n..])[n := Tick(mbs[n])]
  {
    hide Tick;
  }

  lemma NextWoken(mbs: seq<Entry>, n: nat, waiting: set<nat>, ready: set<nat>)
    requires n < |mbs|
    ensures
      var woken := if Arrives(mbs[n]) && mbs[n].dcache then mbs[n].map_ else {};
      && waiting - Woken(mbs, n + 1) == waiting - Woken(mbs, n) - woken
      && ready + Woken(mbs, n + 1) == ready + Woken(mbs, n) + woken
  {
    hide Arrives;
    var woken := if Arrives(mbs[n]) && mbs[n].dcache then mbs[n].map_ else {};
    assert Woken(mbs, n + 1) == Woken(mbs, n) + woken;
  }

  lemma NextArrivals(mbs: seq<Entry>, n: nat, mbfree: set<nat>)
    requires n < |mbs|
    ensures mbfree + Arrivals(mbs, n + 1) == if Arrives(mbs[n]) then mbfree + Arrivals(mbs, n) + {n} else mbfree + Arrivals(mbs, n)
    ensures |Arrivals(mbs, n + 1)| == |Arrivals(mbs, n)| + if Arrives(mbs[n]) then 1 else 0
  {
    hide Arrives;
  }

  lemma AdvancedNext(s: State, n: nat)
    requires Shape(s) && n < MISSBUF_COUNT
    ensures
      var t, e := Advanced(s, n), s.mbs[n];
      var woken := if Arrives(e) && e.dcache then e.map_ else {};
      && t.mbs[n] == e
      && Advanced(s, n + 1) ==
           t.(mbs := t.mbs[n := Tick(e)],
              mbfree := if Arrives(e) then t.mbfree + {n} else t.mbfree,
              mbcount := if Arrives(e) then t.mbcount - 1 else t.mbcount,
              waiting := t.waiting - woken, ready := t.ready + woken)
  {
    hide Tick, Arrives, Woken, Arrivals;
    NextTicked(s.mbs, n);
    NextWoken(s.mbs, n, s.waiting, s.ready);
    NextArrivals(s.mbs, n, s.mbfree);
  }

  // ---- Cancelling all loads one by one

  /** What has changed since cancelling all loads began: only slots, links and wakeup maps. */
  ghost predicate Cancelling(before: State, s: State) {
    && Shape(before) && Shape(s)
    && s == before.(free := s.free, waiting := s.waiting, ready := s.ready, count := s.count,
                    mbidx := s.mbidx, mbs := s.mbs)
    && before.free <= s.free && WithoutMaps(s.mbs) == WithoutMaps(before.mbs)
    && (forall k: nat | k < LFRQ_SIZE :: s.mbidx[k] == if k in s.free && k !in before.free then -1 else before.mbidx[k])
  }

  lemma CancellingStarts(s: State)
    requires Shape(s)
    ensures Cancelling(s, s)
  {
  }

  lemma CancelNext(before: State, s: State, k: nat)
    requires Cancelling(before, s) && k < LFRQ_SIZE && k !in s.free
    ensures Cancelling(before, Annul(s, k)) && Annul(s, k).free == s.free + {k}
  {
    var t := Annul(s, k);
    forall i: nat | i < MISSBUF_COUNT
      ensures WithoutMaps(t.mbs)[i] == WithoutMaps(s.mbs)[i]
    {
    }
    assert WithoutMaps(t.mbs) == WithoutMaps(s.mbs);
  }

  lemma CancellingEnds(before: State, s: State)
    requires Inv(s) && Cancelling(before, s) && Bits(LFRQ_SIZE) - s.free == {}
    ensures s.mbidx == Restart(before).mbidx
    ensures s.delivered == before.delivered && s.reqs == before.reqs
    ensures s.mbfree == before.mbfree && s.mbcount == before.mbcount
    ensures forall i: nat | i < MISSBUF_COUNT :: s.mbs[i].(map_ := {}) == before.mbs[i].(map_ := {})
    ensures s.mbfree == Bits(MISSBUF_COUNT) ==> s.mbs == WithoutMaps(before.mbs)
  {
    hide QueueInv, LinkInv, CountInv, DistinctLines;
    forall i: nat | i < MISSBUF_COUNT
      ensures s.mbs[i].(map_ := {}) == before.mbs[i].(map_ := {})
    {
      assert WithoutMaps(s.mbs)[i] == WithoutMaps(before.mbs)[i];
    }
    forall k: nat | k < LFRQ_SIZE
      ensures k in s.free
    {
      assert k !in Bits(LFRQ_SIZE) - s.free;
    }
    if s.mbfree == Bits(MISSBUF_COUNT) {
      forall i: nat | i < MISSBUF_COUNT
        ensures s.mbs[i].map_ == {}
      {
        assert EntryInv(s.mbs[i]);
      }
    }
  }

  lemma LowestIsBusy(busy: set<nat>, k: nat)
    requires busy != {} && busy <= Bits(LFRQ_SIZE) && k == Lowest(busy, LFRQ_SIZE)
    ensures k in busy
  {
    var j :| j in busy;
    assert j < LFRQ_SIZE;
  }

  class CacheHierarchy {
    var free: set<nat>
    var waiting: set<nat>
    var ready: set<nat>
    const reqs: array<Request>
    const mbidx: array<int>
    var count: int
    const mbs: array<Entry>
    var mbfree: set<nat>
    var mbcount: int
    var delivered: seq<Request> // the wakeup callbacks made to the core

    ghost function Abs(): State
      reads this, reqs, mbidx, mbs
    {
      State(free, waiting, ready, reqs[..], mbidx[..], count, mbs[..], mbfree, mbcount, delivered)
    }

    ghost predicate Valid()
      reads this, reqs, mbidx, mbs
    {
      Inv(Abs())
    }

    constructor ()
      ensures Valid() && Abs() == EmptyState()
      ensures fresh(reqs) && fresh(mbidx) && fresh(mbs)
    {
      free, waiting, ready, count := Bits(LFRQ_SIZE), {}, {}, 0;
      reqs := new Request[LFRQ_SIZE](_ => Request(0, 0));
      mbidx := new int[LFRQ_SIZE](_ => -1);
      mbs := new Entry[MISSBUF_COUNT](_ => IDLE_ENTRY);
      mbfree, mbcount, delivered := Bits(MISSBUF_COUNT), 0, [];
      new;
      EmptyInv();
      assert Abs() == EmptyState();
    }

    /** Hands up to two ready loads to the core. */
    method ClockQueue()
      requires Valid()
      modifies this
      ensures Valid() && Abs() == WakeOne(WakeOne(old(Abs())))
    {
      hide QueueInv, BufferInv, LinkInv, CountInv, Lowest;
      WakeOneInv(Abs());
      WakeOneInv(WakeOne(Abs()));
      ghost var before := Abs();
      var n := 0;
      while n < 2
        invariant n <= 2
        invariant Abs() == if n == 0 then before else if n == 1 then WakeOne(before) else WakeOne(WakeOne(before))
      {
        var i := Lowest(ready, LFRQ_SIZE);
        if i == LFRQ_SIZE {
          break;
        }
        ReadyIsBusy(Abs(), i);
        assert i !in free;
        delivered := delivered + [reqs[i]];
        ready, free := ready - {i}, free + {i};
        count := count - 1;
        n := n + 1;
      }
    }

    /** Every miss buffer in use gets one cycle closer; arriving lines wake up their loads. */
    method ClockBuffers()
      requires Valid()
      modifies this, mbs
      ensures Valid() && Abs() == Advance(old(Abs()))
    {
      hide QueueInv, BufferInv, LinkInv, CountInv, Advance, Advanced, Ticked, Arrivals, Woken;
      ghost var before := Abs();
      AdvancedNone(before);
      for i := 0 to MISSBUF_COUNT
        invariant Abs() == Advanced(before, i)
      {
        AdvancedNext(before, i);
        var e := mbs[i];
        match e.stage {
          case Idle =>
          case ToL3 =>
            e := e.(cycles := Decrement(e.cycles));
            if e.cycles == 0 {
              e := e.(cycles := L3_LATENCY, stage := ToL2);
            }
          case ToL2 =>
            e := e.(cycles := Decrement(e.cycles));
            if e.cycles == 0 {
              e := e.(cycles := L2_LATENCY, stage := ToL1);
            }
          case ToL1 =>
            e := e.(cycles := Decrement(e.cycles));
            if e.cycles == 0 {
              if e.dcache {
                Wakeup(e.map_);
              }
              mbfree := mbfree + {i};
              e := IDLE_ENTRY;
              mbcount := mbcount - 1;
            }
        }
        mbs[i] := e;
      }
      AdvancedAll(before);
      AdvanceInv(before);
    }

    /** Makes the loads in a wakeup map ready. */
    method Wakeup(slots: set<nat>)
      modifies `waiting, `ready
      ensures waiting == old(waiting) - slots && ready == old(ready) + slots
    {
      waiting := waiting - slots;
      ready := ready + slots;
    }

    /** One clock of the cache hierarchy. */
    method Tock()
      requires Valid()
      modifies this, mbs
      ensures Valid() && Abs() == Clock(old(Abs()))
    {
      ClockQueue();
      ClockBuffers();
    }

    /** The miss buffer waiting for a line; -1 when there is none. */
    method FindBuffer(line: nat) returns (i: int)
      requires Shape(Abs())
      ensures i == if Find(Abs(), line) < MISSBUF_COUNT then Find(Abs(), line) else -1
    {
      hide Find;
      i := 0;
      while i < MISSBUF_COUNT
        invariant 0 <= i <= MISSBUF_COUNT
        invariant forall j: nat | j < i :: !WaitsFor(Abs(), j, line)
      {
        if mbs[i].addr == line && i !in mbfree {
          assert WaitsFor(Abs(), i, line);
          return;
        }
        i := i + 1;
      }
      return -1;
    }

    /** A miss on a line: joins the buffer already waiting for it, or takes a free one; -1 when all are in use. */
    method InitiateLineMiss(addr: nat, hitL2: bool, hitL3: bool, icache: bool) returns (i: int)
      requires Shape(Abs())
      modifies `mbfree, `mbcount, mbs
      ensures (Abs(), i) == LineMiss(old(Abs()), addr, hitL2, hitL3, icache)
      ensures old(Valid()) ==> Valid()
    {
      hide Inv, Find, LineOf;
      ghost var before := Abs();
      if Inv(before) {
        LineMissInv(before, addr, hitL2, hitL3, icache);
      }
      var line := LineOf(addr);
      i := FindBuffer(line);
      if i >= 0 {
        mbs[i] := mbs[i].(icache := mbs[i].icache || icache, dcache := mbs[i].dcache || !icache);
        return;
      }
      var j := Lowest(mbfree, MISSBUF_COUNT);
      if j == MISSBUF_COUNT {
        return;
      }
      mbfree := mbfree - {j};
      mbcount := mbcount + 1;
      var e := Entry(line, Idle, 0, !icache, icache, {});
      if hitL2 {
        e := e.(stage := ToL1, cycles := L2_LATENCY);
      } else if hitL3 {
        e := e.(stage := ToL2, cycles := L3_LATENCY);
      } else {
        e := e.(stage := ToL3, cycles := MAIN_MEM_LATENCY);
      }
      mbs[j] := e;
      i := j;
    }

    /** A load misses: it gets a queue slot linked to the buffer of its line, if both are available. */
    method InitiateLoadMiss(req: Request, hitL2: bool, hitL3: bool) returns (r: LoadResult)
      requires Valid()
      modifies this, reqs, mbidx, mbs
      ensures Valid() && (Abs(), r) == LoadMiss(old(Abs()), req, hitL2, hitL3)
    {
      hide QueueInv, BufferInv, LinkInv, CountInv, MissesKept, Pending, LineMiss, Linked;
      LoadMissInv(Abs(), req, hitL2, hitL3);
      ghost var before := Abs();
      var k := Lowest(free, LFRQ_SIZE);
      if k == LFRQ_SIZE {
        return Refused;
      }
      if count >= LFRQ_SIZE {
        return AssertionFailed;
      }
      free, waiting := free - {k}, waiting + {k};
      reqs[k] := req;
      mbidx[k] := -1;
      count := count + 1;
      assert Abs() == Enqueue(before, req, k);
      var i := InitiateLineMiss(req.addr, hitL2, hitL3, false);
      if i < 0 {
        waiting, free := waiting - {k}, free + {k};
        return Refused;
      }
      mbs[i] := mbs[i].(map_ := mbs[i].map_ + {k});
      mbidx[k] := i;
      return Accepted(k);
    }

    /** Takes a queue slot out of all wakeup maps. */
    method AnnulSlot(k: nat)
      requires Shape(Abs())
      modifies mbs
      ensures Abs() == old(Abs()).(mbs := WithoutSlot(old(mbs[..]), k))
    {
      ghost var before := mbs[..];
      for i := 0 to MISSBUF_COUNT
        invariant forall j | 0 <= j < MISSBUF_COUNT :: mbs[j] == if j < i then WithoutSlot(before, k)[j] else before[j]
      {
        mbs[i] := mbs[i].(map_ := mbs[i].map_ - {k});
      }
      assert mbs[..] == WithoutSlot(before, k);
    }

    /** Cancels a load in the queue. */
    method AnnulLoad(k: nat)
      requires Valid() && k < LFRQ_SIZE && k !in free
      modifies this, mbidx, mbs
      ensures Valid() && Abs() == Annul(old(Abs()), k)
    {
      hide QueueInv, BufferInv, LinkInv, CountInv, MissesKept, Pending;
      AnnulInv(Abs(), k);
      AnnulSlot(k);
      mbidx[k] := -1;
      ready, free := ready - {k}, free + {k};
      count := count - 1;
      assert Abs() == Annul(old(Abs()), k);
    }

    /** Cancels all loads one by one, and empties all wakeup maps. */
    method Complete()
      requires Valid()
      modifies this, mbidx, mbs
      ensures Valid() && Abs() == Restart(old(Abs()))
    {
      hide QueueInv, BufferInv, LinkInv, CountInv, MissesKept, Pending, Annul, Cancelling;
      ghost var before := Abs();
      RestartInv(before);
      CancellingStarts(before);
      var busy := Bits(LFRQ_SIZE) - free;
      while busy != {}
        invariant Valid() && busy == Bits(LFRQ_SIZE) - free
        invariant Cancelling(before, Abs())
        decreases busy
      {
        var k := Lowest(busy, LFRQ_SIZE);
        LowestIsBusy(busy, k);
        CancelNext(before, Abs(), k);
        AnnulLoad(k);
        busy := Bits(LFRQ_SIZE) - free;
      }
      CancellingEnds(before, Abs());
      free, ready, waiting, count := Bits(LFRQ_SIZE), {}, {}, 0;
      if mbfree != Bits(MISSBUF_COUNT) {
        for i := 0 to MISSBUF_COUNT
          modifies mbs
          invariant forall j: nat | j < i :: mbs[j] == before.mbs[j].(map_ := {})
          invariant forall j: nat | i <= j < MISSBUF_COUNT :: mbs[j].(map_ := {}) == before.mbs[j].(map_ := {})
        {
          mbs[i] := mbs[i].(map_ := {});
        }
      }
      assert mbs[..] == WithoutMaps(before.mbs);
      assert Abs() == Restart(before);
    }
  }
}
