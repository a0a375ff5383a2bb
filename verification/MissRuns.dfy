/** Runs of the miss machine: what holds after any sequence of steps, and how long a load waits. */
module MissRuns {
  import Buckets
  import opened MissInvariant
  import opened MissState

  datatype Step =
    | Tock // one clock of the cache hierarchy
    | Load(req: Request, hitL2: bool, hitL3: bool)
    | Line(addr: nat, hitL2: bool, hitL3: bool, icache: bool)
    | Cancel(slot: nat)
    | CancelAll

  /** Only loads in the queue can be cancelled. */
  predicate Enabled(s: State, step: Step)
    requires Shape(s)
  {
    step.Cancel? ==> step.slot < LFRQ_SIZE && step.slot !in s.free
  }

  function Apply(s: State, step: Step): State
    requires Shape(s) && Enabled(s, step)
  {
    match step
    case Tock => Clock(s)
    case Load(req, hitL2, hitL3) => LoadMiss(s, req, hitL2, hitL3).0
    case Line(addr, hitL2, hitL3, icache) => LineMiss(s, addr, hitL2, hitL3, icache).0
    case Cancel(k) => Annul(s, k)
    case CancelAll => Restart(s)
  }

  lemma ApplyInv(s: State, step: Step)
    requires Inv(s) && Enabled(s, step)
    ensures Inv(Apply(s, step))
  {
    hide QueueInv, BufferInv, LinkInv, CountInv, Clock, LoadMiss, LineMiss, Annul, Restart, SameQueue, BuffersKept, MissesKept;
    match step
    case Tock => ClockInv(s);
    case Load(req, hitL2, hitL3) => LoadMissInv(s, req, hitL2, hitL3);
    case Line(addr, hitL2, hitL3, icache) => LineMissInv(s, addr, hitL2, hitL3, icache);
    case Cancel(k) => AnnulInv(s, k);
    case CancelAll => RestartInv(s);
  }

  /** Consecutive states of a run. */
  ghost predicate IsRun(states: seq<State>, steps: seq<Step>) {
    && |states| == |steps| + 1
    && (forall i | 0 <= i < |steps| ::
          Shape(states[i]) && Enabled(states[i], steps[i]) && states[i + 1] == Apply(states[i], steps[i]))
  }

  lemma RunKeepsInv(states: seq<State>, steps: seq<Step>, i: nat)
    requires IsRun(states, steps) && Inv(states[0]) && i < |states|
    ensures Inv(states[i])
  {
    if i > 0 {
      RunKeepsInv(states, steps, i - 1);
      ApplyInv(states[i - 1], steps[i - 1]);
    }
  }

  // ---- Every accepted load is pending, delivered once, or cancelled

  ghost function AcceptedBy(s: State, step: Step): multiset<Request>
    requires Shape(s)
  {
    if step.Load? && LoadMiss(s, step.req, step.hitL2, step.hitL3).1.Accepted? then multiset{step.req} else multiset{}
  }

  ghost function CancelledBy(s: State, step: Step): multiset<Request>
    requires Shape(s) && Enabled(s, step)
  {
    match step
    case Cancel(k) => multiset{s.reqs[k]}
    case CancelAll => Pending(s)
    case _ => multiset{}
  }

  lemma QueueUntouched(s: State, t: State)
    requires Shape(s) && Shape(t) && SameQueue(s, t)
    ensures Pending(s) == Pending(t) && s.delivered == t.delivered
  {
  }

  lemma StepConserves(s: State, step: Step)
    requires Inv(s) && Enabled(s, step)
    ensures
      var t := Apply(s, step);
      Shape(t) && Pending(s) + multiset(s.delivered) + AcceptedBy(s, step)
               == Pending(t) + multiset(t.delivered) + CancelledBy(s, step)
  {
    hide QueueInv, BufferInv, LinkInv, CountInv, Clock, LoadMiss, LineMiss, SameQueue, BuffersKept, MissesKept, PendingBelow, Pending;
    match step
    case Tock =>
      ClockInv(s);
      ClockDelivers(s);
    case Load(req, hitL2, hitL3) => LoadMissInv(s, req, hitL2, hitL3);
    case Line(addr, hitL2, hitL3, icache) =>
      LineMissInv(s, addr, hitL2, hitL3, icache);
      QueueUntouched(s, LineMiss(s, addr, hitL2, hitL3, icache).0);
    case Cancel(k) => AnnulInv(s, k);
    case CancelAll => RestartInv(s);
  }

  ghost function AcceptedIn(states: seq<State>, steps: seq<Step>, n: nat): multiset<Request>
    requires IsRun(states, steps) && n <= |steps|
  {
    if n == 0 then multiset{} else AcceptedIn(states, steps, n - 1) + AcceptedBy(states[n - 1], steps[n - 1])
  }

  ghost function CancelledIn(states: seq<State>, steps: seq<Step>, n: nat): multiset<Request>
    requires IsRun(states, steps) && n <= |steps|
  {
    if n == 0 then multiset{} else CancelledIn(states, steps, n - 1) + CancelledBy(states[n - 1], steps[n - 1])
  }

  lemma Balance(a: multiset<Request>, d: multiset<Request>, c: multiset<Request>, p: multiset<Request>,
                accepted: multiset<Request>, cancelled: multiset<Request>,
                d': multiset<Request>, p': multiset<Request>)
    requires a == d + c + p
    requires p + d + accepted == p' + d' + cancelled
    ensures a + accepted == d' + (c + cancelled) + p'
  {
    assert a + accepted == (p + d + accepted) + c;
    assert d' + (c + cancelled) + p' == (p' + d' + cancelled) + c;
  }

  /**
   After any run from the empty state, the accepted loads are those delivered to the core, those
   cancelled and those still in the queue, with multiplicities: none is lost, none delivered twice.
   */
  lemma LoadsConserved(states: seq<State>, steps: seq<Step>, n: nat)
    requires IsRun(states, steps) && states[0] == EmptyState() && n <= |steps|
    ensures Shape(states[n])
    ensures AcceptedIn(states, steps, n)
         == multiset(states[n].delivered) + CancelledIn(states, steps, n) + Pending(states[n])
  {
    hide Inv, EmptyState, Apply, AcceptedBy, CancelledBy, Pending;
    if n == 0 {
      EmptyIsEmpty();
    } else {
      EmptyInv();
      RunKeepsInv(states, steps, n - 1);
      var s, t, step := states[n - 1], states[n], steps[n - 1];
      StepConserves(s, step);
      LoadsConserved(states, steps, n - 1);
      Balance(AcceptedIn(states, steps, n - 1), multiset(s.delivered), CancelledIn(states, steps, n - 1), Pending(s),
              AcceptedBy(s, step), CancelledBy(s, step), multiset(t.delivered), Pending(t));
    }
  }

  lemma EmptyIsEmpty()
    ensures Shape(EmptyState()) && EmptyState().delivered == [] && Pending(EmptyState()) == multiset{}
  {
    PendingNone(Bits(LFRQ_SIZE), EmptyState().reqs, LFRQ_SIZE);
  }

  // ---- A waiting load is woken up after exactly as many clocks as its line is away

  /** Slot k holds a load whose line arrives after r clocks. */
  ghost predicate WaitsClocks(s: State, k: nat, r: nat)
    requires Shape(s) && k < LFRQ_SIZE
  {
    Linked(s, k, s.mbidx[k]) && k in s.mbs[s.mbidx[k]].map_ && Rank(s.mbs[s.mbidx[k]]) == r
  }

  /** Every waiting load waits a positive number of clocks, at most the three latencies together. */
  lemma WaitingHasRank(s: State, k: nat) returns (r: nat)
    requires Inv(s) && k < LFRQ_SIZE && k !in s.free && k in s.waiting
    ensures WaitsClocks(s, k, r) && 1 <= r <= MAIN_MEM_LATENCY + L3_LATENCY + L2_LATENCY
  {
    r := Rank(s.mbs[s.mbidx[k]]);
    assert Linked(s, k, s.mbidx[k]);
    assert EntryInv(s.mbs[s.mbidx[k]]);
  }

  /** A step other than a clock or a cancellation of the load leaves its waiting time unchanged. */
  lemma OtherStepKeepsWaiting(s: State, t: State, k: nat, r: nat)
    requires Inv(s) && Inv(t) && MissesKept(s, t)
    requires k < LFRQ_SIZE && WaitsClocks(s, k, r)
    requires k !in t.free && k !in t.ready && t.reqs[k] == s.reqs[k]
    ensures WaitsClocks(t, k, r)
  {
    hide LineOf, Rank;
    var i, j := s.mbidx[k], t.mbidx[k];
    assert k in t.waiting;
    assert Linked(t, k, j) && k in t.mbs[j].map_;
    assert t.mbs[i].stage != Idle && t.mbs[i].addr == s.mbs[i].addr && Rank(t.mbs[i]) == Rank(s.mbs[i]);
    assert i == j;
  }

  lemma TickRank(e: Entry)
    requires EntryInv(e) && e.stage != Idle
    ensures Arrives(e) <==> Rank(e) == 1
    ensures !Arrives(e) ==> Rank(Tick(e)) == Rank(e) - 1
  {
  }

  lemma WakeOneKeepsWaiting(s: State, k: nat, r: nat)
    requires Inv(s) && k < LFRQ_SIZE && WaitsClocks(s, k, r)
    ensures Shape(WakeOne(s)) && WaitsClocks(WakeOne(s), k, r)
  {
    hide LinkInv, BufferInv, CountInv, LineOf, Rank;
  }

  lemma AdvanceWaiting(s: State, k: nat, r: nat)
    requires Inv(s) && k < LFRQ_SIZE && WaitsClocks(s, k, r)
    ensures Shape(Advance(s)) && k !in Advance(s).free
    ensures r > 1 ==> WaitsClocks(Advance(s), k, r - 1)
    ensures r <= 1 ==> k in Advance(s).ready
  {
    hide Tick, Arrives, Rank, LinkInv, QueueInv, CountInv, DistinctLines, LineOf;
    var i := s.mbidx[k];
    assert EntryInv(s.mbs[i]);
    TickRank(s.mbs[i]);
    AdvanceEntry(s, i);
    AdvancedLink(s, k, i);
    WokenByOwnLine(s, k, i);
  }

  /** A clock brings the line one cycle closer; with its last cycle the load becomes ready. */
  lemma ClockWaiting(s: State, k: nat, r: nat)
    requires Inv(s) && k < LFRQ_SIZE && WaitsClocks(s, k, r)
    ensures Shape(Clock(s)) && k !in Clock(s).free
    ensures r > 1 ==> WaitsClocks(Clock(s), k, r - 1)
    ensures r <= 1 ==> k in Clock(s).ready
  {
    hide Inv, WaitsClocks, Advance, WakeOne;
    InvShape(s);
    WakeOneInv(s);
    WakeOneKeepsWaiting(s, k, r);
    WakeOneInv(WakeOne(s));
    WakeOneKeepsWaiting(WakeOne(s), k, r);
    AdvanceWaiting(WakeOne(WakeOne(s)), k, r);
  }

  predicate Cancels(step: Step, k: nat) {
    step.CancelAll? || (step.Cancel? && step.slot == k)
  }

  lemma StepWaiting(s: State, step: Step, k: nat, r: nat)
    requires Inv(s) && Enabled(s, step) && k < LFRQ_SIZE && WaitsClocks(s, k, r) && !Cancels(step, k)
    ensures Shape(Apply(s, step))
    ensures !step.Tock? ==> WaitsClocks(Apply(s, step), k, r)
    ensures step.Tock? && r > 1 ==> WaitsClocks(Apply(s, step), k, r - 1)
    ensures step.Tock? && r <= 1 ==> k in Apply(s, step).ready && k !in Apply(s, step).free
  {
    hide Clock, LoadMiss, LineMiss, QueueInv, BufferInv, LinkInv, CountInv, SameQueue, MissesKept, BuffersKept, Rank, LineOf;
    var t := Apply(s, step);
    ApplyInv(s, step);
    WaitingIsBusy(s, k, r);
    match step
    case Tock => ClockWaiting(s, k, r);
    case Load(req, hitL2, hitL3) =>
      LoadMissInv(s, req, hitL2, hitL3);
      OtherStepKeepsWaiting(s, t, k, r);
    case Line(addr, hitL2, hitL3, icache) =>
      LineMissInv(s, addr, hitL2, hitL3, icache);
      KeptMisses(s, t);
      OtherStepKeepsWaiting(s, t, k, r);
    case Cancel(j) =>
      AnnulInv(s, j);
      OtherStepKeepsWaiting(s, t, k, r);
  }

  lemma WaitingIsBusy(s: State, k: nat, r: nat)
    requires Inv(s) && k < LFRQ_SIZE && WaitsClocks(s, k, r)
    ensures k !in s.free && k !in s.ready
  {
  }

  lemma KeptMisses(s: State, t: State)
    requires Shape(s) && Shape(t) && SameQueue(s, t) && BuffersKept(s, t)
    ensures MissesKept(s, t) && t.free == s.free && t.ready == s.ready && t.reqs == s.reqs
  {
    forall i: nat | i < MISSBUF_COUNT && s.mbs[i].stage != Idle
      ensures t.mbs[i].stage != Idle && t.mbs[i].addr == s.mbs[i].addr && Rank(t.mbs[i]) == Rank(s.mbs[i])
    {
      assert EntryKept(s.mbs[i], t.mbs[i]);
    }
  }

  function Clocks(steps: seq<Step>, n: nat): nat
    requires n <= |steps|
  {
    if n == 0 then 0 else Clocks(steps, n - 1) + if steps[n - 1].Tock? then 1 else 0
  }

  /**
   In any run in which it is not cancelled, a load that has r clocks to wait still waits for the
   remaining ones until the r-th clock, whatever other misses start or merge meanwhile, and becomes
   ready in exactly that clock.
   */
  lemma {:induction false} ArrivesOnTime(states: seq<State>, steps: seq<Step>, k: nat, r: nat, n: nat)
    requires IsRun(states, steps) && Inv(states[0])
    requires k < LFRQ_SIZE && WaitsClocks(states[0], k, r) && 0 < r
    requires n <= |steps| && forall i | 0 <= i < n :: !Cancels(steps[i], k)
    ensures Shape(states[n])
    ensures Clocks(steps, n) < r ==> WaitsClocks(states[n], k, r - Clocks(steps, n))
    ensures 0 < n && Clocks(steps, n) == r && steps[n - 1].Tock? ==> k in states[n].ready && k !in states[n].free
  {
    hide Inv, WaitsClocks, Apply, Cancels;
    if n > 0 {
      ArrivesOnTime(states, steps, k, r, n - 1);
      RunKeepsInv(states, steps, n - 1);
      RunKeepsInv(states, steps, n);
      if Clocks(steps, n - 1) < r {
        StepWaiting(states[n - 1], steps[n - 1], k, r - Clocks(steps, n - 1));
      }
    }
    InvShape(states[n]);
  }

  /**
   Every waiting load has a number of clocks to wait, from 1 to the three latencies together, such
   that in any run in which it is not cancelled it waits until that clock and is ready in it.
   */
  lemma EveryLoadArrives(states: seq<State>, steps: seq<Step>, k: nat) returns (r: nat)
    requires IsRun(states, steps) && Inv(states[0])
    requires k < LFRQ_SIZE && k !in states[0].free && k in states[0].waiting
    ensures 1 <= r <= MAIN_MEM_LATENCY + L3_LATENCY + L2_LATENCY
    ensures forall n: nat | n <= |steps| && Uncancelled(steps, k, n) ::
              && Shape(states[n])
              && (Clocks(steps, n) < r ==> WaitsClocks(states[n], k, r - Clocks(steps, n)))
              && (0 < n && Clocks(steps, n) == r && steps[n - 1].Tock? ==> k in states[n].ready && k !in states[n].free)
  {
    hide Inv, WaitsClocks, Apply;
    r := WaitingHasRank(states[0], k);
    forall n: nat | n <= |steps| && Uncancelled(steps, k, n)
      ensures Shape(states[n])
      ensures Clocks(steps, n) < r ==> WaitsClocks(states[n], k, r - Clocks(steps, n))
      ensures 0 < n && Clocks(steps, n) == r && steps[n - 1].Tock? ==> k in states[n].ready && k !in states[n].free
    {
      ArrivesOnTime(states, steps, k, r, n);
    }
  }

  /** A load whose line a buffer waits for already is ready as soon as that buffer's line comes. */
  lemma MergedLoadWaits(s: State, req: Request, hitL2: bool, hitL3: bool, i: nat)
    requires Inv(s) && LoadMiss(s, req, hitL2, hitL3).1.Accepted?
    requires i < MISSBUF_COUNT && WaitsFor(s, i, LineOf(req.addr))
    ensures
      var (t, r) := LoadMiss(s, req, hitL2, hitL3);
      r.slot < LFRQ_SIZE && WaitsClocks(t, r.slot, Rank(s.mbs[i]))
  {
    hide LineOf, LoadMiss, Rank, QueueInv, CountInv, Pending;
    LoadMissInv(s, req, hitL2, hitL3);
    var (t, r) := LoadMiss(s, req, hitL2, hitL3);
    var j := t.mbidx[r.slot];
    assert Linked(t, r.slot, j) && t.mbs[i].addr == t.mbs[j].addr;
    assert i == j;
  }

  /** Where no buffer waits for the line, the caches decide how many levels the line has to come through. */
  lemma NewLoadWaits(s: State, req: Request, hitL2: bool, hitL3: bool)
    requires Inv(s) && LoadMiss(s, req, hitL2, hitL3).1.Accepted?
    requires forall i: nat | i < MISSBUF_COUNT :: !WaitsFor(s, i, LineOf(req.addr))
    ensures
      var (t, r) := LoadMiss(s, req, hitL2, hitL3);
      && r.slot < LFRQ_SIZE
      && WaitsClocks(t, r.slot, if hitL2 then L2_LATENCY
                                else if hitL3 then L3_LATENCY + L2_LATENCY
                                else MAIN_MEM_LATENCY + L3_LATENCY + L2_LATENCY)
  {
    hide LineOf, QueueInv, CountInv, MissesKept, Pending;
    LoadMissInv(s, req, hitL2, hitL3);
    EnqueueCommutes(s, req, Lowest(s.free, LFRQ_SIZE), hitL2, hitL3);
  }

  /**
   A load of a line that no buffer waits for is ready in exactly the clock that the caches decide,
   in any run in which it is not cancelled.
   */
  lemma NewLoadArrives(s: State, req: Request, hitL2: bool, hitL3: bool, states: seq<State>, steps: seq<Step>, n: nat)
    requires Inv(s) && LoadMiss(s, req, hitL2, hitL3).1.Accepted?
    requires forall i: nat | i < MISSBUF_COUNT :: !WaitsFor(s, i, LineOf(req.addr))
    requires IsRun(states, steps) && states[0] == LoadMiss(s, req, hitL2, hitL3).0
    requires 0 < n <= |steps| && Uncancelled(steps, LoadMiss(s, req, hitL2, hitL3).1.slot, n) && steps[n - 1].Tock?
    ensures
      var k, r := LoadMiss(s, req, hitL2, hitL3).1.slot, if hitL2 then 5 else if hitL3 then 13 else 153;
      && Shape(states[n])
      && (Clocks(steps, n) < r ==> k !in states[n].ready && k !in states[n].free)
      && (Clocks(steps, n) == r ==> k in states[n].ready && k !in states[n].free)
  {
    var k := LoadMiss(s, req, hitL2, hitL3).1.slot;
    NewLoadWaits(s, req, hitL2, hitL3);
    NewLoadInv(s, req, hitL2, hitL3);
    hide LoadMiss, LineOf, WaitsFor, Inv, WaitsClocks, Apply, Cancels, IsRun, Clocks;
    ReadyInTime(states, steps, k, if hitL2 then 5 else if hitL3 then 13 else 153, n);
  }

  lemma NewLoadInv(s: State, req: Request, hitL2: bool, hitL3: bool)
    requires Inv(s)
    ensures Inv(LoadMiss(s, req, hitL2, hitL3).0)
  {
    hide Inv, LoadMiss;
    LoadMissInv(s, req, hitL2, hitL3);
  }

  lemma ReadyInTime(states: seq<State>, steps: seq<Step>, k: nat, r: nat, n: nat)
    requires IsRun(states, steps) && Inv(states[0])
    requires k < LFRQ_SIZE && WaitsClocks(states[0], k, r) && 0 < r
    requires 0 < n <= |steps| && Uncancelled(steps, k, n) && steps[n - 1].Tock?
    ensures Shape(states[n])
    ensures Clocks(steps, n) < r ==> k !in states[n].ready && k !in states[n].free
    ensures Clocks(steps, n) == r ==> k in states[n].ready && k !in states[n].free
  {
    hide Inv, WaitsClocks, Apply, Cancels;
    ArrivesOnTime(states, steps, k, r, n);
    if Clocks(steps, n) < r {
      RunKeepsInv(states, steps, n);
      WaitingIsBusy(states[n], k, r - Clocks(steps, n));
    }
  }

  /** A clock of the queue hands the load in the lowest ready slot to the core, and that one only. */
  lemma WakesLowest(s: State, k: nat)
    requires Inv(s) && k in s.ready && forall j: nat | j < k :: j !in s.ready
    ensures WakeOne(s).delivered == s.delivered + [s.reqs[k]]
    ensures WakeOne(s).ready == s.ready - {k} && WakeOne(s).free == s.free + {k}
  {
    assert k < LFRQ_SIZE;
  }

  lemma WakesOne(s: State)
    requires Inv(s)
    ensures Inv(WakeOne(s))
    ensures |WakeOne(s).delivered| == |s.delivered| + if s.ready == {} then 0 else 1
    ensures |WakeOne(s).ready| == |s.ready| - if s.ready == {} then 0 else 1
  {
    WakeOneInv(s);
    assert forall k | k in s.ready :: k < LFRQ_SIZE;
    if k :| k in s.ready {
      assert Lowest(s.ready, LFRQ_SIZE) in s.ready;
    }
  }

  /** In a clock two of the loads that were ready before are handed to the core, or as many as there are. */
  lemma TwoPerClock(s: State)
    requires Inv(s)
    ensures |Clock(s).delivered| == |s.delivered| + if |s.ready| < 2 then |s.ready| else 2
  {
    hide Inv, WakeOne;
    InvShape(s);
    WakesOne(s);
    WakesOne(WakeOne(s));
    hide Woken, Arrivals, Ticked;
  }

  ghost predicate Uncancelled(steps: seq<Step>, k: nat, n: nat)
    requires n <= |steps|
  {
    forall i | 0 <= i < n :: !Cancels(steps[i], k)
  }

  lemma InvShape(s: State)
    requires Inv(s)
    ensures Shape(s)
  {
  }

  // ---- Without new misses everything drains

  function ClockN(s: State, n: nat): State
    requires Inv(s)
    ensures Inv(ClockN(s, n))
  {
    if n == 0 then s
    else
      ClockInv(ClockN(s, n - 1));
      Clock(ClockN(s, n - 1))
  }

  ghost predicate AllWithin(s: State, r: nat)
    requires Shape(s)
  {
    forall i: nat | i < MISSBUF_COUNT && s.mbs[i].stage != Idle :: Rank(s.mbs[i]) <= r
  }

  lemma RanksAreBounded(s: State)
    requires Inv(s)
    ensures AllWithin(s, MAIN_MEM_LATENCY + L3_LATENCY + L2_LATENCY)
  {
    forall i: nat | i < MISSBUF_COUNT && s.mbs[i].stage != Idle
      ensures Rank(s.mbs[i]) <= MAIN_MEM_LATENCY + L3_LATENCY + L2_LATENCY
    {
      assert EntryInv(s.mbs[i]);
    }
  }

  lemma ClockShrinksRanks(s: State, r: nat)
    requires Inv(s) && AllWithin(s, r)
    ensures Shape(Clock(s)) && AllWithin(Clock(s), if r == 0 then 0 else r - 1)
  {
    ClockInv(s);
    var t, u := WakeOne(WakeOne(s)), Clock(s);
    WakeOneInv(s);
    WakeOneInv(WakeOne(s));
    hide Rank, Tick, Arrives, LinkInv, QueueInv, CountInv, DistinctLines, WakeOne;
    forall i: nat | i < MISSBUF_COUNT && u.mbs[i].stage != Idle
      ensures Rank(u.mbs[i]) <= if r == 0 then 0 else r - 1
    {
      WakeOneBuffers(s);
      assert EntryInv(s.mbs[i]);
      AdvanceEntry(t, i);
      TickRank(s.mbs[i]);
      RankIsPositive(u.mbs[i]);
    }
  }

  lemma WakeOneBuffers(s: State)
    requires Shape(s)
    ensures WakeOne(WakeOne(s)).mbs == s.mbs
  {
  }

  lemma RankIsPositive(e: Entry)
    requires EntryInv(e) && e.stage != Idle
    ensures 1 <= Rank(e)
  {
  }

  lemma BuffersShrink(s: State, r: nat, n: nat)
    requires Inv(s) && AllWithin(s, r)
    ensures AllWithin(ClockN(s, n), if n <= r then r - n else 0)
  {
    hide Inv, AllWithin, Clock;
    if n > 0 {
      BuffersShrink(s, r, n - 1);
      ClockShrinksRanks(ClockN(s, n - 1), if n - 1 <= r then r - (n - 1) else 0);
    }
  }

  lemma NoneWithinZero(s: State)
    requires Inv(s) && AllWithin(s, 0)
    ensures s.mbfree == Bits(MISSBUF_COUNT)
    ensures forall k: nat | k < LFRQ_SIZE && k !in s.free :: k in s.ready
  {
    hide Rank, LineOf;
    forall i: nat | i < MISSBUF_COUNT
      ensures s.mbs[i].stage == Idle && i in s.mbfree
    {
      assert EntryInv(s.mbs[i]);
      if s.mbs[i].stage != Idle {
        RankIsPositive(s.mbs[i]);
      }
    }
    forall k: nat | k < LFRQ_SIZE && k !in s.free
      ensures k in s.ready
    {
      WaitingHasBuffer(s, k);
    }
  }

  lemma WaitingHasBuffer(s: State, k: nat)
    requires Shape(s) && LinkInv(s) && k < LFRQ_SIZE && k !in s.free
    ensures k in s.waiting ==> 0 <= s.mbidx[k] < MISSBUF_COUNT && s.mbs[s.mbidx[k]].stage != Idle
  {
    if k in s.waiting {
      assert Linked(s, k, s.mbidx[k]);
    }
  }

  /** Without new misses, all miss buffers are free after the three latencies together. */
  lemma BuffersDrain(s: State, n: nat)
    requires Inv(s) && MAIN_MEM_LATENCY + L3_LATENCY + L2_LATENCY <= n
    ensures ClockN(s, n).mbfree == Bits(MISSBUF_COUNT)
  {
    hide Inv, AllWithin, ClockN;
    RanksAreBounded(s);
    BuffersShrink(s, MAIN_MEM_LATENCY + L3_LATENCY + L2_LATENCY, n);
    NoneWithinZero(ClockN(s, n));
  }

  /** Once nothing is outstanding, every clock empties two more queue slots. */
  lemma ClockEmptiesSlots(s: State)
    requires Inv(s) && AllWithin(s, 0)
    ensures Shape(Clock(s)) && AllWithin(Clock(s), 0)
    ensures |Clock(s).free| == if |s.free| + 2 <= LFRQ_SIZE then |s.free| + 2 else LFRQ_SIZE
  {
    hide Inv, AllWithin, Advance, WakeOne;
    InvShape(s);
    ClockShrinksRanks(s, 0);
    NoneWithinZero(s);
    WakeOneInv(s);
    WakeOneFrees(s);
    WakeOneKeepsDrained(s);
    WakeOneInv(WakeOne(s));
    WakeOneFrees(WakeOne(s));
    WakeOneKeepsDrained(WakeOne(s));
    AdvanceKeepsSlots(WakeOne(WakeOne(s)));
  }

  lemma AdvanceKeepsSlots(s: State)
    requires Shape(s)
    ensures Advance(s).free == s.free
  {
  }

  /** All slots in use are ready. */
  ghost predicate Drained(s: State) {
    forall k: nat | k < LFRQ_SIZE && k !in s.free :: k in s.ready
  }

  lemma WakeOneKeepsDrained(s: State)
    requires Inv(s) && Drained(s)
    ensures Drained(WakeOne(s)) && Shape(WakeOne(s))
  {
    hide LinkInv, BufferInv, CountInv;
  }

  lemma WakeOneFrees(s: State)
    requires Inv(s) && Drained(s)
    ensures |WakeOne(s).free| == if |s.free| < LFRQ_SIZE then |s.free| + 1 else LFRQ_SIZE
  {
    hide LinkInv, BufferInv, CountInv;
    BitsSize(LFRQ_SIZE);
    var i := Lowest(s.ready, LFRQ_SIZE);
    if i == LFRQ_SIZE {
      forall k: nat | k < LFRQ_SIZE
        ensures k in s.free
      {
      }
      assert s.free == Bits(LFRQ_SIZE);
    } else {
      Buckets.ProperSubset(s.free, Bits(LFRQ_SIZE), i);
    }
  }

  lemma SlotsDrain(s: State, n: nat)
    requires Inv(s) && AllWithin(s, 0)
    ensures AllWithin(ClockN(s, n), 0)
    ensures |ClockN(s, n).free| == if |s.free| + 2 * n <= LFRQ_SIZE then |s.free| + 2 * n else LFRQ_SIZE
  {
    hide Inv, AllWithin, Clock;
    if n == 0 {
      FreeBound(s);
    } else {
      SlotsDrain(s, n - 1);
      ClockEmptiesSlots(ClockN(s, n - 1));
    }
  }

  lemma FreeBound(s: State)
    requires Inv(s)
    ensures |s.free| <= LFRQ_SIZE
  {
    BitsSize(LFRQ_SIZE);
    Buckets.SubsetSize(s.free, Bits(LFRQ_SIZE));
  }

  lemma ClockNSum(s: State, m: nat, n: nat)
    requires Inv(s)
    ensures ClockN(s, m + n) == ClockN(ClockN(s, m), n)
  {
    hide Inv, Clock;
    if n > 0 {
      ClockNSum(s, m, n - 1);
    }
  }

  /**
   Without new misses the queue is empty half its size in clocks after the miss buffers are: all
   loads in it have been handed to the core.
   */
  lemma QueueDrains(s: State, n: nat)
    requires Inv(s) && MAIN_MEM_LATENCY + L3_LATENCY + L2_LATENCY + (LFRQ_SIZE + 1) / 2 <= n
    ensures ClockN(s, n).free == Bits(LFRQ_SIZE) && ClockN(s, n).mbfree == Bits(MISSBUF_COUNT)
  {
    hide Inv, AllWithin, ClockN;
    var m := MAIN_MEM_LATENCY + L3_LATENCY + L2_LATENCY;
    RanksAreBounded(s);
    BuffersShrink(s, m, m);
    ClockNSum(s, m, n - m);
    SlotsDrain(ClockN(s, m), n - m);
    AllSlotsFree(ClockN(s, n));
    BuffersDrain(s, n);
  }

  lemma AllSlotsFree(s: State)
    requires Inv(s) && |s.free| == LFRQ_SIZE
    ensures s.free == Bits(LFRQ_SIZE)
  {
    BitsSize(LFRQ_SIZE);
    assert Bits(LFRQ_SIZE) == s.free + (Bits(LFRQ_SIZE) - s.free);
  }

  // ---- The queue counter, and when the assertion on it fails

  /** How far the queue counter exceeds the number of slots in use. */
  function Leak(s: State): int {
    s.count - (LFRQ_SIZE - |s.free|)
  }

  /** The load gets a queue slot and loses it again because no miss buffer is available. */
  predicate LosesSlot(s: State, step: Step)
    requires Shape(s)
  {
    && step.Load?
    && LoadMiss(s, step.req, step.hitL2, step.hitL3).1.Refused?
    && Lowest(s.free, LFRQ_SIZE) < LFRQ_SIZE
  }

  lemma LoadMissCount(s: State, req: Request, hitL2: bool, hitL3: bool)
    requires Inv(s)
    ensures
      var (t, r) := LoadMiss(s, req, hitL2, hitL3);
      t.count == s.count + if r.Accepted? || LosesSlot(s, Load(req, hitL2, hitL3)) then 1 else 0
  {
    hide LineMiss, LinkInv, BufferInv, QueueInv, LineOf;
    var k := Lowest(s.free, LFRQ_SIZE);
    if k < LFRQ_SIZE {
      LineMissInv(s, req.addr, hitL2, hitL3, false);
      EnqueueCommutes(s, req, k, hitL2, hitL3);
    }
  }

  lemma WakeOneLeak(s: State)
    requires Shape(s) && QueueInv(s)
    ensures Leak(WakeOne(s)) == Leak(s)
  {
  }

  lemma ClockLeak(s: State)
    requires Inv(s)
    ensures Shape(Clock(s)) && Leak(Clock(s)) == Leak(s)
  {
    WakeOneInv(s);
    WakeOneLeak(s);
    WakeOneLeak(WakeOne(s));
    hide LinkInv, BufferInv, QueueInv, Woken, Arrivals, Ticked, Lowest;
  }

  /** Cancelling all loads resets the counter; a lost slot makes it one too large; nothing else changes the excess. */
  lemma StepLeak(s: State, step: Step)
    requires Inv(s) && Enabled(s, step)
    ensures Leak(Apply(s, step)) ==
              if step.CancelAll? then 0
              else Leak(s) + if LosesSlot(s, step) then 1 else 0
  {
    hide Clock, LoadMiss, LineMiss, LinkInv, BufferInv, SameQueue, MissesKept, BuffersKept;
    match step
    case Tock => ClockLeak(s);
    case Load(req, hitL2, hitL3) =>
      LoadMissInv(s, req, hitL2, hitL3);
      LoadMissCount(s, req, hitL2, hitL3);
    case Line(addr, hitL2, hitL3, icache) =>
      LineMissInv(s, addr, hitL2, hitL3, icache);
      SameQueueLeak(s, LineMiss(s, addr, hitL2, hitL3, icache).0);
    case Cancel(k) =>
    case CancelAll => BitsSize(LFRQ_SIZE);
  }

  lemma SameQueueLeak(s: State, t: State)
    requires SameQueue(s, t)
    ensures Leak(s) == Leak(t)
  {
  }

  /** The number of queue slots lost since all loads were last cancelled. */
  function Lost(states: seq<State>, steps: seq<Step>, n: nat): nat
    requires |states| == |steps| + 1 && n <= |steps|
    requires forall i | 0 <= i < n :: Shape(states[i])
  {
    if n == 0 || steps[n - 1].CancelAll? then 0
    else Lost(states, steps, n - 1) + if LosesSlot(states[n - 1], steps[n - 1]) then 1 else 0
  }

  lemma RunLeak(states: seq<State>, steps: seq<Step>, n: nat)
    requires IsRun(states, steps) && states[0] == EmptyState() && n <= |steps|
    ensures Leak(states[n]) == Lost(states, steps, n)
  {
    hide Inv, Apply, LosesSlot, EmptyState;
    EmptyInv();
    if n == 0 {
      EmptyLeak();
    } else {
      RunKeepsInv(states, steps, n - 1);
      StepLeak(states[n - 1], steps[n - 1]);
      RunLeak(states, steps, n - 1);
    }
  }

  lemma EmptyLeak()
    ensures Leak(EmptyState()) == 0
  {
    BitsSize(LFRQ_SIZE);
  }

  /**
   In any run from the empty state, the assertion that the queue has room, made after a free slot
   was found, fails exactly when at least as many slots were lost as are free.
   */
  lemma AssertionFailsExactlyWhen(states: seq<State>, steps: seq<Step>, n: nat, req: Request, hitL2: bool, hitL3: bool)
    requires IsRun(states, steps) && states[0] == EmptyState() && n <= |steps|
    ensures Shape(states[n])
    ensures LoadMiss(states[n], req, hitL2, hitL3).1 == AssertionFailed
       <==> 0 < |states[n].free| <= Lost(states, steps, n)
  {
    EmptyInv();
    RunKeepsInv(states, steps, n);
    RunLeak(states, steps, n);
    hide LinkInv, BufferInv, LineMiss, Lost, EmptyState;
    var s := states[n];
    if s.free == {} {
    } else {
      var k :| k in s.free;
      assert k < LFRQ_SIZE;
    }
  }

  // ---- A run in which the assertion fails with an empty queue

  /** Instruction misses on as many lines as there are miss buffers, then as many refused loads of another line. */
  function LeakStep(i: nat): Step {
    if i < MISSBUF_COUNT then Line(i * L1_LINE_SIZE, false, false, true)
    else Load(Request(MISSBUF_COUNT * L1_LINE_SIZE, 0), false, false)
  }

  function LeakState(n: nat): (s: State)
    ensures Shape(s)
  {
    if n == 0 then EmptyState()
    else
      EnabledLeak(LeakState(n - 1), n - 1);
      ShapeKept(LeakState(n - 1), LeakStep(n - 1));
      Apply(LeakState(n - 1), LeakStep(n - 1))
  }

  lemma EnabledLeak(s: State, i: nat)
    requires Shape(s)
    ensures Enabled(s, LeakStep(i))
  {
  }

  lemma ShapeKept(s: State, step: Step)
    requires Shape(s) && Enabled(s, step) && (step.Line? || step.Load?)
    ensures Shape(Apply(s, step))
  {
    hide LineOf, Lowest, Find;
  }

  /** The miss buffers in use wait for lines below n. */
  ghost predicate LinesBelow(s: State, n: nat)
    requires Shape(s)
  {
    forall i: nat | i < MISSBUF_COUNT && i !in s.mbfree :: s.mbs[i].addr < n * L1_LINE_SIZE
  }

  lemma AlignedLine(n: nat)
    ensures LineOf(n * L1_LINE_SIZE) == n * L1_LINE_SIZE
  {
  }

  lemma NewLineTakesBuffer(s: State, n: nat)
    requires Inv(s) && LinesBelow(s, n) && s.mbfree != {}
    ensures
      var t := LineMiss(s, n * L1_LINE_SIZE, false, false, true).0;
      LinesBelow(t, n + 1) && |t.mbfree| == |s.mbfree| - 1 && t.free == s.free && t.count == s.count
  {
    hide QueueInv, LinkInv, LineOf, CountInv;
    AlignedLine(n);
    var i, j := Find(s, n * L1_LINE_SIZE), Lowest(s.mbfree, MISSBUF_COUNT);
    var k :| k in s.mbfree;
    assert j <= k;
  }

  lemma LeakFills(n: nat)
    requires n <= MISSBUF_COUNT
    ensures
      var s := LeakState(n);
      Inv(s) && LinesBelow(s, n) && |s.mbfree| == MISSBUF_COUNT - n && s.free == Bits(LFRQ_SIZE) && s.count == 0
  {
    hide Inv, LineMiss, LinesBelow, EmptyState;
    if n == 0 {
      LeakStarts();
    } else {
      var s := LeakState(n - 1);
      LeakFills(n - 1);
      NewLineTakesBuffer(s, n - 1);
      ApplyInv(s, LeakStep(n - 1));
    }
  }

  lemma LeakStarts()
    ensures
      var s := LeakState(0);
      Inv(s) && LinesBelow(s, 0) && |s.mbfree| == MISSBUF_COUNT && s.free == Bits(LFRQ_SIZE) && s.count == 0
  {
    EmptyInv();
    BitsSize(MISSBUF_COUNT);
  }

  lemma FullBufferRefuses(s: State)
    requires Inv(s) && LinesBelow(s, MISSBUF_COUNT) && s.mbfree == {} && s.free == Bits(LFRQ_SIZE) && s.count < LFRQ_SIZE
    ensures
      var t := LoadMiss(s, Request(MISSBUF_COUNT * L1_LINE_SIZE, 0), false, false).0;
      LinesBelow(t, MISSBUF_COUNT) && t.mbfree == {} && t.free == s.free && t.count == s.count + 1
  {
    hide QueueInv, LinkInv, LineOf, CountInv, LineMiss, BufferInv;
    var req := Request(MISSBUF_COUNT * L1_LINE_SIZE, 0);
    AlignedLine(MISSBUF_COUNT);
    LineMissInv(s, req.addr, false, false, false);
    EnqueueCommutes(s, req, Lowest(s.free, LFRQ_SIZE), false, false);
    FullBuffers(s);
  }

  lemma FullBuffers(s: State)
    requires Shape(s) && LinesBelow(s, MISSBUF_COUNT) && s.mbfree == {}
    ensures forall j: nat | j < MISSBUF_COUNT :: !WaitsFor(s, j, MISSBUF_COUNT * L1_LINE_SIZE)
  {
  }

  lemma LeakCounts(n: nat)
    requires n <= LFRQ_SIZE
    ensures
      var s := LeakState(MISSBUF_COUNT + n);
      && Inv(s) && LinesBelow(s, MISSBUF_COUNT) && s.mbfree == {} && s.free == Bits(LFRQ_SIZE)
      && s.count == n
  {
    hide Inv, LoadMiss, LinesBelow, LeakState;
    if n == 0 {
      LeakFills(MISSBUF_COUNT);
    } else {
      var s := LeakState(MISSBUF_COUNT + n - 1);
      LeakCounts(n - 1);
      FullBufferRefuses(s);
      ApplyInv(s, LeakStep(MISSBUF_COUNT + n - 1));
      NextLeak(MISSBUF_COUNT + n);
    }
  }

  lemma NextLeak(n: nat)
    requires 0 < n
    ensures Enabled(LeakState(n - 1), LeakStep(n - 1))
    ensures LeakState(n) == Apply(LeakState(n - 1), LeakStep(n - 1))
  {
  }

  /** There is a run from the empty state after which the queue is empty and yet the next load fails the assertion. */
  lemma AssertionCanFail() returns (states: seq<State>, steps: seq<Step>)
    ensures IsRun(states, steps) && states[0] == EmptyState()
    ensures
      var s := states[|steps|];
      && Shape(s) && s.free == Bits(LFRQ_SIZE)
      && LoadMiss(s, Request(MISSBUF_COUNT * L1_LINE_SIZE, 0), false, false).1 == AssertionFailed
  {
    hide LeakState, LeakStep, Apply, Enabled, EmptyState, LoadMiss;
    var n := MISSBUF_COUNT + LFRQ_SIZE;
    states := seq(n + 1, i requires 0 <= i <= n => LeakState(i));
    steps := seq(n, i requires 0 <= i < n => LeakStep(i));
    forall i: nat | i < n
      ensures Enabled(states[i], steps[i]) && states[i + 1] == Apply(states[i], steps[i])
    {
      NextLeak(i + 1);
    }
    LeakEnd();
    LeakZero();
  }

  lemma LeakEnd()
    ensures
      var s := LeakState(MISSBUF_COUNT + LFRQ_SIZE);
      && Shape(s) && s.free == Bits(LFRQ_SIZE)
      && LoadMiss(s, Request(MISSBUF_COUNT * L1_LINE_SIZE, 0), false, false).1 == AssertionFailed
  {
    hide LeakState, LinesBelow;
    LeakCounts(LFRQ_SIZE);
  }

  lemma LeakZero()
    ensures LeakState(0) == EmptyState()
  {
  }
}
