/**
 The load fill request queue and the miss buffer of the cache hierarchy as one state machine:
 the state, the effect of every step on it, and the invariant.

 Bit vectors are sets of bit positions. The cache contents are inputs of the steps.
 */
module MissState {

  const LFRQ_SIZE: nat := 64
  const MISSBUF_COUNT: nat := 64
  const L2_LATENCY: nat := 5
  const L3_LATENCY: nat := 8
  const MAIN_MEM_LATENCY: nat := 140
  const L1_LINE_SIZE: nat := 64

  /** The next level an outstanding line has to reach. */
  datatype Stage = Idle | ToL3 | ToL2 | ToL1

  /** A load waiting for its line: physical address and load/store information. */
  datatype Request = Request(addr: nat, lsi: nat)

  /** A miss buffer: the line, how far it is, and the queue slots to wake up when it arrives. */
  datatype Entry = Entry(addr: nat, stage: Stage, cycles: nat, dcache: bool, icache: bool, map_: set<nat>)

  const IDLE_ENTRY := Entry(0xffff_ffff_ffff_ffff, Idle, 0, false, false, {})

  datatype State = State(
    free: set<nat>, waiting: set<nat>, ready: set<nat>, // state bits of the queue slots
    reqs: seq<Request>, mbidx: seq<int>, count: int,
    mbs: seq<Entry>, mbfree: set<nat>, mbcount: int,
    delivered: seq<Request>) // the loads handed to the core, in order

  predicate Below(i: nat, n: nat) {
    i < n
  }

  /** The bits 0, ..., n-1. */
  function Bits(n: nat): (s: set<nat>)
    ensures forall i: nat :: i in s <==> i < n
  {
    set i: nat | i < n && Below(i, n)
  }

  /** The lowest set bit; n when no bit below n is set. */
  function Lowest(s: set<nat>, n: nat): (i: nat)
    ensures i <= n && (i < n ==> i in s)
    ensures forall j: nat | j < i :: j !in s
  {
    if n == 0 then 0
    else
      var i := Lowest(s, n - 1);
      if i < n - 1 || n - 1 in s then i else n
  }

  /** The address of the line that an address is on. */
  function LineOf(addr: nat): (line: nat)
    ensures line <= addr < line + L1_LINE_SIZE && line % L1_LINE_SIZE == 0
  {
    addr / L1_LINE_SIZE * L1_LINE_SIZE
  }

  function EmptyState(): State {
    State(Bits(LFRQ_SIZE), {}, {},
          seq(LFRQ_SIZE, _ => Request(0, 0)), seq(LFRQ_SIZE, _ => -1), 0,
          seq(MISSBUF_COUNT, _ => IDLE_ENTRY), Bits(MISSBUF_COUNT), 0, [])
  }

  // ---- One clock of the queue: up to two ready loads are handed to the core

  function WakeOne(s: State): State
    requires |s.reqs| == LFRQ_SIZE
  {
    var i := Lowest(s.ready, LFRQ_SIZE);
    if i == LFRQ_SIZE then s
    else s.(ready := s.ready - {i}, free := s.free + {i}, count := s.count - 1,
            delivered := s.delivered + [s.reqs[i]])
  }

  // ---- One clock of the miss buffer: every outstanding line gets one cycle closer

  /** 32-bit decrement. */
  function Decrement(c: nat): nat {
    if c == 0 then 0xffff_ffff else c - 1
  }

  function Tick(e: Entry): Entry {
    var c := Decrement(e.cycles);
    match e.stage
    case Idle => e
    case ToL3 => if c == 0 then e.(stage := ToL2, cycles := L3_LATENCY) else e.(cycles := c)
    case ToL2 => if c == 0 then e.(stage := ToL1, cycles := L2_LATENCY) else e.(cycles := c)
    case ToL1 => if c == 0 then IDLE_ENTRY else e.(cycles := c)
  }

  /** The line arrives at the first level cache in the coming clock. */
  predicate Arrives(e: Entry) {
    e.stage == ToL1 && Decrement(e.cycles) == 0
  }

  /** The slots woken up in the coming clock by the arrivals among the first n entries. */
  function Woken(mbs: seq<Entry>, n: nat): (w: set<nat>)
    requires n <= |mbs|
    ensures forall k :: k in w <==> exists i :: 0 <= i < n && Arrives(mbs[i]) && mbs[i].dcache && k in mbs[i].map_
  {
    if n == 0 then {}
    else
      var e := mbs[n - 1];
      Woken(mbs, n - 1) + if Arrives(e) && e.dcache then e.map_ else {}
  }

  function Arrivals(mbs: seq<Entry>, n: nat): (a: set<nat>)
    requires n <= |mbs|
    ensures forall i :: i in a <==> 0 <= i < n && Arrives(mbs[i])
  {
    if n == 0 then {}
    else Arrivals(mbs, n - 1) + if Arrives(mbs[n - 1]) then {n - 1} else {}
  }

  function Ticked(mbs: seq<Entry>): (t: seq<Entry>)
    ensures |t| == |mbs| && forall i | 0 <= i < |t| :: t[i] == Tick(mbs[i])
  {
    seq(|mbs|, i requires 0 <= i < |mbs| => Tick(mbs[i]))
  }

  /** All miss buffers advance at the same time. */
  function Advance(s: State): State
    requires |s.mbs| == MISSBUF_COUNT
  {
    var woken, arrivals := Woken(s.mbs, |s.mbs|), Arrivals(s.mbs, |s.mbs|);
    s.(mbs := Ticked(s.mbs), mbfree := s.mbfree + arrivals, mbcount := s.mbcount - |arrivals|,
       waiting := s.waiting - woken, ready := s.ready + woken)
  }

  function Clock(s: State): State
    requires Shape(s)
  {
    Advance(WakeOne(WakeOne(s)))
  }

  // ---- Requests

  predicate WaitsFor(s: State, i: nat, line: nat)
    requires Shape(s) && i < MISSBUF_COUNT
  {
    i !in s.mbfree && s.mbs[i].addr == line
  }

  /** The miss buffer waiting for a line; MISSBUF_COUNT when there is none. */
  function Find(s: State, line: nat): (i: nat)
    requires Shape(s)
    ensures i <= MISSBUF_COUNT
    ensures i < MISSBUF_COUNT ==> WaitsFor(s, i, line)
    ensures forall j: nat | j < i :: !WaitsFor(s, j, line)
  {
    var hits := set i: nat | 0 <= i < MISSBUF_COUNT && WaitsFor(s, i, line);
    assert forall j: nat | j < MISSBUF_COUNT && WaitsFor(s, j, line) :: j in hits;
    Lowest(hits, MISSBUF_COUNT)
  }

  function FreshEntry(line: nat, hitL2: bool, hitL3: bool, icache: bool): Entry {
    var e := Entry(line, Idle, 0, !icache, icache, {});
    if hitL2 then e.(stage := ToL1, cycles := L2_LATENCY)
    else if hitL3 then e.(stage := ToL2, cycles := L3_LATENCY)
    else e.(stage := ToL3, cycles := MAIN_MEM_LATENCY)
  }

  /** A miss on a line: joins the buffer already waiting for it, or takes a free one; -1 when all are in use. */
  function LineMiss(s: State, addr: nat, hitL2: bool, hitL3: bool, icache: bool): (r: (State, int))
    requires Shape(s)
    ensures Shape(r.0) && -1 <= r.1 < MISSBUF_COUNT
  {
    var line := LineOf(addr);
    var i := Find(s, line);
    if i < MISSBUF_COUNT then
      (s.(mbs := s.mbs[i := s.mbs[i].(icache := s.mbs[i].icache || icache, dcache := s.mbs[i].dcache || !icache)]), i as int)
    else
      var j := Lowest(s.mbfree, MISSBUF_COUNT);
      if j == MISSBUF_COUNT then (s, -1)
      else
        (s.(mbs := s.mbs[j := FreshEntry(line, hitL2, hitL3, icache)],
            mbfree := s.mbfree - {j}, mbcount := s.mbcount + 1), j as int)
  }

  /** Takes a free queue slot for a load, in the waiting state. */
  function Enqueue(s: State, req: Request, k: nat): State
    requires Shape(s) && k < LFRQ_SIZE
  {
    s.(free := s.free - {k}, waiting := s.waiting + {k},
       reqs := s.reqs[k := req], mbidx := s.mbidx[k := -1], count := s.count + 1)
  }

  datatype LoadResult = Accepted(slot: nat) | Refused | AssertionFailed

  /**
   A load misses. It is refused when the queue or the miss buffer is full; in the latter case the
   queue slot is given back, but not its share of the counter.
   */
  function LoadMiss(s: State, req: Request, hitL2: bool, hitL3: bool): (State, LoadResult)
    requires Shape(s)
  {
    var k := Lowest(s.free, LFRQ_SIZE);
    if k == LFRQ_SIZE then (s, Refused)
    else if s.count >= LFRQ_SIZE then (s, AssertionFailed)
    else
      var (t, i) := LineMiss(Enqueue(s, req, k), req.addr, hitL2, hitL3, false);
      if i < 0 then
        (t.(waiting := t.waiting - {k}, free := t.free + {k}), Refused)
      else
        (t.(mbs := t.mbs[i := t.mbs[i].(map_ := t.mbs[i].map_ + {k})], mbidx := t.mbidx[k := i]), Accepted(k))
  }

  /** Takes slot k out of every wakeup map. */
  function WithoutSlot(mbs: seq<Entry>, k: nat): (t: seq<Entry>)
    ensures |t| == |mbs| && forall i | 0 <= i < |t| :: t[i] == mbs[i].(map_ := mbs[i].map_ - {k})
  {
    seq(|mbs|, i requires 0 <= i < |mbs| => mbs[i].(map_ := mbs[i].map_ - {k}))
  }

  /** Cancels a load. The waiting bit of its slot is left as it is. */
  function Annul(s: State, k: nat): State
    requires Shape(s) && k < LFRQ_SIZE
  {
    s.(mbs := WithoutSlot(s.mbs, k), mbidx := s.mbidx[k := -1],
       ready := s.ready - {k}, free := s.free + {k}, count := s.count - 1)
  }

  function WithoutMaps(mbs: seq<Entry>): (t: seq<Entry>)
    ensures |t| == |mbs| && forall i | 0 <= i < |t| :: t[i] == mbs[i].(map_ := {})
  {
    seq(|mbs|, i requires 0 <= i < |mbs| => mbs[i].(map_ := {}))
  }

  /** Cancels all loads; lines on their way still arrive. */
  function Restart(s: State): State
    requires Shape(s)
  {
    s.(free := Bits(LFRQ_SIZE), waiting := {}, ready := {}, count := 0,
       mbidx := seq(LFRQ_SIZE, k requires 0 <= k < LFRQ_SIZE => if k in s.free then s.mbidx[k] else -1),
       mbs := WithoutMaps(s.mbs))
  }

  // ---- The invariant

  predicate Shape(s: State) {
    |s.reqs| == LFRQ_SIZE && |s.mbidx| == LFRQ_SIZE && |s.mbs| == MISSBUF_COUNT
  }

  /** Every slot in use is either waiting or ready; no free slot is ready. */
  ghost predicate QueueInv(s: State) {
    && s.free <= Bits(LFRQ_SIZE) && s.ready <= Bits(LFRQ_SIZE)
    && s.ready !! s.free
    && (forall k: nat | k < LFRQ_SIZE && k !in s.free :: k in s.waiting <==> k !in s.ready)
  }

  function Latency(stage: Stage): nat {
    match stage
    case Idle => 0
    case ToL3 => MAIN_MEM_LATENCY
    case ToL2 => L3_LATENCY
    case ToL1 => L2_LATENCY
  }

  /** Cycles until the line reaches the first level cache. */
  function Rank(e: Entry): nat {
    match e.stage
    case Idle => 0
    case ToL3 => e.cycles + L3_LATENCY + L2_LATENCY
    case ToL2 => e.cycles + L2_LATENCY
    case ToL1 => e.cycles
  }

  /** A miss buffer in use is a few cycles away from its next level, and serves one of the caches. */
  ghost predicate EntryInv(e: Entry) {
    if e.stage == Idle then e.map_ == {}
    else 1 <= e.cycles <= Latency(e.stage) && (e.dcache || e.icache)
  }

  ghost predicate DistinctLines(mbs: seq<Entry>) {
    forall i, j | 0 <= i < j < |mbs| && mbs[i].stage != Idle && mbs[j].stage != Idle :: mbs[i].addr != mbs[j].addr
  }

  /** The miss buffers in use are those not idle, and wait for different lines. */
  ghost predicate BufferInv(s: State)
    requires Shape(s)
  {
    && s.mbfree <= Bits(MISSBUF_COUNT)
    && (forall i: nat | i < MISSBUF_COUNT :: EntryInv(s.mbs[i]) && (i in s.mbfree <==> s.mbs[i].stage == Idle))
    && DistinctLines(s.mbs)
  }

  /** Slot k is a waiting load whose line miss buffer i waits for. */
  ghost predicate Linked(s: State, k: nat, i: int)
    requires Shape(s)
  {
    && k < LFRQ_SIZE && k !in s.free && k in s.waiting
    && 0 <= i < MISSBUF_COUNT && s.mbidx[k] == i
    && s.mbs[i].stage != Idle && s.mbs[i].dcache && s.mbs[i].addr == LineOf(s.reqs[k].addr)
  }

  /** The wakeup maps hold exactly the waiting loads, each in the one map its slot points to. */
  ghost predicate LinkInv(s: State)
    requires Shape(s)
  {
    && (forall i, k | 0 <= i < MISSBUF_COUNT && k in s.mbs[i].map_ :: Linked(s, k, i))
    && (forall k: nat | k < LFRQ_SIZE && k !in s.free && k in s.waiting ::
          Linked(s, k, s.mbidx[k]) && k in s.mbs[s.mbidx[k]].map_)
  }

  /** The queue counter never falls below the number of slots in use; the miss buffer counter is exact. */
  ghost predicate CountInv(s: State) {
    && LFRQ_SIZE - |s.free| <= s.count
    && s.mbcount == MISSBUF_COUNT - |s.mbfree|
  }

  ghost predicate Inv(s: State) {
    Shape(s) && QueueInv(s) && BufferInv(s) && LinkInv(s) && CountInv(s)
  }
}
