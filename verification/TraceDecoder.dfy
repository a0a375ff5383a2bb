/**
 The trace decoder's assembly of basic blocks: instruction decoders put their uops into a buffer,
 which is flushed into the block once per instruction; a block that gets too long is closed with
 a branch to the next instruction.
 */
module TraceDecoding {
  import opened UopBlocks

  const MAX_BB_UOPS: nat := 63
  const MAX_BB_X86_INSNS: nat := 60
  const MAX_TRANSOPS_PER_USER_INSN: nat := 16
  const MAX_INSN_BYTES: nat := 15

  const REG_TEMP0: nat := 64
  const REG_RIP: nat := 56

  /** Collects the flags of earlier partial updates. */
  const COLLECT_FLAGS := Uop(CollectFlags, REG_TEMP0, ALL_FLAGS, false, 0, 0)

  function BranchTo(target: nat): Uop {
    Uop(Branch, REG_RIP, 0, false, target, target)
  }

  /** The uops that close a block. */
  function Cap(target: nat): seq<Uop> {
    [COLLECT_FLAGS, BranchTo(target)]
  }

  /** Where a block goes on when its last branch is taken, and when it is not. */
  datatype Targets = Targets(taken: nat, notTaken: nat)

  /** The targets of a block after more uops: those of the last branch. */
  ghost function Aimed(us: seq<Uop>, was: Targets): Targets {
    if us == [] then was
    else
      var last := us[|us| - 1];
      if last.opcode.Branch? then Targets(last.ripTaken, last.ripSeq) else Aimed(us[..|us| - 1], was)
  }

  /**
   What decoding an instruction gives: its uops, its length, whether it ends a block, and whether
   it must be the first of a block.
   */
  datatype Insn = Insn(uops: seq<Uop>, length: nat, ends: bool, before: bool) {
    /** Every instruction has a uop, and fits into the buffer together with the end of a block. */
    ghost predicate Valid() {
      uops != [] && |uops| + 3 <= MAX_TRANSOPS_PER_USER_INSN && 0 < length <= MAX_INSN_BYTES
    }
  }

  /** The targets are those of the branch at the end of the instruction, if it ends with one. */
  ghost predicate EndsAimed(insn: Insn, aim: Targets) {
    insn.uops != [] && insn.uops[|insn.uops| - 1].opcode.Branch? ==>
      aim == Targets(insn.uops[|insn.uops| - 1].ripTaken, insn.uops[|insn.uops| - 1].ripSeq)
  }

  /** The uops of a sequence of instructions. */
  ghost function Flat(insns: seq<Insn>): seq<Uop> {
    if insns == [] then [] else Flat(insns[..|insns| - 1]) + insns[|insns| - 1].uops
  }

  ghost function Lengths(insns: seq<Insn>): nat {
    if insns == [] then 0 else Lengths(insns[..|insns| - 1]) + insns[|insns| - 1].length
  }

  /** The block has one group for each instruction, of its uops and its length; the last one has some more uops. */
  ghost predicate Grouped(ops: seq<TransOp>, insns: seq<Insn>, more: nat)
    decreases |insns|
  {
    if insns == [] then ops == [] && more == 0
    else
      var last, n := |insns| - 1, |insns[|insns| - 1].uops| + more;
      n <= |ops| && IsGroup(ops, |ops| - n, n, insns[last].length) && Grouped(ops[..|ops| - n], insns[..last], 0)
  }

  lemma ExtendedGroups(ops: seq<TransOp>, insns: seq<Insn>, insn: Insn, tail: seq<Uop>)
    requires Grouped(ops, insns, 0) && insn.uops != []
    ensures Grouped(Extended(ops, insn.uops + tail, insn.length), insns + [insn], |tail|)
  {
    hide Extended, IsGroup;
    ExtendedGroup(ops, insn.uops + tail, insn.length);
    assert (insns + [insn])[..|insns|] == insns;
  }

  lemma JoinedGroups(ops: seq<TransOp>, insns: seq<Insn>, tail: seq<Uop>)
    requires Grouped(ops, insns, 0) && ops != [] && tail != [] && tail[0] == COLLECT_FLAGS
    ensures Grouped(Joined(ops, tail), insns, |tail|)
  {
    hide Joined, IsGroup;
    assert SetsAllFlags(tail[0]);
    var n := |insns[|insns| - 1].uops|;
    JoinedGroup(ops, tail, |ops| - n, n, insns[|insns| - 1].length);
  }

  /** Whether the last of the uops that set flags sets all of them. */
  function LastIsAtomic(us: seq<Uop>, was: bool): bool {
    if us == [] then was
    else
      var last := us[|us| - 1];
      if last.setFlags != 0 then last.setFlags == ALL_FLAGS else LastIsAtomic(us[..|us| - 1], was)
  }

  /** The last uop that sets any flags sets all of them, or there is none. */
  lemma {:induction false} LastIsAtomicMeans(us: seq<Uop>, was: bool)
    ensures LastIsAtomic(us, was) <==>
              || (was && forall i | 0 <= i < |us| :: us[i].setFlags == 0)
              || (exists i :: 0 <= i < |us| && us[i].setFlags == ALL_FLAGS && forall j | i < j < |us| :: us[j].setFlags == 0)
  {
    if us != [] {
      var n := |us| - 1;
      LastIsAtomicMeans(us[..n], was);
      if us[n].setFlags == 0 {
        if LastIsAtomic(us[..n], was) && !(was && forall i | 0 <= i < n :: us[..n][i].setFlags == 0) {
          var i :| 0 <= i < n && us[..n][i].setFlags == ALL_FLAGS && forall j | i < j < n :: us[..n][j].setFlags == 0;
          assert us[i].setFlags == ALL_FLAGS && forall j | i < j < |us| :: j < n ==> us[j] == us[..n][j];
        }
        if i :| 0 <= i < |us| && us[i].setFlags == ALL_FLAGS && forall j | i < j < |us| :: us[j].setFlags == 0 {
          assert us[..n][i].setFlags == ALL_FLAGS && forall j | i < j < n :: us[..n][j] == us[j];
        }
      } else {
        assert us[n].setFlags != 0;
      }
    }
  }

  /** The end of a block that was cut off after an instruction: the flags are collected first if they are in several places. */
  function CutOff(next: nat, atomic: bool): seq<Uop> {
    if atomic then Cap(next) else [COLLECT_FLAGS] + Cap(next)
  }

  /** An instruction has to be followed by the end of the block, as the limit of instructions or of bytes is reached. */
  predicate IsCut(insn: Insn, cut: bool, count: nat) {
    !insn.ends && (cut || count >= MAX_BB_X86_INSNS)
  }

  /**
   The uops of a block that goes on behind this instruction, with those that have to follow it,
   leave no room for the end of a block.
   */
  predicate TooLong(uops: nat, insn: Insn, cut: bool, count: nat, atomic: bool) {
    uops + |insn.uops| + (if !IsCut(insn, cut, count) then 0 else if atomic then 2 else 3) >= MAX_BB_UOPS - 2
  }

  class BasicBlock {
    const rip: nat
    const transops: array<TransOp>
    var count: int
    var bytes: int
    var userInsnCount: int
    var tagCount: int
    var memCount: int
    var storeCount: int
    var ripTaken: nat
    var ripNotTaken: nat

    ghost function Aim(): Targets
      reads this
    {
      Targets(ripTaken, ripNotTaken)
    }

    /** The uops in the block. */
    ghost function Ops(): seq<TransOp>
      requires 0 <= count <= transops.Length
      reads this, transops
    {
      transops[..count]
    }

    /** The block is well bracketed and within bounds, and its counts are right. */
    ghost predicate Valid()
      reads this, transops
    {
      && transops.Length == 2 * MAX_BB_UOPS && 0 <= count < MAX_BB_UOPS
      && Bracketed(Ops()) && FlagsMarked(Ops())
      && (forall i | 0 <= i < count :: 0 < transops[i].bytes <= MAX_INSN_BYTES)
      && userInsnCount == Insns(Ops()) && bytes == Bytes(Ops()) && tagCount == count
      && memCount == MemoryUops(Uops(Ops())) && storeCount == StoreUops(Uops(Ops()))
    }

    constructor (rip: nat)
      ensures Valid() && count == 0 && this.rip == rip && fresh(transops)
    {
      this.rip := rip;
      var blank := TransOp(COLLECT_FLAGS, false, false, 0, 0, false, false);
      transops := new TransOp[2 * MAX_BB_UOPS](_ => blank);
      count, bytes, userInsnCount, tagCount, memCount, storeCount := 0, 0, 0, 0, 0, 0;
      ripTaken, ripNotTaken := 0, 0;
    }

    /** Takes the end marks off the last instruction; returns its length. */
    method Reopen() returns (length: nat)
      requires 0 < count <= transops.Length && Bracketed(Ops())
      modifies transops
      ensures LastStart(old(Ops())) >= 0 && length == old(Ops())[LastStart(old(Ops()))].bytes
      ensures Ops() == Reopened(old(Ops()))
    {
      hide Bracketed;
      ghost var was := Ops();
      LastInsn(was, 0);
      var i := count - 1;
      while true
        invariant LastStart(was) <= i < count
        invariant forall k | 0 <= k < count ::
                    transops[k] == if k > i then was[k].(eom := false, finalFlags := false) else was[k]
        decreases i
      {
        transops[i] := transops[i].(eom := false, finalFlags := false);
        if transops[i].som {
          return transops[i].bytes;
        }
        i := i - 1;
      }
    }

    /** Enters a buffer of uops into the block, with their marks. */
    method Append(us: seq<Uop>, length: nat, join: bool)
      requires us != [] && 0 <= count && count + |us| <= transops.Length
      modifies this, transops
      ensures count == old(count) + |us| && Ops() == old(Ops()) + Placement(us, old(count), length, join)
      ensures tagCount == old(tagCount) + |us|
      ensures memCount == old(memCount) + MemoryUops(us) && storeCount == old(storeCount) + StoreUops(us)
      ensures Aim() == Aimed(us, old(Aim())) && bytes == old(bytes) && userInsnCount == old(userInsnCount)
    {
      hide Placed, Placement, LastFlagSetter, Aimed, MemoryUops, StoreUops;
      ghost var was := Ops();
      var at := count;
      NothingPlaced(us, at, length, join, Aim());
      for i := 0 to |us|
        invariant count == at + i && tagCount == old(tagCount) + i
        invariant Ops() == was + Placement(us, at, length, join)[..i]
        invariant memCount == old(memCount) + MemoryUops(us[..i]) && storeCount == old(storeCount) + StoreUops(us[..i])
        invariant Aim() == Aimed(us[..i], old(Aim())) && bytes == old(bytes) && userInsnCount == old(userInsnCount)
      {
        var u := us[i];
        if u.opcode.Branch? {
          ripTaken := u.ripTaken;
          ripNotTaken := u.ripSeq;
        }
        NextPlaced(us, i, at, length, join, old(Aim()));
        transops[count] := Placed(us, i, at, length, join);
        count := count + 1;
        if IsMemory(u) {
          memCount := memCount + 1;
        }
        if u.opcode.Store? {
          storeCount := storeCount + 1;
        }
        tagCount := tagCount + 1;
      }
    }

    static lemma NothingPlaced(us: seq<Uop>, at: nat, length: nat, join: bool, was: Targets)
      ensures us[..0] == [] && us[..|us|] == us
      ensures Placement(us, at, length, join)[..0] == []
      ensures Placement(us, at, length, join)[..|us|] == Placement(us, at, length, join)
      ensures MemoryUops([]) == StoreUops([]) == 0 && Aimed([], was) == was
    {
      hide LastFlagSetter;
    }

    static lemma NextPlaced(us: seq<Uop>, i: nat, at: nat, length: nat, join: bool, was: Targets)
      requires i < |us|
      ensures var ps := Placement(us, at, length, join); ps[..i + 1] == ps[..i] + [Placed(us, i, at, length, join)]
      ensures MemoryUops(us[..i + 1]) == MemoryUops(us[..i]) + if IsMemory(us[i]) then 1 else 0
      ensures StoreUops(us[..i + 1]) == StoreUops(us[..i]) + if us[i].opcode.Store? then 1 else 0
      ensures Aimed(us[..i + 1], was)
           == if us[i].opcode.Branch? then Targets(us[i].ripTaken, us[i].ripSeq) else Aimed(us[..i], was)
    {
      hide Placed;
      assert us[..i + 1][..i] == us[..i];
    }

    /** Enters the uops of a further instruction. */
    method AddInsn(us: seq<Uop>, length: nat)
      requires Valid() && us != [] && 0 < length <= MAX_INSN_BYTES && count + |us| < MAX_BB_UOPS
      modifies this, transops
      ensures Valid() && Ops() == Extended(old(Ops()), us, length) && count == old(count) + |us|
      ensures userInsnCount == old(userInsnCount) + 1 && bytes == old(bytes) + length
      ensures Aim() == Aimed(us, old(Aim()))
    {
      hide Bracketed, FlagsMarked, Placed, Placement, Aimed, Insns, Bytes, MemoryUops, StoreUops;
      ghost var was := Ops();
      Append(us, length, false);
      userInsnCount := userInsnCount + 1;
      bytes := bytes + length;
      ExtendedIsBracketed(was, us, length);
      ExtendedFlags(was, us, length);
      ExtendedSums(was, us, length);
      MoreUops(Uops(was), us);
      PlacedBytes(was, us, length, false);
      assert forall i | 0 <= i < count :: transops[i] == Ops()[i];
    }

    /** Joins uops to the last instruction; returns that instruction's length. */
    method JoinInsn(us: seq<Uop>) returns (length: nat)
      requires Valid() && 0 < count && us != [] && count + |us| < MAX_BB_UOPS
      modifies this, transops
      ensures Valid() && Ops() == Joined(old(Ops()), us) && count == old(count) + |us|
      ensures userInsnCount == old(userInsnCount) && bytes == old(bytes)
      ensures Aim() == Aimed(us, old(Aim())) && length <= bytes
    {
      hide Bracketed, FlagsMarked, Placed, Placement, Aimed, Reopened, LastStart, Insns, Bytes, MemoryUops, StoreUops;
      ghost var was := Ops();
      LastCounts(was);
      length := Reopen();
      Append(us, length, true);
      assert Ops() == Joined(was, us);
      JoinedIsBracketed(was, us);
      JoinedFlags(was, us);
      JoinedSums(was, us);
      MoreUops(Uops(was), us);
      JoinedBytes(was, us);
      assert forall i | 0 <= i < count :: transops[i] == Ops()[i];
    }

    static lemma PlacedBytes(ops: seq<TransOp>, us: seq<Uop>, length: nat, join: bool)
      requires forall i | 0 <= i < |ops| :: 0 < ops[i].bytes <= MAX_INSN_BYTES
      requires 0 < length <= MAX_INSN_BYTES
      ensures var all := ops + Placement(us, |ops|, length, join);
              forall i | 0 <= i < |all| :: 0 < all[i].bytes <= MAX_INSN_BYTES
    {
      hide LastFlagSetter;
    }

    static lemma JoinedBytes(ops: seq<TransOp>, us: seq<Uop>)
      requires forall i | 0 <= i < |ops| :: 0 < ops[i].bytes <= MAX_INSN_BYTES
      ensures forall i | 0 <= i < |Joined(ops, us)| :: 0 < Joined(ops, us)[i].bytes <= MAX_INSN_BYTES
    {
      hide LastFlagSetter, LastStart, Placement;
      if LastStart(ops) >= 0 {
        assert forall i | 0 <= i < |ops| :: Reopened(ops)[i].bytes == ops[i].bytes;
        PlacedBytes(Reopened(ops), us, ops[LastStart(ops)].bytes, true);
      }
    }

    static lemma MoreUops(a: seq<Uop>, b: seq<Uop>)
      ensures MemoryUops(a + b) == MemoryUops(a) + MemoryUops(b)
      ensures StoreUops(a + b) == StoreUops(a) + StoreUops(b)
    {
      if b == [] {
        assert a + b == a;
      } else {
        MoreUops(a, b[..|b| - 1]);
        assert (a + b)[..|a + b| - 1] == a + b[..|b| - 1];
      }
    }

    /** The lengths add up to nothing only for an empty block. */
    lemma EmptyBlock()
      requires Valid()
      ensures (bytes == 0 <==> count == 0) && (count == 0 <==> userInsnCount == 0)
      ensures 0 <= bytes && 0 <= userInsnCount && 0 <= count < MAX_BB_UOPS < transops.Length
    {
      hide FlagsMarked, Linked;
      if count != 0 {
        FirstCounts(Ops());
      }
    }

    static lemma LastCounts(ops: seq<TransOp>)
      ensures LastStart(ops) >= 0 ==> ops[LastStart(ops)].bytes <= Bytes(ops)
    {
    }

    static lemma FirstCounts(ops: seq<TransOp>)
      requires ops != [] && ops[0].som
      ensures ops[0].bytes <= Bytes(ops) && 0 < Insns(ops)
    {
      if |ops| > 1 {
        FirstCounts(ops[..|ops| - 1]);
      }
    }
  }

  class TraceDecoder {
    const bb: BasicBlock
    const transbuf: array<Uop>
    var transbufcount: int
    var rip: nat      // the address after the bytes decoded so far
    var ripstart: nat // the start of the instruction being decoded
    var userInsnCount: nat
    var lastFlagsUpdateWasAtomic: bool
    var joinWithPrevInsn: bool
    var endOfBlock: bool

    ghost function Repr(): set<object> {
      {this, bb, bb.transops, transbuf}
    }

    ghost function Buffer(): seq<Uop>
      requires 0 <= transbufcount <= transbuf.Length
      reads this, transbuf
    {
      transbuf[..transbufcount]
    }

    /** The block ends where the instruction being decoded starts, and has room until it is closed. */
    ghost predicate Valid()
      reads Repr()
    {
      && bb.Valid()
      && transbuf.Length == MAX_TRANSOPS_PER_USER_INSN && 0 <= transbufcount <= transbuf.Length
      && bb.count <= MAX_BB_UOPS - 3
      && ripstart == bb.rip + bb.bytes
      && (joinWithPrevInsn ==> bb.count > 0)
    }

    /** The block is complete; decoding goes on at the address after it. */
    ghost predicate Closed()
      reads Repr()
    {
      bb.Valid() && rip == bb.rip + bb.bytes
    }

    constructor (start: nat)
      ensures Ready() && rip == start == bb.rip && bb.count == 0 && userInsnCount == 0 && fresh(Repr())
    {
      bb := new BasicBlock(start);
      transbuf := new Uop[MAX_TRANSOPS_PER_USER_INSN](_ => COLLECT_FLAGS);
      transbufcount, userInsnCount := 0, 0;
      rip, ripstart := start, start;
      lastFlagsUpdateWasAtomic, joinWithPrevInsn, endOfBlock := false, false, false;
      new;
      bb.EmptyBlock();
    }

    /** Whether the instruction being decoded is the first of the block. */
    predicate FirstInsnInBb()
      reads this
    {
      ripstart == bb.rip
    }

    method Put(u: Uop)
      requires Valid() && transbufcount < MAX_TRANSOPS_PER_USER_INSN
      modifies this`transbufcount, this`lastFlagsUpdateWasAtomic, transbuf
      ensures Valid() && Buffer() == old(Buffer()) + [u]
      ensures lastFlagsUpdateWasAtomic == if u.setFlags != 0 then u.setFlags == ALL_FLAGS else old(lastFlagsUpdateWasAtomic)
    {
      transbuf[transbufcount] := u;
      transbufcount := transbufcount + 1;
      if u.setFlags != 0 {
        lastFlagsUpdateWasAtomic := u.setFlags == ALL_FLAGS;
      }
    }

    /** Closes the block with a branch to the address after or at the start of the current instruction. */
    method Split(after: bool)
      requires Valid() && transbufcount + 2 <= MAX_TRANSOPS_PER_USER_INSN
      requires !after ==> !FirstInsnInBb()
      modifies this, transbuf, bb`ripTaken, bb`ripNotTaken
      ensures Valid() && Buffer() == old(Buffer()) + Cap(if after then rip else ripstart)
      ensures joinWithPrevInsn == !after && endOfBlock
      ensures rip == old(rip) && ripstart == old(ripstart) && userInsnCount == old(userInsnCount)
    {
      hide Bracketed, FlagsMarked, Insns, Bytes, MemoryUops, StoreUops, Uops;
      var target := if after then rip else ripstart;
      bb.EmptyBlock();
      Put(COLLECT_FLAGS);
      Put(BranchTo(target));
      bb.ripTaken := target;
      bb.ripNotTaken := target;
      joinWithPrevInsn := !after;
      endOfBlock := true;
    }

    /** Whether the buffered uops do not fit with two more to close the block. */
    predicate Overflows()
      reads this, bb
    {
      transbufcount >= MAX_BB_UOPS - 2 - bb.count
    }

    /**
     Enters the buffered uops into the block: as a further instruction, or joined to the last one
     when the block is being closed before the current instruction. When they do not fit, they are
     dropped and the block is closed before them.
     */
    method Flush() returns (ok: bool)
      requires Valid() && (transbufcount > 0 && !joinWithPrevInsn ==> 0 < rip - ripstart <= MAX_INSN_BYTES)
      modifies Repr()
      ensures bb.Valid() && userInsnCount == old(userInsnCount)
      ensures ok ==> lastFlagsUpdateWasAtomic == old(lastFlagsUpdateWasAtomic)
      ensures old(transbufcount) == 0 ==>
                ok && Valid() && bb.Ops() == old(bb.Ops()) && rip == old(rip) && ripstart == old(ripstart)
                && endOfBlock == old(endOfBlock) && joinWithPrevInsn == old(joinWithPrevInsn)
                && bb.bytes == old(bb.bytes)
      ensures old(transbufcount) > 0 ==> Closed() && transbufcount == 0
      ensures old(transbufcount) > 0 && !old(Overflows()) && !old(joinWithPrevInsn) ==>
                && ok && bb.Ops() == Extended(old(bb.Ops()), old(Buffer()), old(rip - ripstart))
                && bb.count <= MAX_BB_UOPS - 3 && rip == old(rip) && endOfBlock == old(endOfBlock)
                && !joinWithPrevInsn && bb.Aim() == Aimed(old(Buffer()), old(bb.Aim()))
                && bb.userInsnCount == old(bb.userInsnCount) + 1
      ensures old(transbufcount) > 0 && !old(Overflows()) && old(joinWithPrevInsn) ==>
                && ok && bb.Ops() == Joined(old(bb.Ops()), old(Buffer()))
                && rip == old(ripstart) && endOfBlock == old(endOfBlock)
                && bb.Aim() == Aimed(old(Buffer()), old(bb.Aim()))
                && bb.userInsnCount == old(bb.userInsnCount)
      ensures old(transbufcount) > 0 && old(Overflows()) ==>
                && !ok && bb.Ops() == Joined(old(bb.Ops()), Cap(old(ripstart)))
                && rip == old(ripstart) && endOfBlock && bb.Aim() == Targets(old(ripstart), old(ripstart))
                && bb.userInsnCount == old(bb.userInsnCount)
    {
      hide BasicBlock.Valid, Extended, Joined, Aimed, Cap;
      if transbufcount == 0 {
        return true;
      }
      bb.EmptyBlock();
      var overflow := Overflows();
      if overflow {
        transbufcount := 0;
        Split(false);
        assert Buffer() == Cap(ripstart);
        AimedAtCap(ripstart, bb.Aim());
        CapSize(ripstart);
      }
      Enter();
      return !overflow;
    }

    static lemma CapSize(target: nat)
      ensures |Cap(target)| == 2
    {
    }

    /** Enters the buffered uops, which fit. */
    method Enter()
      requires Valid() && transbufcount > 0 && bb.count + transbufcount < MAX_BB_UOPS
      requires !joinWithPrevInsn ==> 0 < rip - ripstart <= MAX_INSN_BYTES
      modifies this`rip, this`ripstart, this`transbufcount, bb, bb.transops
      ensures Closed() && transbufcount == 0 && bb.Aim() == Aimed(old(Buffer()), old(bb.Aim()))
      ensures bb.count == old(bb.count) + old(transbufcount)
      ensures !joinWithPrevInsn ==>
                && bb.Ops() == Extended(old(bb.Ops()), old(Buffer()), old(rip - ripstart)) && rip == old(rip)
                && bb.userInsnCount == old(bb.userInsnCount) + 1
      ensures joinWithPrevInsn ==>
                && bb.Ops() == Joined(old(bb.Ops()), old(Buffer())) && rip == old(ripstart)
                && bb.userInsnCount == old(bb.userInsnCount)
    {
      hide BasicBlock.Valid, Extended, Joined, Aimed;
      if joinWithPrevInsn {
        var length := bb.JoinInsn(transbuf[..transbufcount]);
        rip := ripstart;
        ripstart := ripstart - length;
      } else {
        bb.AddInsn(transbuf[..transbufcount], rip - ripstart);
      }
      transbufcount := 0;
    }

    static lemma AimedAtCap(target: nat, was: Targets)
      ensures Aimed(Cap(target), was) == Targets(target, target)
    {
    }

    /** Ready for the next instruction. */
    ghost predicate Ready()
      reads Repr()
    {
      && Closed() && bb.count <= MAX_BB_UOPS - 3
      && transbuf.Length == MAX_TRANSOPS_PER_USER_INSN && transbufcount == 0
      && !joinWithPrevInsn && !endOfBlock
    }

    /** Puts the uops of an instruction into the buffer. */
    method PutAll(us: seq<Uop>)
      requires Valid() && transbufcount + |us| <= MAX_TRANSOPS_PER_USER_INSN
      modifies this`transbufcount, this`lastFlagsUpdateWasAtomic, transbuf
      ensures Valid() && Buffer() == old(Buffer()) + us
      ensures lastFlagsUpdateWasAtomic == LastIsAtomic(us, old(lastFlagsUpdateWasAtomic))
    {
      hide BasicBlock.Valid;
      ghost var was := Buffer();
      assert us[..|us|] == us;
      for i := 0 to |us|
        invariant Valid() && Buffer() == was + us[..i]
        invariant lastFlagsUpdateWasAtomic == LastIsAtomic(us[..i], old(lastFlagsUpdateWasAtomic))
      {
        assert us[..i + 1][..i] == us[..i];
        Put(us[i]);
        assert us[..i + 1] == us[..i] + [us[i]];
      }
    }

    /**
     Translates one instruction. The block is closed before it, exactly if the decoder asks for that
     and it is not the first or its uops do not fit; and after it, exactly if it ends a block, or the
     limit of instructions is reached or the bytes run out (cut). Otherwise decoding continues.
     */
    method Translate(insn: Insn, cut: bool) returns (more: bool, ghost placed: bool, ghost tail: seq<Uop>)
      requires Ready() && insn.Valid()
      modifies Repr()
      ensures Closed() && userInsnCount == old(userInsnCount) + 1
      ensures more ==> Ready() && userInsnCount < MAX_BB_X86_INSNS
                       && lastFlagsUpdateWasAtomic == LastIsAtomic(insn.uops, old(lastFlagsUpdateWasAtomic))
      ensures more <==> placed && !insn.ends && !IsCut(insn, cut, userInsnCount)
      ensures placed <==>
                && !(insn.before && old(bb.bytes) > 0)
                && !TooLong(old(bb.count), insn, cut, userInsnCount, LastIsAtomic(insn.uops, old(lastFlagsUpdateWasAtomic)))
      ensures placed ==>
                && bb.Ops() == Extended(old(bb.Ops()), insn.uops + tail, insn.length) && rip == old(rip) + insn.length
                && bb.userInsnCount == old(bb.userInsnCount) + 1
                && tail == if IsCut(insn, cut, userInsnCount)
                           then CutOff(rip, LastIsAtomic(insn.uops, old(lastFlagsUpdateWasAtomic))) else []
      ensures !placed ==>
                && bb.Ops() == Joined(old(bb.Ops()), tail) && rip == old(rip) && tail == Cap(rip)
                && bb.userInsnCount == old(bb.userInsnCount) && old(bb.count) > 0
      ensures tail != [] ==> bb.Aim() == Targets(rip, rip)
      ensures tail == [] ==> EndsAimed(insn, bb.Aim())
    {
      hide BasicBlock.Valid, Extended, Joined, Cap, Aimed, LastIsAtomic, EndsAimed, TooLong, CutOff;
      bb.EmptyBlock();
      ghost var start, atomic := rip, LastIsAtomic(insn.uops, lastFlagsUpdateWasAtomic);
      ripstart := rip;
      rip := rip + insn.length;
      CutOffSize(start, atomic);
      tail := Prepare(insn, cut);
      if tail != [] {
        AimedAtTail(if joinWithPrevInsn then [] else insn.uops, tail, if joinWithPrevInsn then start else rip, bb.Aim());
      }
      NoUops(tail);
      NoUops(insn.uops);
      InsnAims(insn, bb.Aim());
      placed := !joinWithPrevInsn && !Overflows();
      if Overflows() {
        tail := Cap(start);
      }
      var ended := endOfBlock;
      var ok := Flush();
      bb.EmptyBlock();
      more := ok && !ended;
    }

    static lemma InsnAims(insn: Insn, was: Targets)
      ensures EndsAimed(insn, Aimed(insn.uops, was))
    {
    }

    static lemma CutOffSize(next: nat, atomic: bool)
      ensures |CutOff(next, atomic)| == if atomic then 2 else 3
      ensures |Cap(next)| == 2 && Cap(next)[0] == COLLECT_FLAGS && Cap(next)[1] == BranchTo(next)
    {
    }

    /** Buffers the uops of an instruction, with the end of the block if it is cut off there, or only the end of the block. */
    method Prepare(insn: Insn, cut: bool) returns (ghost tail: seq<Uop>)
      requires Valid() && insn.Valid() && transbufcount == 0 && !joinWithPrevInsn
      modifies this, transbuf, bb`ripTaken, bb`ripNotTaken
      ensures Valid() && userInsnCount == old(userInsnCount) + 1 && rip == old(rip) && ripstart == old(ripstart)
      ensures joinWithPrevInsn == (insn.before && !FirstInsnInBb())
      ensures endOfBlock == (joinWithPrevInsn || insn.ends || IsCut(insn, cut, userInsnCount))
      ensures Buffer() == (if joinWithPrevInsn then [] else insn.uops) + tail
      ensures tail == if joinWithPrevInsn then Cap(ripstart)
                      else if IsCut(insn, cut, userInsnCount)
                      then CutOff(rip, LastIsAtomic(insn.uops, old(lastFlagsUpdateWasAtomic))) else []
      ensures tail == [] ==> lastFlagsUpdateWasAtomic == LastIsAtomic(insn.uops, old(lastFlagsUpdateWasAtomic))
      ensures tail != [] ==> tail[|tail| - 1] == BranchTo(if joinWithPrevInsn then ripstart else rip)
      ensures transbufcount > 0 && (!joinWithPrevInsn ==>
                (Overflows() <==> TooLong(bb.count, insn, cut, userInsnCount, LastIsAtomic(insn.uops, old(lastFlagsUpdateWasAtomic)))))
    {
      hide BasicBlock.Valid, Cap, CutOff, LastIsAtomic;
      CutOffSize(rip, LastIsAtomic(insn.uops, lastFlagsUpdateWasAtomic));
      CutOffSize(ripstart, false);
      NoUops(insn.uops);
      tail := Fill(insn);
      userInsnCount := userInsnCount + 1;
      if !endOfBlock && (cut || userInsnCount >= MAX_BB_X86_INSNS) {
        tail := SplitAfter();
        assert Buffer() == insn.uops + tail;
      }
    }

    /** Buffers the uops of an instruction, or the end of the block when the instruction must be the first of one. */
    method Fill(insn: Insn) returns (ghost tail: seq<Uop>)
      requires Valid() && insn.Valid() && transbufcount == 0 && !joinWithPrevInsn
      modifies this, transbuf, bb`ripTaken, bb`ripNotTaken
      ensures Valid() && endOfBlock == (insn.ends || joinWithPrevInsn) && joinWithPrevInsn == (insn.before && !FirstInsnInBb())
      ensures tail == if joinWithPrevInsn then Cap(ripstart) else []
      ensures Buffer() == if joinWithPrevInsn then tail else insn.uops
      ensures !joinWithPrevInsn ==> lastFlagsUpdateWasAtomic == LastIsAtomic(insn.uops, old(lastFlagsUpdateWasAtomic))
      ensures rip == old(rip) && ripstart == old(ripstart) && userInsnCount == old(userInsnCount)
    {
      hide BasicBlock.Valid, Cap;
      if insn.before && !FirstInsnInBb() {
        Split(false);
        tail := Cap(ripstart);
        assert Buffer() == tail;
      } else {
        PutAll(insn.uops);
        endOfBlock := insn.ends;
        tail := [];
        assert Buffer() == insn.uops;
      }
    }

    /** Adds the end of a block after the buffered instruction, with the flags collected if they are not in one place. */
    method SplitAfter() returns (ghost tail: seq<Uop>)
      requires Valid() && transbufcount + 3 <= MAX_TRANSOPS_PER_USER_INSN && !joinWithPrevInsn
      modifies this, transbuf, bb`ripTaken, bb`ripNotTaken
      ensures Valid() && tail != [] && tail[|tail| - 1] == BranchTo(rip) && Buffer() == old(Buffer()) + tail
      ensures tail == CutOff(rip, old(lastFlagsUpdateWasAtomic))
      ensures !joinWithPrevInsn && endOfBlock
      ensures rip == old(rip) && ripstart == old(ripstart) && userInsnCount == old(userInsnCount)
    {
      hide BasicBlock.Valid;
      tail := Cap(rip);
      if !lastFlagsUpdateWasAtomic {
        Put(COLLECT_FLAGS);
        tail := [COLLECT_FLAGS] + tail;
      }
      Split(true);
    }

    static lemma AimedAtTail(us: seq<Uop>, tail: seq<Uop>, next: nat, was: Targets)
      requires tail != [] && tail[|tail| - 1] == BranchTo(next)
      ensures Aimed(us + tail, was) == Aimed(tail, was) == Targets(next, next)
    {
      assert (us + tail)[|us + tail| - 1] == BranchTo(next);
    }

    static lemma NoUops(us: seq<Uop>)
      ensures us + [] == us && [] + us == us
    {
    }

    static lemma GrownUops(was: seq<TransOp>, flat: seq<Uop>, insn: Insn, tail: seq<Uop>)
      requires Bracketed(was) && Uops(was) == flat && insn.uops != []
      ensures Uops(Extended(was, insn.uops + tail, insn.length)) == flat + insn.uops + tail
      ensures was != [] && tail != [] ==> Uops(Joined(was, tail)) == flat + tail
    {
      hide Bracketed, LastStart, Extended, Joined;
      ExtendedSums(was, insn.uops + tail, insn.length);
      if was != [] && tail != [] {
        LastInsn(was, 0);
        JoinedSums(was, tail);
      }
    }

    /**
     Builds a block from a stream of instructions. The block consists of the uops of the first k
     instructions, in order and without a gap, and possibly of a branch to the instruction after
     them. It has at most 60 instructions and fewer than 63 uops, and the marks of start and end are
     where the instructions of the stream start and end. No instruction but the last gives a reason
     to stop, and the last one or the one after it does.
     */
    method Build(insns: seq<Insn>, cuts: seq<bool>) returns (ghost k: nat, ghost tail: seq<Uop>)
      requires Ready() && bb.count == 0 && userInsnCount == 0
      requires MAX_BB_X86_INSNS <= |insns| == |cuts| && forall i | 0 <= i < |insns| :: insns[i].Valid()
      modifies Repr()
      ensures Closed() && bb.count < MAX_BB_UOPS && 0 < k <= MAX_BB_X86_INSNS
      ensures Uops(bb.Ops()) == Flat(insns[..k]) + tail && bb.bytes == Lengths(insns[..k]) && bb.userInsnCount == k
      ensures Grouped(bb.Ops(), insns[..k], |tail|)
      ensures if tail == [] then EndsAimed(insns[k - 1], bb.Aim()) else bb.Aim() == Targets(rip, rip)
      ensures Continues(insns, cuts, k, old(lastFlagsUpdateWasAtomic))
      ensures Closes(insns, cuts, k, tail, rip, old(lastFlagsUpdateWasAtomic))
    {
      hide Ready, Built, Closed, LastIsAtomic, Closes, Flat, Insn.Valid;
      ghost var atomic := lastFlagsUpdateWasAtomic;
      NothingYet(insns, cuts, atomic);
      tail := [];
      var more := true;
      k := 0;
      var n := 0;
      while more
        invariant 0 <= n <= MAX_BB_X86_INSNS && userInsnCount == n && k <= n
        invariant Built(insns, cuts, k, tail, atomic)
        invariant more ==> k == n < MAX_BB_X86_INSNS && tail == [] && Goes(insns, cuts, n, atomic)
        invariant !more ==> 0 < k && Closes(insns, cuts, k, tail, rip, atomic)
        decreases MAX_BB_X86_INSNS - n, more
      {
        more, k, tail := BuildOne(insns, cuts, n, atomic);
        n := n + 1;
      }
      BuiltMeans(insns, cuts, k, tail, atomic);
    }

    /** The block has the first k instructions and a tail. */
    ghost predicate Built(insns: seq<Insn>, cuts: seq<bool>, k: nat, tail: seq<Uop>, atomic: bool)
      requires k <= |insns| == |cuts|
      reads Repr()
    {
      && Closed() && rip == bb.rip + Lengths(insns[..k]) && bb.userInsnCount == k
      && Uops(bb.Ops()) == Flat(insns[..k]) + tail && Grouped(bb.Ops(), insns[..k], |tail|)
      && (if tail != [] then bb.Aim() == Targets(rip, rip) else 0 < k ==> EndsAimed(insns[k - 1], bb.Aim()))
      && Continues(insns, cuts, k, atomic)
    }

    /** Decoding goes on with instruction n. */
    ghost predicate Goes(insns: seq<Insn>, cuts: seq<bool>, n: nat, atomic: bool)
      requires n <= |insns| == |cuts|
      reads Repr()
    {
      && Ready() && lastFlagsUpdateWasAtomic == LastIsAtomic(Flat(insns[..n]), atomic)
      && (0 < n ==> !insns[n - 1].ends && !cuts[n - 1])
    }

    lemma BuiltMeans(insns: seq<Insn>, cuts: seq<bool>, k: nat, tail: seq<Uop>, atomic: bool)
      requires k <= |insns| == |cuts| && Built(insns, cuts, k, tail, atomic)
      ensures Closed() && 0 <= bb.count < MAX_BB_UOPS < bb.transops.Length
      ensures rip == bb.rip + Lengths(insns[..k]) && bb.bytes == Lengths(insns[..k]) && bb.userInsnCount == k
      ensures Uops(bb.Ops()) == Flat(insns[..k]) + tail && Grouped(bb.Ops(), insns[..k], |tail|)
      ensures if tail != [] then bb.Aim() == Targets(rip, rip) else 0 < k ==> EndsAimed(insns[k - 1], bb.Aim())
      ensures Continues(insns, cuts, k, atomic)
      ensures Bracketed(bb.Ops()) && |bb.Ops()| == bb.count && (0 < k <==> 0 < bb.bytes) && (0 < k <==> 0 < bb.count)
    {
      hide Uops, Flat, Lengths, Grouped, Continues, FlagsMarked;
      bb.EmptyBlock();
    }

    /** Adds the next instruction, or closes the block before it. */
    method BuildOne(insns: seq<Insn>, cuts: seq<bool>, n: nat, ghost atomic: bool)
      returns (more: bool, ghost k: nat, ghost tail: seq<Uop>)
      requires n < MAX_BB_X86_INSNS <= |insns| == |cuts| && insns[n].Valid()
      requires Built(insns, cuts, n, [], atomic) && Goes(insns, cuts, n, atomic) && userInsnCount == n
      modifies Repr()
      ensures k <= n + 1 && Built(insns, cuts, k, tail, atomic) && userInsnCount == n + 1
      ensures more ==> k == n + 1 < MAX_BB_X86_INSNS && tail == [] && Goes(insns, cuts, k, atomic)
      ensures !more ==> 0 < k && Closes(insns, cuts, k, tail, rip, atomic)
    {
      hide BasicBlock.Valid, Extended, Joined, Flat, Lengths, Uops, Grouped, LastIsAtomic, Cap, CutOff, TooLong, Fits;
      hide Continues, Closes, Bracketed, Linked;
      BuiltMeans(insns, cuts, n, [], atomic);
      ghost var ops, flat := bb.Ops(), Flat(insns[..n]);
      NoUops(flat);
      NextFits(insns, cuts, n, atomic, rip);
      ghost var placed;
      more, placed, tail := Translate(insns[n], cuts[n]);
      CutOffSize(rip, atomic);
      GrownUops(ops, flat, insns[n], tail);
      GrownGroups(ops, insns, n, tail);
      NextInsn(insns, n);
      NextFits(insns, cuts, n, atomic, rip);
      k := if placed then n + 1 else n;
    }

    /** None of the first k instructions but the last gives a reason to stop behind it, and none but the first one before it. */
    static ghost predicate Continues(insns: seq<Insn>, cuts: seq<bool>, k: nat, atomic: bool)
      requires k <= |insns| == |cuts|
    {
      && (forall i | 0 <= i < k - 1 :: !insns[i].ends && !cuts[i])
      && (forall i | 0 < i < k :: !insns[i].before)
      && (forall i: nat | i < k :: Fits(insns, cuts, i, atomic))
    }

    /**
     The last of the first k instructions ends the block, or it was cut off there, or the next
     instruction must start a block or does not fit.
     */
    static ghost predicate Closes(insns: seq<Insn>, cuts: seq<bool>, k: nat, tail: seq<Uop>, next: nat, atomic: bool)
      requires 0 < k <= MAX_BB_X86_INSNS <= |insns| == |cuts|
    {
      if insns[k - 1].ends then tail == []
      else if cuts[k - 1] || k == MAX_BB_X86_INSNS then tail == CutOff(next, LastIsAtomic(Flat(insns[..k]), atomic))
      else tail == Cap(next) && (insns[k].before || !Fits(insns, cuts, k, atomic))
    }

    /** Instruction i, after those before it, is not too long for the block. */
    static ghost predicate Fits(insns: seq<Insn>, cuts: seq<bool>, i: nat, atomic: bool)
      requires i < |insns| == |cuts|
    {
      !TooLong(|Flat(insns[..i])|, insns[i], cuts[i], i + 1, LastIsAtomic(Flat(insns[..i + 1]), atomic))
    }

    /** What becomes of the block when instruction n is placed, and when it is not. */
    static lemma NextFits(insns: seq<Insn>, cuts: seq<bool>, n: nat, atomic: bool, next: nat)
      requires n < MAX_BB_X86_INSNS <= |insns| == |cuts| && Continues(insns, cuts, n, atomic)
      requires 0 < n ==> !insns[n - 1].ends && !cuts[n - 1]
      ensures
        var now := LastIsAtomic(insns[n].uops, LastIsAtomic(Flat(insns[..n]), atomic));
        var fits := !TooLong(|Flat(insns[..n])|, insns[n], cuts[n], n + 1, now);
        && now == LastIsAtomic(Flat(insns[..n + 1]), atomic)
        && (fits && (n == 0 || !insns[n].before) ==> Continues(insns, cuts, n + 1, atomic))
        && (insns[n].ends ==> Closes(insns, cuts, n + 1, [], next, atomic))
        && (IsCut(insns[n], cuts[n], n + 1) ==> Closes(insns, cuts, n + 1, CutOff(next, now), next, atomic))
        && (0 < n && (!fits || insns[n].before) ==> Closes(insns, cuts, n, Cap(next), next, atomic))
    {
      hide LastIsAtomic, Flat, TooLong, Cap, CutOff;
      NextInsn(insns, n);
      LastOfBoth(Flat(insns[..n]), insns[n].uops, atomic);
    }

    static lemma {:induction false} LastOfBoth(a: seq<Uop>, b: seq<Uop>, was: bool)
      ensures LastIsAtomic(a + b, was) == LastIsAtomic(b, LastIsAtomic(a, was))
    {
      if b == [] {
        assert a + b == a;
      } else {
        LastOfBoth(a, b[..|b| - 1], was);
        assert (a + b)[..|a + b| - 1] == a + b[..|b| - 1];
      }
    }

    static lemma GrownGroups(was: seq<TransOp>, insns: seq<Insn>, n: nat, tail: seq<Uop>)
      requires n < |insns| && Grouped(was, insns[..n], 0) && insns[n].uops != []
      ensures Grouped(Extended(was, insns[n].uops + tail, insns[n].length), insns[..n + 1], |tail|)
      ensures was != [] && tail != [] && tail[0] == COLLECT_FLAGS ==> Grouped(Joined(was, tail), insns[..n], |tail|)
    {
      hide Extended, Joined, Grouped;
      ExtendedGroups(was, insns[..n], insns[n], tail);
      assert insns[..n + 1] == insns[..n] + [insns[n]];
      if was != [] && tail != [] && tail[0] == COLLECT_FLAGS {
        JoinedGroups(was, insns[..n], tail);
      }
    }

    lemma NothingYet(insns: seq<Insn>, cuts: seq<bool>, atomic: bool)
      requires Ready() && bb.count == 0 && |insns| == |cuts| && atomic == lastFlagsUpdateWasAtomic
      ensures Built(insns, cuts, 0, [], atomic) && Goes(insns, cuts, 0, atomic)
    {
    }

    static lemma NextInsn(insns: seq<Insn>, n: nat)
      requires n < |insns|
      ensures Flat(insns[..n + 1]) == Flat(insns[..n]) + insns[n].uops
      ensures Lengths(insns[..n + 1]) == Lengths(insns[..n]) + insns[n].length
    {
      assert insns[..n + 1][..n] == insns[..n];
    }
  }
}
