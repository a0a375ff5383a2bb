/**
 Basic blocks of micro-operations: the structure every block has, and the two ways a block
 grows: by the uops of a further instruction, or by uops joined to its last instruction.
 */
module UopBlocks {

  datatype Opcode = Load | Store | Branch | CollectFlags | Other

  /** What a uop does, as the instruction decoders emit it. */
  datatype Uop = Uop(opcode: Opcode, rd: nat, setFlags: nat, noUserFlags: bool, ripTaken: nat, ripSeq: nat)

  /** A uop in a block: whether it starts or ends its instruction, the length of that in bytes, and so on. */
  datatype TransOp = TransOp(uop: Uop, som: bool, eom: bool, bytes: nat, bbIndex: nat,
                             finalFlags: bool, finalInsn: bool)

  const ALL_FLAGS: nat := 7

  predicate SetsAllFlags(u: Uop) {
    u.setFlags == ALL_FLAGS && !u.noUserFlags
  }

  predicate IsMemory(u: Uop) {
    u.opcode.Load? || u.opcode.Store?
  }

  /** An instruction ends where the next one starts, and its uops all have its length. */
  ghost predicate Linked(ops: seq<TransOp>, i: nat)
    requires i + 1 < |ops|
  {
    && (ops[i].eom <==> ops[i + 1].som)
    && (!ops[i + 1].som ==> ops[i + 1].bytes == ops[i].bytes)
  }

  /**
   The uops form groups of a first uop marked as start, more uops, and a last one marked as end;
   all uops of a group have the length of the same instruction.
   */
  ghost predicate Bracketed(ops: seq<TransOp>) {
    && (ops != [] ==> ops[0].som && ops[|ops| - 1].eom)
    && (forall i: nat {:trigger Linked(ops, i)} | i + 1 < |ops| :: Linked(ops, i))
    && (forall i | 0 <= i < |ops| :: ops[i].bbIndex == i)
  }

  /** A uop marked as the final flags of its instruction sets all flags, and no later uop of the instruction does. */
  ghost predicate FlagsMarked(ops: seq<TransOp>) {
    forall i, j | 0 <= i <= j < |ops| && ops[i].finalFlags && SameInsn(ops, i, j) ::
      SetsAllFlags(ops[i].uop) && (i < j ==> !SetsAllFlags(ops[j].uop))
  }

  ghost predicate SameInsn(ops: seq<TransOp>, i: nat, j: nat)
    requires i <= j < |ops|
  {
    forall k | i < k <= j :: !ops[k].som
  }

  /** The number of instructions. */
  ghost function Insns(ops: seq<TransOp>): nat {
    if ops == [] then 0 else Insns(ops[..|ops| - 1]) + if ops[|ops| - 1].som then 1 else 0
  }

  /** The sum of the lengths of the instructions. */
  ghost function Bytes(ops: seq<TransOp>): nat {
    if ops == [] then 0 else Bytes(ops[..|ops| - 1]) + if ops[|ops| - 1].som then ops[|ops| - 1].bytes else 0
  }

  ghost function MemoryUops(us: seq<Uop>): nat {
    if us == [] then 0 else MemoryUops(us[..|us| - 1]) + if IsMemory(us[|us| - 1]) then 1 else 0
  }

  ghost function StoreUops(us: seq<Uop>): nat {
    if us == [] then 0 else StoreUops(us[..|us| - 1]) + if us[|us| - 1].opcode.Store? then 1 else 0
  }

  /** The uops themselves. */
  ghost function Uops(ops: seq<TransOp>): (us: seq<Uop>)
    ensures |us| == |ops|
  {
    seq(|ops|, i requires 0 <= i < |ops| => ops[i].uop)
  }

  /** The index of the first uop of the last instruction; -1 when there is none. */
  ghost function LastStart(ops: seq<TransOp>): (s: int)
    ensures -1 <= s < |ops|
    ensures s >= 0 ==> ops[s].som
    ensures forall i | s < i < |ops| :: !ops[i].som
  {
    if ops == [] then -1
    else if ops[|ops| - 1].som then |ops| - 1
    else LastStart(ops[..|ops| - 1])
  }

  /** The last instruction reopened, so that uops can be joined to it. */
  ghost function Reopened(ops: seq<TransOp>): (rs: seq<TransOp>)
    ensures |rs| == |ops|
  {
    seq(|ops|, i requires 0 <= i < |ops| =>
      if i >= LastStart(ops) then ops[i].(eom := false, finalFlags := false) else ops[i])
  }

  /** The last uop that sets all flags; -1 when none does. */
  function LastFlagSetter(us: seq<Uop>): (w: int)
    ensures -1 <= w < |us|
    ensures w >= 0 ==> SetsAllFlags(us[w])
    ensures forall i | w < i < |us| :: !SetsAllFlags(us[i])
  {
    if us == [] then -1
    else if SetsAllFlags(us[|us| - 1]) then |us| - 1
    else LastFlagSetter(us[..|us| - 1])
  }

  /** Uop i of those being added to the block. */
  function Placed(us: seq<Uop>, i: nat, at: nat, bytes: nat, join: bool): TransOp
    requires i < |us|
  {
    TransOp(us[i], i == 0 && !join, i == |us| - 1, bytes, at + i,
            i == LastFlagSetter(us), us[|us| - 1].opcode.Branch?)
  }

  function Placement(us: seq<Uop>, at: nat, bytes: nat, join: bool): (ps: seq<TransOp>)
    ensures |ps| == |us|
  {
    seq(|us|, i requires 0 <= i < |us| => Placed(us, i, at, bytes, join))
  }

  /** The block with the uops of a further instruction. */
  ghost function Extended(ops: seq<TransOp>, us: seq<Uop>, bytes: nat): seq<TransOp> {
    ops + Placement(us, |ops|, bytes, false)
  }

  /** The block with more uops in its last instruction. */
  ghost function Joined(ops: seq<TransOp>, us: seq<Uop>): seq<TransOp> {
    if LastStart(ops) < 0 then ops
    else Reopened(ops) + Placement(us, |ops|, ops[LastStart(ops)].bytes, true)
  }

  /** The n uops from the given place on are those of one instruction of the given length, with marked flags. */
  ghost predicate IsGroup(ops: seq<TransOp>, at: nat, n: nat, bytes: nat) {
    IsFrame(ops, at, n, bytes) && AreFinal(ops, at, n)
  }

  /** The first and the last of the uops are marked. */
  ghost predicate IsFrame(ops: seq<TransOp>, at: nat, n: nat, bytes: nat) {
    && 0 < n && at + n <= |ops|
    && (forall i | at <= i < at + n ::
          (ops[i].som <==> i == at) && (ops[i].eom <==> i == at + n - 1) && ops[i].bytes == bytes)
    && (ops[at + n - 1].finalInsn <==> ops[at + n - 1].uop.opcode.Branch?)
  }

  /** The last of the uops that sets all flags is marked, and no other. */
  ghost predicate AreFinal(ops: seq<TransOp>, at: nat, n: nat) {
    && at + n <= |ops|
    && forall i | at <= i < at + n ::
         ops[i].finalFlags <==>
           && ops[i].uop.setFlags == 7 && !ops[i].uop.noUserFlags
           && forall j | i < j < at + n :: ops[j].uop.setFlags == 7 ==> ops[j].uop.noUserFlags
  }

  // ---- Growing keeps the structure

  lemma LastSetterOf(us: seq<Uop>, i: nat)
    requires i < |us|
    ensures i == LastFlagSetter(us) <==> SetsAllFlags(us[i]) && forall j | i < j < |us| :: !SetsAllFlags(us[j])
  {
  }

  /** Placed uops mark the last one that sets all flags. */
  lemma PlacedAreFinal(ops: seq<TransOp>, us: seq<Uop>, bytes: nat, join: bool)
    ensures AreFinal(ops + Placement(us, |ops|, bytes, join), |ops|, |us|)
  {
    hide LastFlagSetter;
    var n, all := |ops|, ops + Placement(us, |ops|, bytes, join);
    assert forall k | 0 <= k < |us| :: all[n + k].uop == us[k];
    forall i | n <= i < |all|
      ensures all[i].finalFlags <==> SetsAllFlags(all[i].uop) && forall j | i < j < |all| :: !SetsAllFlags(all[j].uop)
    {
      LastSetterOf(us, i - n);
      assert all[i].finalFlags <==> i - n == LastFlagSetter(us);
      assert forall j | i < j < |all| :: all[j].uop == us[j - n];
      assert forall k | i - n < k < |us| :: us[k] == all[n + k].uop;
    }
  }

  lemma ExtendedGroup(ops: seq<TransOp>, us: seq<Uop>, bytes: nat)
    requires us != []
    ensures var all := Extended(ops, us, bytes);
            |all| == |ops| + |us| && all[..|ops|] == ops && IsGroup(all, |ops|, |us|, bytes)
  {
    hide LastFlagSetter, AreFinal;
    PlacedAreFinal(ops, us, bytes, false);
    assert forall i | 0 <= i < |us| :: Extended(ops, us, bytes)[|ops| + i] == Placed(us, i, |ops|, bytes, false);
  }

  lemma JoinedGroup(ops: seq<TransOp>, us: seq<Uop>, at: nat, n: nat, bytes: nat)
    requires us != [] && IsGroup(ops, at, n, bytes) && at + n == |ops| && exists i :: 0 <= i < |us| && SetsAllFlags(us[i])
    ensures var all := Joined(ops, us);
            |all| == |ops| + |us| && all[..at] == ops[..at] && IsGroup(all, at, n + |us|, bytes)
  {
    StartOfGroup(ops, at, n, bytes);
    JoinedFrame(ops, us, at, n, bytes);
    hide SetsAllFlags, AreFinal, IsFrame, Placement;
    JoinedAreFinal(Reopened(ops), us, at, bytes);
  }

  lemma StartOfGroup(ops: seq<TransOp>, at: nat, n: nat, bytes: nat)
    requires IsFrame(ops, at, n, bytes) && at + n == |ops|
    ensures LastStart(ops) == at && ops[at].bytes == bytes
  {
    assert ops[at].som;
  }

  lemma JoinedFrame(ops: seq<TransOp>, us: seq<Uop>, at: nat, n: nat, bytes: nat)
    requires us != [] && IsFrame(ops, at, n, bytes) && at + n == |ops| && LastStart(ops) == at
    ensures var all := Joined(ops, us);
            |all| == |ops| + |us| && all[..at] == ops[..at] && IsFrame(all, at, n + |us|, bytes)
  {
    hide LastFlagSetter, LastStart;
    var all := Joined(ops, us);
    assert forall i | 0 <= i < |ops| :: all[i] == Reopened(ops)[i];
    assert forall i | 0 <= i < |us| :: all[|ops| + i] == Placed(us, i, |ops|, bytes, true);
  }

  /** The marks of a reopened instruction are those of the joined uops, if one of them sets all flags. */
  lemma JoinedAreFinal(ops: seq<TransOp>, us: seq<Uop>, at: nat, bytes: nat)
    requires at <= |ops| && forall i | at <= i < |ops| :: !ops[i].finalFlags
    requires exists i :: 0 <= i < |us| && SetsAllFlags(us[i])
    ensures AreFinal(ops + Placement(us, |ops|, bytes, true), at, |ops| - at + |us|)
  {
    hide LastFlagSetter, Placement;
    PlacedAreFinal(ops, us, bytes, true);
    var all := ops + Placement(us, |ops|, bytes, true);
    UopsPlaced(us, |ops|, bytes, true);
    var s :| 0 <= s < |us| && SetsAllFlags(us[s]);
    assert all[|ops| + s].uop == Uops(Placement(us, |ops|, bytes, true))[s] == us[s];
  }

  lemma ExtendedIsBracketed(ops: seq<TransOp>, us: seq<Uop>, bytes: nat)
    requires Bracketed(ops) && us != []
    ensures Bracketed(Extended(ops, us, bytes))
  {
    hide LastFlagSetter;
    var all := Extended(ops, us, bytes);
    assert forall i | 0 <= i < |ops| :: all[i] == ops[i];
    assert forall i | 0 <= i < |us| :: all[|ops| + i] == Placed(us, i, |ops|, bytes, false);
    forall i: nat | i + 1 < |all|
      ensures Linked(all, i)
    {
      if |ops| <= i {
        assert all[i] == Placed(us, i - |ops|, |ops|, bytes, false);
        assert all[i + 1] == Placed(us, i + 1 - |ops|, |ops|, bytes, false);
      } else if i == |ops| - 1 {
        assert all[i + 1] == Placed(us, 0, |ops|, bytes, false);
      } else {
        assert Linked(ops, i);
      }
    }
  }

  /** A bracketed block that is not empty has a last instruction, all of whose uops have its length. */
  lemma LastInsn(ops: seq<TransOp>, i: nat)
    requires Bracketed(ops) && ops != []
    ensures LastStart(ops) >= 0
    ensures LastStart(ops) <= i < |ops| ==> ops[i].bytes == ops[LastStart(ops)].bytes && (i < |ops| - 1 ==> !ops[i].eom)
  {
    if LastStart(ops) < i < |ops| {
      LastInsn(ops, i - 1);
      assert Linked(ops, i - 1);
    }
    if LastStart(ops) <= i < |ops| - 1 {
      assert !ops[i + 1].som && Linked(ops, i);
    }
  }

  lemma JoinedIsBracketed(ops: seq<TransOp>, us: seq<Uop>)
    requires Bracketed(ops) && ops != [] && us != []
    ensures Bracketed(Joined(ops, us))
  {
    hide LastFlagSetter;
    var s := LastStart(ops);
    LastInsn(ops, 0);
    var bytes := ops[s].bytes;
    var all := Joined(ops, us);
    assert forall i | 0 <= i < |ops| :: all[i] == Reopened(ops)[i];
    forall i: nat | i + 1 < |all|
      ensures Linked(all, i)
    {
      LastInsn(ops, i);
      if |ops| <= i {
        assert all[i] == Placed(us, i - |ops|, |ops|, bytes, true);
        assert all[i + 1] == Placed(us, i + 1 - |ops|, |ops|, bytes, true);
      } else if i == |ops| - 1 {
        assert all[i + 1] == Placed(us, 0, |ops|, bytes, true);
      } else {
        assert Linked(ops, i);
      }
    }
  }

  lemma ExtendedFlags(ops: seq<TransOp>, us: seq<Uop>, bytes: nat)
    requires FlagsMarked(ops) && us != []
    ensures FlagsMarked(Extended(ops, us, bytes))
  {
    hide LastFlagSetter;
    var all := Extended(ops, us, bytes);
    var n := |ops|;
    assert all[n].som;
    forall i: nat, j: nat | i <= j < |all| && all[i].finalFlags && SameInsn(all, i, j)
      ensures SetsAllFlags(all[i].uop) && (i < j ==> !SetsAllFlags(all[j].uop))
    {
      if i < n {
        assert j < n;
        assert forall k | i <= k <= j :: ops[k] == all[k];
        assert SameInsn(ops, i, j);
      } else {
        assert all[i] == Placed(us, i - n, n, bytes, false) && all[j] == Placed(us, j - n, n, bytes, false);
      }
    }
  }

  lemma JoinedFlags(ops: seq<TransOp>, us: seq<Uop>)
    requires FlagsMarked(ops) && LastStart(ops) >= 0 && us != []
    ensures FlagsMarked(Joined(ops, us))
  {
    hide LastFlagSetter;
    var s, n := LastStart(ops), |ops|;
    var all, bytes := Joined(ops, us), ops[s].bytes;
    assert forall k | 0 <= k < n :: all[k] == Reopened(ops)[k];
    forall i: nat, j: nat | i <= j < |all| && all[i].finalFlags && SameInsn(all, i, j)
      ensures SetsAllFlags(all[i].uop) && (i < j ==> !SetsAllFlags(all[j].uop))
    {
      if i < n {
        assert i < s && all[s].som;
        assert j < s;
        assert forall k | i <= k <= j :: ops[k] == all[k];
        assert SameInsn(ops, i, j);
      } else {
        assert all[i] == Placed(us, i - n, n, bytes, true) && all[j] == Placed(us, j - n, n, bytes, true);
      }
    }
  }

  // ---- What growing counts

  /** The count of uops that load or store. */
  lemma {:induction false} MemoryUopsAre(us: seq<Uop>)
    ensures MemoryUops(us) == |set i | 0 <= i < |us| && (us[i].opcode.Load? || us[i].opcode.Store?)|
  {
    if us != [] {
      var n := |us| - 1;
      MemoryUopsAre(us[..n]);
      var before := set i | 0 <= i < n && (us[..n][i].opcode.Load? || us[..n][i].opcode.Store?);
      var now := set i | 0 <= i < |us| && (us[i].opcode.Load? || us[i].opcode.Store?);
      assert now - {n} == before;
    }
  }

  /** The count of uops that store. */
  lemma {:induction false} StoreUopsAre(us: seq<Uop>)
    ensures StoreUops(us) == |set i | 0 <= i < |us| && us[i].opcode.Store?|
  {
    if us != [] {
      var n := |us| - 1;
      StoreUopsAre(us[..n]);
      var before := set i | 0 <= i < n && us[..n][i].opcode.Store?;
      var now := set i | 0 <= i < |us| && us[i].opcode.Store?;
      assert now - {n} == before;
    }
  }

  /** The sums over a block do not depend on the end marks. */
  lemma {:induction false} SameSums(a: seq<TransOp>, b: seq<TransOp>)
    requires |a| == |b|
    requires forall i | 0 <= i < |a| :: a[i].som == b[i].som && a[i].bytes == b[i].bytes
    ensures Insns(a) == Insns(b) && Bytes(a) == Bytes(b)
  {
    if a != [] {
      SameSums(a[..|a| - 1], b[..|b| - 1]);
    }
  }

  /** Added uops count as an instruction unless they are joined to one. */
  lemma {:induction false} PlacedSums(ops: seq<TransOp>, us: seq<Uop>, bytes: nat, join: bool, n: nat)
    requires us != [] && n <= |us|
    ensures var all := ops + Placement(us, |ops|, bytes, join)[..n];
            && Insns(all) == Insns(ops) + (if join || n == 0 then 0 else 1)
            && Bytes(all) == Bytes(ops) + (if join || n == 0 then 0 else bytes)
  {
    hide LastFlagSetter;
    var ps := Placement(us, |ops|, bytes, join);
    if n == 0 {
      assert ops + ps[..0] == ops;
    } else {
      PlacedSums(ops, us, bytes, join, n - 1);
      var all := ops + ps[..n];
      assert all[..|all| - 1] == ops + ps[..n - 1];
      assert all[|all| - 1] == Placed(us, n - 1, |ops|, bytes, join);
    }
  }

  lemma ExtendedSums(ops: seq<TransOp>, us: seq<Uop>, bytes: nat)
    requires us != []
    ensures Insns(Extended(ops, us, bytes)) == Insns(ops) + 1
    ensures Bytes(Extended(ops, us, bytes)) == Bytes(ops) + bytes
    ensures Uops(Extended(ops, us, bytes)) == Uops(ops) + us
  {
    hide LastFlagSetter;
    PlacedSums(ops, us, bytes, false, |us|);
    var ps := Placement(us, |ops|, bytes, false);
    assert ps[..|us|] == ps;
  }

  /** Joining uops to the last instruction changes neither the instructions nor their lengths. */
  lemma JoinedSums(ops: seq<TransOp>, us: seq<Uop>)
    requires LastStart(ops) >= 0 && us != []
    ensures Insns(Joined(ops, us)) == Insns(ops)
    ensures Bytes(Joined(ops, us)) == Bytes(ops)
    ensures Uops(Joined(ops, us)) == Uops(ops) + us
  {
    hide LastFlagSetter, LastStart, Placement;
    var rs, bytes := Reopened(ops), ops[LastStart(ops)].bytes;
    SameSums(rs, ops);
    PlacedSums(rs, us, bytes, true, |us|);
    JoinedUops(ops, rs, us, Placement(us, |ops|, bytes, true));
    UopsPlaced(us, |ops|, bytes, true);
  }

  lemma UopsPlaced(us: seq<Uop>, at: nat, bytes: nat, join: bool)
    ensures Uops(Placement(us, at, bytes, join)) == us
    ensures Placement(us, at, bytes, join)[..|us|] == Placement(us, at, bytes, join)
  {
    hide LastFlagSetter;
  }

  lemma JoinedUops(ops: seq<TransOp>, rs: seq<TransOp>, us: seq<Uop>, ps: seq<TransOp>)
    requires |rs| == |ops| && forall i | 0 <= i < |ops| :: rs[i].uop == ops[i].uop
    requires |ps| == |us|
    ensures Uops(rs + ps) == Uops(ops) + Uops(ps)
    ensures ps[..|us|] == ps
  {
  }
}
