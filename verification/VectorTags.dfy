/**
 Fully associative tags that are compared sixteen at a time: the tags are cut into bytes, the
 bytes of one rank are stored side by side, and a search combines byte-wise vector operations.
 */
module VectorMatching {
  import opened LittleEndian
  import opened Replacement

  const LANES: nat := 16

  // ---- Vector operations on sixteen bytes

  type Vector = v: seq<Byte> | |v| == 16 witness [0, 0, 0, 0, 0, 0, 0, 0, 0, 0, 0, 0, 0, 0, 0, 0]

  function Duplicate(b: Byte): Vector {
    seq(LANES, _ => b)
  }

  function CompareEqual(a: Vector, b: Vector): Vector {
    seq(LANES, k requires 0 <= k < LANES => if a[k] == b[k] then 255 else 0)
  }

  /** Bitwise conjunction of numbers of the given number of bits. */
  function BitAnd(a: nat, b: nat, bits: nat): (c: nat)
    ensures c <= b
  {
    if bits == 0 then 0 else a % 2 * (b % 2) + 2 * BitAnd(a / 2, b / 2, bits - 1)
  }

  function And(a: Vector, b: Vector): Vector {
    seq(LANES, k requires 0 <= k < LANES => BitAnd(a[k], b[k], 8))
  }

  function Distance(a: Byte, b: Byte): (n: nat)
    ensures n < 256
  {
    if a < b then b - a else a - b
  }

  /** The sum of the distances of eight lanes. */
  function Distances(a: Vector, b: Vector, from: nat): (n: nat)
    requires from + 8 <= LANES
    ensures n < 0x10000
  {
    Distance(a[from], b[from]) + Distance(a[from + 1], b[from + 1])
    + Distance(a[from + 2], b[from + 2]) + Distance(a[from + 3], b[from + 3])
    + Distance(a[from + 4], b[from + 4]) + Distance(a[from + 5], b[from + 5])
    + Distance(a[from + 6], b[from + 6]) + Distance(a[from + 7], b[from + 7])
  }

  /** The sums of absolute differences of both halves, each as the first 16-bit word of its half. */
  function SumOfDifferences(a: Vector, b: Vector): Vector {
    var lo, hi := Distances(a, b, 0), Distances(a, b, 8);
    [lo % 256, lo / 256, 0, 0, 0, 0, 0, 0, hi % 256, hi / 256, 0, 0, 0, 0, 0, 0]
  }

  function Word(a: Vector, i: nat): nat
    requires i < 8
  {
    a[2 * i] as nat + 256 * (a[2 * i + 1] as nat)
  }

  /** The numbers of the lanes of a chunk, counted from one, in a byte each. */
  function LaneNumbers(chunk: nat): Vector {
    seq(LANES, k requires 0 <= k < LANES => (LANES * chunk + k + 1) % 256)
  }

  lemma MaskedByte(b: Byte)
    ensures BitAnd(0, b, 8) == 0 && BitAnd(255, b, 8) == b
  {
    MaskedBits(b, 8, 256);
  }

  lemma MaskedBits(b: nat, bits: nat, limit: nat)
    requires b < limit && limit == Power(bits)
    ensures BitAnd(0, b, bits) == 0 && BitAnd(limit - 1, b, bits) == b
  {
    if bits > 0 {
      assert (limit - 1) / 2 == Power(bits - 1) - 1;
      MaskedBits(b / 2, bits - 1, Power(bits - 1));
    }
  }

  function Power(bits: nat): (p: nat)
    ensures 0 < p
  {
    if bits == 0 then 1 else 2 * Power(bits - 1)
  }

  const ZERO: Vector := Duplicate(0)

  /** A running sum: only the first byte of each half can be set. */
  ghost predicate IsSum(a: Vector) {
    forall k | 0 <= k < LANES && k != 0 && k != 8 :: a[k] == 0
  }

  ghost predicate AllZero(a: Vector) {
    forall k | 0 <= k < LANES :: a[k] == 0
  }

  lemma SumNothing(sum: Vector, eq: Vector)
    requires IsSum(sum) && AllZero(eq)
    ensures SumOfDifferences(sum, eq) == sum
  {
    assert Distances(sum, eq, 0) == sum[0];
    assert Distances(sum, eq, 8) == sum[8];
  }

  lemma SumOne(sum: Vector, eq: Vector, lane: nat)
    requires AllZero(sum) && lane < LANES && forall k | 0 <= k < LANES && k != lane :: eq[k] == 0
    ensures IsSum(SumOfDifferences(sum, eq))
    ensures Word(SumOfDifferences(sum, eq), 0) + Word(SumOfDifferences(sum, eq), 4) == eq[lane]
  {
    assert Distances(sum, eq, 0) == if lane < 8 then eq[lane] else 0;
    assert Distances(sum, eq, 8) == if lane < 8 then 0 else eq[lane];
  }

  lemma SumWords(sum: Vector)
    requires IsSum(sum)
    ensures Word(sum, 0) + Word(sum, 4) == 0 <==> AllZero(sum)
  {
  }

  // ---- Slices

  /** A slot's tag matches when all its bytes do. */
  ghost predicate SlotMatches(column: seq<Byte>, target: seq<Byte>, upTo: nat)
    requires upTo <= |column| == |target|
  {
    forall j | 0 <= j < upTo :: column[j] == target[j]
  }

  lemma AllBytesMatch(column: seq<Byte>, target: seq<Byte>)
    requires |column| == |target|
    ensures SlotMatches(column, target, |column|) <==> column == target
  {
  }

  function AllOnes(slices: nat): (bs: seq<Byte>)
    ensures |bs| == slices
  {
    seq(slices, _ => 255)
  }

  lemma InvalidBytes(n: nat, slices: nat)
    requires n == Limit(slices) - 1
    ensures Encode(n, slices) == AllOnes(slices)
  {
    if slices > 0 {
      InvalidBytes(n / 256, slices - 1);
      assert Encode(n, slices) == [n % 256] + AllOnes(slices - 1);
    }
  }

  /** Cutting to fewer bytes. */
  lemma FewerBytes(n: nat, k: nat, more: nat)
    requires k <= more
    ensures Encode(n, more)[..k] == Encode(n, k)
  {
    if k > 0 {
      FewerBytes(n / 256, k - 1, more - 1);
      assert Encode(n, more)[..k] == [n % 256] + Encode(n / 256, more - 1)[..k - 1];
    }
  }

  lemma InvalidIsAllOnes(slices: nat)
    requires slices <= 8
    ensures Encode(INVALID, slices) == AllOnes(slices)
  {
    assert Limit(8) == INVALID + 1 by {
      assert Limit(4) == 0x1_0000_0000;
      assert Limit(5) == 256 * Limit(4);
      assert Limit(6) == 256 * Limit(5);
      assert Limit(7) == 256 * Limit(6);
    }
    InvalidBytes(INVALID, 8);
    FewerBytes(INVALID, slices, 8);
    assert AllOnes(8)[..slices] == AllOnes(slices);
  }

  /** Distinct tags that fit differ in some byte. */
  lemma EncodeInjective(a: nat, b: nat, k: nat)
    requires a < Limit(k) && b < Limit(k) && Encode(a, k) == Encode(b, k)
    ensures a == b
  {
    DecodeEncode(a, k);
    DecodeEncode(b, k);
  }

  /** Every tag but the invalid one is in at most one slot. */
  ghost predicate UniqueTags(tags: seq<nat>, slices: nat) {
    forall l, m | 0 <= l < m < |tags| && Encode(tags[l], slices) == Encode(tags[m], slices) ::
      Encode(tags[l], slices) == AllOnes(slices)
  }

  /** The marks after a slot was used: when that would set all marks, the others are cleared. */
  function Used(marks: seq<bool>, way: nat): (r: seq<bool>)
    requires way < |marks|
    ensures |r| == |marks| && r[way]
  {
    var r := marks[way := true];
    if AllSet(r) then seq(|marks|, k => k == way) else r
  }

  /** Of several slots one is always left unmarked, and marks are only cleared when there would be none. */
  lemma UsedLeavesRoom(marks: seq<bool>, way: nat)
    requires way < |marks|
    ensures |marks| > 1 ==> !AllSet(Used(marks, way))
    ensures (exists k :: 0 <= k < |marks| && k != way && !marks[k]) ==>
              forall k | 0 <= k < |marks| && k != way :: Used(marks, way)[k] == marks[k]
  {
    var r := marks[way := true];
    if k :| 0 <= k < |marks| && k != way && !marks[k] {
      assert !r[k];
    }
    if |marks| > 1 && AllSet(r) {
      assert !Used(marks, way)[if way == 0 then 1 else 0];
    }
  }

  /** Marking a slot again changes nothing, also when all marks were cleared in between to make room for its use. */
  lemma UsedAgain(marks: seq<bool>, way: nat)
    requires way < |marks|
    ensures Used(Used(marks, way), way) == Used(marks, way)
    ensures way == FirstClear(marks) ==>
              var cleared := if AllSet(marks) then seq(|marks|, _ => false) else marks;
              Used(cleared[way := true], way) == Used(marks, way)
  {
    hide FirstClear;
    var only := seq(|marks|, k => k == way);
    assert only[way := true] == only;
    assert AllSet(only) ==> |marks| == 1 && only == [true] by {
      if |marks| > 1 {
        assert !only[if way == 0 then 1 else 0];
      }
    }
    var none: seq<bool> := seq(|marks|, _ => false);
    assert none[way := true] == only;
    assert marks[way := true][way := true] == marks[way := true];
  }

  class VectorTags {
    const slices: nat
    const size: nat
    const plane: array2<Byte>  // the bytes of one rank of all slots, padded to whole vectors
    const mirror: array<nat>   // the tags, for scalar access
    var recent: seq<bool>      // the slots used since these marks were last cleared

    ghost predicate Shape() {
      && 0 < size < 256 && 0 < slices <= 8
      && plane.Length0 == slices && plane.Length1 == LANES * ((size + LANES - 1) / LANES)
      && mirror.Length == size
    }

    /** The bytes of slot l. */
    ghost function Column(l: nat): (c: seq<Byte>)
      requires Shape() && l < plane.Length1
      reads plane
      ensures |c| == slices
    {
      seq(slices, j requires 0 <= j < slices && Shape() reads plane => plane[j, l])
    }

    /** Slot l has the bytes of its tag; the padding has those of the invalid tag. */
    ghost predicate Agrees(l: nat)
      requires Shape() && l < plane.Length1
      reads plane, mirror
    {
      Column(l) == if l < size then Encode(mirror[l], slices) else AllOnes(slices)
    }

    /** The bytes agree with the scalar tags, and the tags are unique. */
    ghost predicate Stored()
      reads plane, mirror
    {
      && Shape()
      && (forall l: nat {:trigger Agrees(l)} | l < plane.Length1 :: Agrees(l))
      && UniqueTags(mirror[..], slices)
    }

    ghost predicate Valid()
      reads this, plane, mirror
    {
      Stored() && |recent| == size
    }

    /** The vector of byte rank j of the given chunk. */
    function Slice(j: nat, chunk: nat): (v: Vector)
      requires Shape() && j < slices && LANES * chunk + LANES <= plane.Length1
      reads plane
    {
      seq(LANES, k requires 0 <= k < LANES && Shape() && j < slices && LANES * chunk + LANES <= plane.Length1
            reads plane => plane[j, LANES * chunk + k])
    }

    constructor (size: nat, width: nat)
      requires 0 < size < 256 && 0 < width <= 64
      ensures Valid() && this.size == size && slices == (width + 7) / 8
      ensures fresh(plane) && fresh(mirror) && forall l | 0 <= l < size :: mirror[l] == INVALID
    {
      this.size := size;
      slices := (width + 7) / 8;
      plane := new Byte[(width + 7) / 8, LANES * ((size + LANES - 1) / LANES)]((_, _) => 255);
      mirror := new nat[size](_ => INVALID);
      recent := seq(size, _ => false);
      new;
      InvalidIsAllOnes(slices);
      forall l: nat | l < plane.Length1
        ensures Agrees(l)
      {
        assert Column(l) == AllOnes(slices);
      }
    }

    // ---- Search

    /** The bytes of a tag, each in all lanes of a vector. */
    method Prepare(tag: nat) returns (target: seq<Vector>)
      requires Shape()
      ensures |target| == slices && forall j | 0 <= j < slices :: target[j] == Duplicate(Encode(tag, slices)[j])
    {
      hide Duplicate;
      target := [];
      var t := tag;
      while |target| < slices
        invariant |target| <= slices
        invariant Encode(t, slices - |target|) == Encode(tag, slices)[|target|..]
        invariant forall j | 0 <= j < |target| :: target[j] == Duplicate(Encode(tag, slices)[j])
      {
        target := target + [Duplicate(t % 256)];
        t := t / 256;
      }
    }

    ghost predicate Target(target: seq<Vector>, bytes: seq<Byte>) {
      |target| == |bytes| == slices && forall j | 0 <= j < slices :: target[j] == Duplicate(bytes[j])
    }

    ghost predicate LaneMatches(chunk: nat, k: nat, bytes: seq<Byte>)
      requires Shape() && LANES * chunk + LANES <= plane.Length1 && k < LANES
      reads plane
    {
      Column(LANES * chunk + k) == bytes
    }

    /** The lanes that match hold their numbers, the others zero. */
    ghost predicate Matched(eq: Vector, chunk: nat, bytes: seq<Byte>)
      requires Shape() && LANES * chunk + LANES <= plane.Length1
      reads plane
    {
      forall k: nat | k < LANES :: eq[k] == if LaneMatches(chunk, k, bytes) then LaneNumbers(chunk)[k] else 0
    }

    lemma OneSlice(j: nat, chunk: nat, b: Byte, eq: Vector, k: nat)
      requires Shape() && j < slices && LANES * chunk + LANES <= plane.Length1 && k < LANES
      ensures And(CompareEqual(Slice(j, chunk), Duplicate(b)), eq)[k]
           == if plane[j, LANES * chunk + k] == b then eq[k] else 0
    {
      hide BitAnd;
      MaskedByte(eq[k]);
    }

    /** What a chunk's lanes hold once the first j bytes were compared. */
    ghost predicate Compared(eq: Vector, chunk: nat, bytes: seq<Byte>, j: nat)
      requires Shape() && LANES * chunk + LANES <= plane.Length1 && j <= slices == |bytes|
      reads plane
    {
      forall k | 0 <= k < LANES ::
        eq[k] == if SlotMatches(Column(LANES * chunk + k), bytes, j) then LaneNumbers(chunk)[k] else 0
    }

    lemma NextSlice(eq: Vector, chunk: nat, bytes: seq<Byte>, j: nat, next: Vector)
      requires Shape() && LANES * chunk + LANES <= plane.Length1 && j < slices == |bytes|
      requires Compared(eq, chunk, bytes, j)
      requires next == And(CompareEqual(Slice(j, chunk), Duplicate(bytes[j])), eq)
      ensures Compared(next, chunk, bytes, j + 1)
    {
      hide And, CompareEqual, Duplicate, LaneNumbers;
      forall k | 0 <= k < LANES
        ensures next[k] == if SlotMatches(Column(LANES * chunk + k), bytes, j + 1) then LaneNumbers(chunk)[k] else 0
      {
        OneSlice(j, chunk, bytes[j], eq, k);
        assert Column(LANES * chunk + k)[j] == plane[j, LANES * chunk + k];
      }
    }

    /** The numbers of the matching lanes of a chunk; zero in the others. */
    method MatchChunk(target: seq<Vector>, chunk: nat, ghost bytes: seq<Byte>) returns (eq: Vector)
      requires Shape() && LANES * chunk + LANES <= plane.Length1 && Target(target, bytes)
      ensures Matched(eq, chunk, bytes)
    {
      hide And, CompareEqual, Duplicate, LaneNumbers, Column, Compared, Matched, Slice;
      eq := LaneNumbers(chunk);
      NoSlice(chunk, bytes);
      for j := 0 to slices
        invariant Compared(eq, chunk, bytes, j)
      {
        NextSlice(eq, chunk, bytes, j, And(CompareEqual(Slice(j, chunk), target[j]), eq));
        eq := And(CompareEqual(Slice(j, chunk), target[j]), eq);
      }
      AllSlices(eq, chunk, bytes);
    }

    lemma NoSlice(chunk: nat, bytes: seq<Byte>)
      requires Shape() && LANES * chunk + LANES <= plane.Length1 && slices == |bytes|
      ensures Compared(LaneNumbers(chunk), chunk, bytes, 0)
    {
      hide LaneNumbers;
    }

    lemma AllSlices(eq: Vector, chunk: nat, bytes: seq<Byte>)
      requires Shape() && LANES * chunk + LANES <= plane.Length1 && slices == |bytes|
      requires Compared(eq, chunk, bytes, slices)
      ensures Matched(eq, chunk, bytes)
    {
      hide LaneNumbers, Column;
      forall k: nat | k < LANES
        ensures SlotMatches(Column(LANES * chunk + k), bytes, slices) <==> LaneMatches(chunk, k, bytes)
      {
        AllBytesMatch(Column(LANES * chunk + k), bytes);
      }
    }

    /** At most one slot has the bytes of a tag other than the invalid one, and no padding has. */
    lemma OneSlot(bytes: seq<Byte>, l: nat, m: nat)
      requires Valid() && |bytes| == slices && bytes != AllOnes(slices)
      requires l < plane.Length1 && m < plane.Length1 && Column(l) == bytes && Column(m) == bytes
      ensures l == m < size
    {
      hide Column, AllOnes;
      assert Agrees(l) && Agrees(m);
      assert mirror[..][l] == mirror[l] && mirror[..][m] == mirror[m];
    }

    /** The sum after some chunks: the number of the matching slot if it is among them. */
    ghost predicate Summed(sum: Vector, chunk: nat, bytes: seq<Byte>)
      requires Shape() && LANES * chunk <= plane.Length1
      reads plane
    {
      && IsSum(sum)
      && (AllZero(sum) ==> forall l: nat | l < LANES * chunk :: Column(l) != bytes)
      && (!AllZero(sum) ==>
            var l := Word(sum, 0) + Word(sum, 4) - 1;
            l < LANES * chunk && Column(l) == bytes)
    }

    lemma NextChunk(sum: Vector, eq: Vector, chunk: nat, bytes: seq<Byte>)
      requires Valid() && |bytes| == slices && bytes != AllOnes(slices)
      requires LANES * chunk + LANES <= plane.Length1 && Summed(sum, chunk, bytes)
      requires Matched(eq, chunk, bytes)
      ensures Summed(SumOfDifferences(sum, eq), chunk + 1, bytes)
    {
      hide Column, SumOfDifferences, Word, AllOnes, UniqueTags;
      if k: nat :| k < LANES && LaneMatches(chunk, k, bytes) {
        var l := LANES * chunk + k;
        OneSlot(bytes, l, l);
        forall m: nat | m < LANES * chunk + LANES && m != l
          ensures Column(m) != bytes
        {
          if Column(m) == bytes {
            OneSlot(bytes, l, m);
          }
        }
        OthersAreZero(eq, chunk, bytes, k);
        SumWords(sum);
        SumOne(sum, eq, k);
        SumWords(SumOfDifferences(sum, eq));
      } else {
        SumNothing(sum, eq);
        NoLane(chunk, bytes);
      }
    }

    lemma OthersAreZero(eq: Vector, chunk: nat, bytes: seq<Byte>, k: nat)
      requires Shape() && LANES * chunk + LANES <= plane.Length1 && k < LANES && LANES * chunk + k < size
      requires Matched(eq, chunk, bytes) && LaneMatches(chunk, k, bytes)
      requires forall m: nat | m < LANES * chunk + LANES && m != LANES * chunk + k :: Column(m) != bytes
      ensures eq[k] == LANES * chunk + k + 1
      ensures forall m | 0 <= m < LANES && m != k :: eq[m] == 0
    {
      hide Column;
    }

    lemma NoLane(chunk: nat, bytes: seq<Byte>)
      requires Shape() && LANES * chunk + LANES <= plane.Length1
      requires forall k: nat | k < LANES :: !LaneMatches(chunk, k, bytes)
      ensures forall l: nat | LANES * chunk <= l < LANES * chunk + LANES :: Column(l) != bytes
    {
      hide Column;
      forall l: nat | LANES * chunk <= l < LANES * chunk + LANES
        ensures Column(l) != bytes
      {
        assert !LaneMatches(chunk, l - LANES * chunk, bytes);
      }
    }

    /** The slot whose tag has the same bytes as the target; -1 when there is none. */
    method Match(target: nat) returns (slot: int)
      requires Valid() && Encode(target, slices) != AllOnes(slices)
      ensures -1 <= slot < size
      ensures slot == -1 <==> forall l | 0 <= l < size :: Encode(mirror[l], slices) != Encode(target, slices)
      ensures slot != -1 ==> Encode(mirror[slot], slices) == Encode(target, slices)
    {
      hide Column, SumOfDifferences, Word, AllOnes, LaneNumbers, UniqueTags, Summed;
      ghost var bytes := Encode(target, slices);
      var targetSlices := Prepare(target);
      var sum := ZERO;
      NoChunk(bytes);
      var chunks := (size + LANES - 1) / LANES;
      for i := 0 to chunks
        invariant Summed(sum, i, bytes)
      {
        var eq := MatchChunk(targetSlices, i, bytes);
        NextChunk(sum, eq, i, bytes);
        sum := SumOfDifferences(sum, eq);
      }
      AllChunks(sum, bytes);
      slot := Word(sum, 0) + Word(sum, 4) - 1;
    }

    lemma NoChunk(bytes: seq<Byte>)
      requires Shape()
      ensures Summed(ZERO, 0, bytes)
    {
    }

    lemma AllChunks(sum: Vector, bytes: seq<Byte>)
      requires Valid() && |bytes| == slices && bytes != AllOnes(slices)
      requires Summed(sum, (size + LANES - 1) / LANES, bytes)
      ensures var slot := Word(sum, 0) + Word(sum, 4) - 1;
              && -1 <= slot < size
              && (slot == -1 <==> forall l | 0 <= l < size :: Encode(mirror[l], slices) != bytes)
              && (slot != -1 ==> Encode(mirror[slot], slices) == bytes)
    {
      hide Column, Word, AllOnes, UniqueTags, IsSum;
      SumWords(sum);
      forall l: nat | l < plane.Length1
        ensures Column(l) == bytes <==> l < size && Encode(mirror[l], slices) == bytes
      {
        assert Agrees(l);
      }
    }

    // ---- Changes

    /** No other slot holds the tag, unless it is invalid. */
    ghost predicate Absent(tag: nat, index: nat)
      requires Shape()
      reads mirror
    {
      forall l | 0 <= l < size && l != index :: Encode(mirror[l], slices) == Encode(tag, slices) ==>
        Encode(tag, slices) == AllOnes(slices)
    }

    /** Writes the tag of a slot, in all byte ranks and in the scalar copy, and marks the slot as used. */
    method Update(index: nat, tag: nat)
      requires Valid() && index < size && Absent(tag, index)
      modifies this`recent, plane, mirror
      ensures Valid() && mirror[..] == old(mirror[..])[index := tag]
      ensures recent == old(recent)[index := true]
    {
      hide AllOnes;
      var t := tag;
      for j := 0 to slices
        modifies plane
        invariant Encode(t, slices - j) == Encode(tag, slices)[j..]
        invariant forall i | 0 <= i < j :: plane[i, index] == Encode(tag, slices)[i]
        invariant forall i, l | 0 <= i < slices && 0 <= l < plane.Length1 && l != index :: plane[i, l] == old(plane[i, l])
      {
        plane[j, index] := t % 256;
        t := t / 256;
      }
      mirror[index] := tag;
      recent := recent[index := true];
      forall l: nat | l < plane.Length1
        ensures Agrees(l)
      {
        assert old(Agrees(l));
        if l == index {
          assert Column(l) == Encode(tag, slices);
        } else {
          assert Column(l) == old(Column(l));
        }
      }
      StillUnique(old(mirror[..]), index, tag);
    }

    lemma StillUnique(was: seq<nat>, index: nat, tag: nat)
      requires UniqueTags(was, slices) && index < |was|
      requires forall l | 0 <= l < |was| && l != index :: Encode(was[l], slices) == Encode(tag, slices) ==>
                 Encode(tag, slices) == AllOnes(slices)
      ensures UniqueTags(was[index := tag], slices)
    {
      hide AllOnes;
    }

    method InvalidateSlot(index: nat)
      requires Valid() && index < size
      modifies this`recent, plane, mirror
      ensures Valid() && mirror[..] == old(mirror[..])[index := INVALID]
    {
      hide AllOnes;
      InvalidIsAllOnes(slices);
      Update(index, INVALID);
    }

    /** Marks a slot as used; when that sets all marks, the others are cleared. */
    method Use(way: nat)
      requires |recent| == size && way < size
      modifies this`recent
      ensures recent == Used(old(recent), way)
    {
      recent := recent[way := true];
      if AllSet(recent) {
        recent := seq(size, _ => false);
        recent := recent[way := true];
      }
    }

    /** The search for a tag, which marks the slot found as used. */
    method Probe(target: nat) returns (way: int)
      requires Valid() && Encode(target, slices) != AllOnes(slices)
      modifies this`recent
      ensures Valid() && -1 <= way < size
      ensures way == -1 <==> forall l | 0 <= l < size :: Encode(mirror[l], slices) != Encode(target, slices)
      ensures way != -1 ==> Encode(mirror[way], slices) == Encode(target, slices)
      ensures recent == if way == -1 then old(recent) else Used(old(recent), way)
    {
      hide AllOnes, UniqueTags;
      way := Match(target);
      if way >= 0 {
        Use(way);
      }
    }

    /**
     Finds the slot of a tag, or puts the tag into the first slot not used since the marks were
     cleared (the first slot of all if every slot was), and tells what that slot held before.
     */
    method Select(target: nat, oldTag: nat) returns (way: nat, evicted: nat)
      requires Valid() && Encode(target, slices) != AllOnes(slices)
      modifies this`recent, plane, mirror
      ensures Valid() && way < size && Encode(mirror[way], slices) == Encode(target, slices)
      ensures (exists l :: 0 <= l < size && Encode(old(mirror[l]), slices) == Encode(target, slices)) ==>
                mirror[..] == old(mirror[..]) && evicted == oldTag
      ensures (forall l | 0 <= l < size :: Encode(old(mirror[l]), slices) != Encode(target, slices)) ==>
                && mirror[..] == old(mirror[..])[way := target] && evicted == old(mirror[way])
                && way == FirstClear(old(recent))
      ensures |old(recent)| == size && recent == Used(old(recent), way)
    {
      hide AllOnes, UniqueTags, Agrees, FirstClear, Used;
      evicted := oldTag;
      var found := Probe(target);
      if found < 0 {
        way := FirstClear(recent);
        if AllSet(recent) {
          recent := seq(size, _ => false);
        }
        evicted := mirror[way];
        Update(way, target);
      } else {
        way := found;
      }
      UsedAgain(old(recent), way);
      Use(way);
    }
  }

  // ---- Translation lookaside buffer

  const TLB_TAG_BITS: nat := 40
  const PAGE_ID_LIMIT: nat := 0x10_0000_0000 // 36 bits
  const ALL_ONES_THREAD: nat := 15

  /** The page number with the thread number above it. */
  function TlbTag(addr: nat, thread: nat): nat {
    addr / 4096 % PAGE_ID_LIMIT + thread * PAGE_ID_LIMIT
  }

  /** A page of one thread's address space. */
  datatype ThreadPage = ThreadPage(page: nat, thread: nat)

  function ThreadOf(tag: nat): nat {
    tag / PAGE_ID_LIMIT
  }

  lemma TagParts(addr: nat, thread: nat)
    ensures ThreadOf(TlbTag(addr, thread)) == thread
    ensures thread < ALL_ONES_THREAD ==> TlbTag(addr, thread) < ALL_ONES_THREAD * PAGE_ID_LIMIT
  {
  }

  /** Tags are the same exactly for the same page of the same thread. */
  lemma SameTag(a: nat, t: nat, b: nat, u: nat)
    ensures TlbTag(a, t) == TlbTag(b, u) <==> t == u && a / 4096 % PAGE_ID_LIMIT == b / 4096 % PAGE_ID_LIMIT
  {
    TagPage(a, t);
    TagPage(b, u);
  }

  lemma TagPage(addr: nat, thread: nat)
    ensures PageOfTag(TlbTag(addr, thread)) == ThreadPage(addr / 4096 % PAGE_ID_LIMIT, thread)
  {
  }

  ghost function PageOfTag(tag: nat): ThreadPage {
    ThreadPage(tag % PAGE_ID_LIMIT, ThreadOf(tag))
  }

  ghost function PagesOfTags(tags: set<nat>): set<ThreadPage> {
    set e | e in tags :: PageOfTag(e)
  }

  lemma DifferentPages(a: nat, b: nat)
    requires PageOfTag(a) == PageOfTag(b)
    ensures a == b
  {
  }

  lemma TagInPages(tags: set<nat>, e: nat)
    ensures e in tags <==> PageOfTag(e) in PagesOfTags(tags)
    ensures PagesOfTags(tags - {e}) == PagesOfTags(tags) - {PageOfTag(e)}
    ensures PagesOfTags(tags + {e}) == PagesOfTags(tags) + {PageOfTag(e)}
  {
    hide PageOfTag;
    forall x | PageOfTag(x) == PageOfTag(e)
      ensures x == e
    {
      DifferentPages(x, e);
    }
  }

  lemma PagesWithin(a: set<nat>, b: set<nat>)
    requires a <= b
    ensures PagesOfTags(a) <= PagesOfTags(b)
  {
  }

  /** There are as many pages as tags. */
  lemma {:induction false} PageCount(tags: set<nat>)
    ensures |PagesOfTags(tags)| == |tags|
  {
    hide PageOfTag;
    if e :| e in tags {
      TagInPages(tags, e);
      PageCount(tags - {e});
    } else {
      assert PagesOfTags(tags) == {};
    }
  }

  /** Dropping the tags of a thread drops its pages. */
  lemma PagesOfOthers(tags: set<nat>, rest: set<nat>, thread: nat)
    requires rest == set e | e in tags && ThreadOf(e) != thread
    ensures PagesOfTags(rest) == set p | p in PagesOfTags(tags) && p.thread != thread
    ensures |PagesOfTags(tags) - PagesOfTags(rest)| == |tags - rest|
  {
    hide ThreadOf;
    forall p | p in PagesOfTags(tags) && p.thread != thread
      ensures p in PagesOfTags(rest)
    {
      var e :| e in tags && PageOfTag(e) == p;
      assert e in rest;
    }
    PageCount(tags);
    PageCount(rest);
    PagesWithin(rest, tags);
  }

  lemma TlbTagsFit()
    ensures 16 * PAGE_ID_LIMIT == Limit(5)
  {
    assert Limit(4) == 0x1_0000_0000;
  }

  /** A tag that fits has its own bytes, and not those of the invalid tag. */
  lemma TagBytes(a: nat, b: nat)
    requires a < ALL_ONES_THREAD * PAGE_ID_LIMIT && (b < ALL_ONES_THREAD * PAGE_ID_LIMIT || b == INVALID)
    ensures Encode(a, 5) == Encode(b, 5) <==> a == b
    ensures Encode(a, 5) != AllOnes(5)
  {
    hide Encode, AllOnes;
    TlbTagsFit();
    InvalidIsAllOnes(5);
    InvalidBytes(Limit(5) - 1, 5);
    if Encode(a, 5) == AllOnes(5) {
      EncodeInjective(a, Limit(5) - 1, 5);
    }
    if b != INVALID && Encode(a, 5) == Encode(b, 5) {
      EncodeInjective(a, b, 5);
    }
  }

  /** The mask test that picks the tags of one thread. */
  function MaskedThread(tag: nat): nat {
    tag / PAGE_ID_LIMIT % 16
  }

  lemma MaskPicks(tag: nat, thread: nat)
    requires thread < ALL_ONES_THREAD && (tag < ALL_ONES_THREAD * PAGE_ID_LIMIT || tag == INVALID)
    ensures MaskedThread(tag) == thread <==> tag != INVALID && ThreadOf(tag) == thread
  {
  }

  /** The tags fit and none is there twice. */
  ghost predicate FitTags(ts: seq<nat>) {
    && UniqueTags(ts, 5)
    && forall l | 0 <= l < |ts| :: ts[l] < ALL_ONES_THREAD * PAGE_ID_LIMIT || ts[l] == INVALID
  }

  ghost function TagSet(ts: seq<nat>): set<nat> {
    set l | 0 <= l < |ts| && ts[l] != INVALID :: ts[l]
  }

  predicate OfThread(tag: nat, thread: nat) {
    tag != INVALID && ThreadOf(tag) == thread
  }

  /** The tags after those of a thread were dropped from the first n slots. */
  ghost function FlushedTags(ts: seq<nat>, thread: nat, n: nat): (fs: seq<nat>)
    ensures |fs| == |ts|
  {
    seq(|ts|, l requires 0 <= l < |ts| => if l < n && OfThread(ts[l], thread) then INVALID else ts[l])
  }

  lemma TagsDiffer(ts: seq<nat>, l: nat, m: nat)
    requires FitTags(ts) && l < |ts| && m < |ts| && l != m && ts[l] != INVALID
    ensures ts[l] != ts[m]
  {
    hide Encode, AllOnes;
    TagBytes(ts[l], ts[m]);
  }

  lemma NothingFlushed(ts: seq<nat>, thread: nat)
    ensures FlushedTags(ts, thread, 0) == ts && TagSet(ts) - TagSet(ts) == {}
  {
  }

  lemma DropTag(ts: seq<nat>, n: nat)
    requires n < |ts| && ts[n] != INVALID && forall m: nat | m < |ts| && m != n :: ts[m] != ts[n]
    ensures TagSet(ts[n := INVALID]) == TagSet(ts) - {ts[n]}
  {
    var now := ts[n := INVALID];
    forall e
      ensures e in TagSet(now) <==> e in TagSet(ts) && e != ts[n]
    {
      if e in TagSet(ts) && e != ts[n] {
        var l :| 0 <= l < |ts| && ts[l] != INVALID && ts[l] == e;
        assert now[l] == e;
      }
      if e in TagSet(now) {
        var l :| 0 <= l < |now| && now[l] != INVALID && now[l] == e;
        assert ts[l] == e;
      }
    }
  }

  /** Slot n loses its tag if that is of the thread; no other slot has the same tag. */
  lemma FlushNext(ts: seq<nat>, thread: nat, n: nat)
    requires FitTags(ts) && n < |ts|
    ensures FlushedTags(ts, thread, n)[n] == ts[n]
    ensures FlushedTags(ts, thread, n + 1)
         == if OfThread(ts[n], thread) then FlushedTags(ts, thread, n)[n := INVALID] else FlushedTags(ts, thread, n)
    ensures |TagSet(ts) - TagSet(FlushedTags(ts, thread, n + 1))|
         == |TagSet(ts) - TagSet(FlushedTags(ts, thread, n))| + if OfThread(ts[n], thread) then 1 else 0
  {
    hide FitTags, ThreadOf;
    var was, now := FlushedTags(ts, thread, n), FlushedTags(ts, thread, n + 1);
    if OfThread(ts[n], thread) {
      assert now == was[n := INVALID];
      forall m: nat | m < |ts| && m != n
        ensures was[m] != was[n]
      {
        TagsDiffer(ts, n, m);
      }
      DropTag(was, n);
      assert ts[n] in TagSet(ts);
      assert TagSet(ts) - TagSet(now) == TagSet(ts) - TagSet(was) + {ts[n]};
    } else {
      assert now == was;
    }
  }

  lemma AllFlushed(ts: seq<nat>, thread: nat)
    ensures TagSet(FlushedTags(ts, thread, |ts|)) == set e | e in TagSet(ts) && ThreadOf(e) != thread
  {
    hide ThreadOf;
    var fs := FlushedTags(ts, thread, |ts|);
    forall e
      ensures e in TagSet(fs) <==> e in TagSet(ts) && ThreadOf(e) != thread
    {
      if e in TagSet(ts) && ThreadOf(e) != thread {
        var l :| 0 <= l < |ts| && ts[l] != INVALID && ts[l] == e;
        assert fs[l] == e;
      }
      if e in TagSet(fs) {
        var l :| 0 <= l < |fs| && fs[l] != INVALID && fs[l] == e;
        assert ts[l] == e;
      }
    }
  }

  class TranslationLookasideBuffer {
    const tags: VectorTags

    /** The slots hold tags of the threads below the all-ones one, or are invalid. */
    ghost predicate Valid()
      reads tags, tags.plane, tags.mirror
    {
      && tags.Valid() && tags.slices == 5
      && forall l | 0 <= l < tags.size :: tags.mirror[l] < ALL_ONES_THREAD * PAGE_ID_LIMIT || tags.mirror[l] == INVALID
    }

    /** The tags held. */
    ghost function Entries(): (s: set<nat>)
      requires Valid()
      reads tags, tags.plane, tags.mirror
    {
      set l | 0 <= l < tags.size && tags.mirror[l] != INVALID :: tags.mirror[l]
    }

    /** The pages held. */
    ghost function Pages(): set<ThreadPage>
      requires Valid()
      reads tags, tags.plane, tags.mirror
    {
      PagesOfTags(Entries())
    }

    constructor (size: nat)
      requires 0 < size < 256
      ensures Valid() && Entries() == {} && Pages() == {} && tags.size == size
      ensures fresh(tags) && fresh(tags.plane) && fresh(tags.mirror)
    {
      tags := new VectorTags(size, TLB_TAG_BITS);
    }

    lemma Held(tag: nat)
      requires Valid() && tag < ALL_ONES_THREAD * PAGE_ID_LIMIT
      ensures Encode(tag, 5) != AllOnes(5)
      ensures forall l | 0 <= l < tags.size :: Encode(tags.mirror[l], 5) == Encode(tag, 5) <==> tags.mirror[l] == tag
      ensures tag in Entries() <==> exists l :: 0 <= l < tags.size && tags.mirror[l] == tag
    {
      hide Encode, AllOnes, UniqueTags, VectorTags.Agrees;
      TagBytes(tag, tag);
      forall l | 0 <= l < tags.size
        ensures Encode(tags.mirror[l], 5) == Encode(tag, 5) <==> tags.mirror[l] == tag
      {
        TagBytes(tag, tags.mirror[l]);
      }
    }

    /** Tells whether the page of an address is held for a thread. */
    method Probe(addr: nat, thread: nat) returns (hit: bool)
      requires Valid() && thread < ALL_ONES_THREAD
      modifies tags`recent
      ensures Valid() && Pages() == old(Pages())
      ensures hit <==> ThreadPage(addr / 4096 % PAGE_ID_LIMIT, thread) in Pages()
    {
      TagPage(addr, thread);
      TagInPages(Entries(), TlbTag(addr, thread));
      hide Encode, AllOnes, TlbTag, UniqueTags, VectorTags.Agrees, PageOfTag;
      TagParts(addr, thread);
      Held(TlbTag(addr, thread));
      var way := tags.Probe(TlbTag(addr, thread));
      hit := way >= 0;
    }

    /** Enters a page for a thread, in place of at most one other page. */
    method Insert(addr: nat, thread: nat)
      requires Valid() && thread < ALL_ONES_THREAD
      modifies tags`recent, tags.plane, tags.mirror
      ensures Valid() && ThreadPage(addr / 4096 % PAGE_ID_LIMIT, thread) in Pages()
      ensures Pages() <= old(Pages()) + {ThreadPage(addr / 4096 % PAGE_ID_LIMIT, thread)}
      ensures exists evicted :: old(Pages()) <= Pages() + {evicted}
      ensures ThreadPage(addr / 4096 % PAGE_ID_LIMIT, thread) in old(Pages()) ==> Pages() == old(Pages())
    {
      TagPage(addr, thread);
      TagInPages(Entries(), TlbTag(addr, thread));
      hide Encode, AllOnes, TlbTag, UniqueTags, VectorTags.Agrees, PageOfTag, PagesOfTags;
      var tag := TlbTag(addr, thread);
      TagParts(addr, thread);
      Held(tag);
      var way, evicted := tags.Select(tag, INVALID);
      Held(tag);
      ghost var was, now := old(tags.mirror[..]), tags.mirror[..];
      forall l | 0 <= l < tags.size
        ensures tags.mirror[l] == now[l] && old(tags.mirror[l]) == was[l]
      {
      }
      PagesWithin(old(Entries()), Entries() + {was[way]});
      TagInPages(Entries(), was[way]);
      PagesWithin(Entries(), old(Entries()) + {tag});
      TagInPages(Entries(), tag);
    }

    lemma Tags()
      requires Valid()
      ensures FitTags(tags.mirror[..]) && Entries() == TagSet(tags.mirror[..])
    {
      hide Encode, AllOnes, VectorTags.Agrees;
    }

    /** Drops all pages of a thread and tells how many there were. */
    method FlushThread(thread: nat) returns (n: nat)
      requires Valid() && thread < ALL_ONES_THREAD
      modifies tags`recent, tags.plane, tags.mirror
      ensures Valid() && Pages() == set p | p in old(Pages()) && p.thread != thread
      ensures n == |old(Pages()) - Pages()|
    {
      hide Encode, AllOnes, UniqueTags, VectorTags.Agrees, MaskedThread, ThreadOf, TagSet, FlushedTags, FitTags;
      n := 0;
      Tags();
      ghost var was := tags.mirror[..];
      NothingFlushed(was, thread);
      for i := 0 to tags.size
        invariant Valid()
        invariant tags.mirror[..] == FlushedTags(was, thread, i)
        invariant n == |TagSet(was) - TagSet(FlushedTags(was, thread, i))|
      {
        FlushNext(was, thread, i);
        assert tags.mirror[i] == tags.mirror[..][i];
        MaskPicks(tags.mirror[i], thread);
        if MaskedThread(tags.mirror[i]) == thread {
          tags.InvalidateSlot(i);
          n := n + 1;
          forall l | 0 <= l < tags.size
            ensures tags.mirror[l] == FlushedTags(was, thread, i + 1)[l]
          {
            assert tags.mirror[l] == tags.mirror[..][l];
          }
        }
      }
      Tags();
      AllFlushed(was, thread);
      PagesOfOthers(TagSet(was), Entries(), thread);
    }

    /** After a flush, every probe of the thread misses, and probes of other threads give what they gave before. */
    method FlushThenProbe(thread: nat, addr: nat, other: nat) returns (hit: bool)
      requires Valid() && thread < ALL_ONES_THREAD && other < ALL_ONES_THREAD
      modifies tags`recent, tags.plane, tags.mirror
      ensures Valid() && (hit <==> other != thread && ThreadPage(addr / 4096 % PAGE_ID_LIMIT, other) in old(Pages()))
    {
      hide Valid, Pages;
      var n := FlushThread(thread);
      hit := Probe(addr, other);
    }

    /** Drops one page of one thread. */
    method FlushVirt(addr: nat, thread: nat) returns (n: nat)
      requires Valid() && thread < ALL_ONES_THREAD
      modifies tags`recent, tags.plane, tags.mirror
      ensures Valid() && Pages() == old(Pages()) - {ThreadPage(addr / 4096 % PAGE_ID_LIMIT, thread)}
      ensures n == if ThreadPage(addr / 4096 % PAGE_ID_LIMIT, thread) in old(Pages()) then 1 else 0
    {
      TagPage(addr, thread);
      TagInPages(Entries(), TlbTag(addr, thread));
      hide Encode, AllOnes, TlbTag, VectorTags.Agrees, PageOfTag, PagesOfTags;
      var tag := TlbTag(addr, thread);
      TagParts(addr, thread);
      Held(tag);
      var way := tags.Match(tag);
      if way < 0 {
        return 0;
      }
      ghost var was := tags.mirror[..];
      tags.InvalidateSlot(way);
      forall l | 0 <= l < tags.size
        ensures tags.mirror[l] == if l == way then INVALID else was[l]
      {
        assert tags.mirror[l] == tags.mirror[..][l];
      }
      return 1;
    }
  }
}
