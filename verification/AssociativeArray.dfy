/**
 Set-associative arrays. The search of a set adds up the numbers of all matching ways without
 branching, which finds the way exactly when at most one matches.
 */
module AssociativeArrays {
  import opened Replacement

  /** The sum of the numbers, counted from one, of the matching ways. */
  function MatchSum(tags: seq<nat>, target: nat): nat {
    if tags == [] then 0
    else MatchSum(tags[..|tags| - 1], target) + if tags[|tags| - 1] == target then |tags| else 0
  }

  /** The way found is one that matches, and none is found only if none matches. */
  ghost predicate IsLookup(tags: seq<nat>, target: nat, way: int) {
    if way == -1 then target !in tags else 0 <= way < |tags| && tags[way] == target
  }

  ghost predicate MatchesOnce(tags: seq<nat>, target: nat) {
    forall i, j | 0 <= i < j < |tags| :: !(tags[i] == target && tags[j] == target)
  }

  /** The sum is at least the number of any matching way, and more if there are two. */
  lemma {:induction false} SumBounds(tags: seq<nat>, target: nat)
    ensures target !in tags ==> MatchSum(tags, target) == 0
    ensures forall i | 0 <= i < |tags| && tags[i] == target :: i + 1 <= MatchSum(tags, target)
    ensures forall i, j | 0 <= i < j < |tags| && tags[i] == target && tags[j] == target :: j + 1 < MatchSum(tags, target)
    ensures MatchesOnce(tags, target) && target in tags ==>
              1 <= MatchSum(tags, target) <= |tags| && tags[MatchSum(tags, target) - 1] == target
  {
    if tags != [] {
      var n := |tags| - 1;
      SumBounds(tags[..n], target);
      if tags[n] == target && MatchesOnce(tags, target) {
        assert target !in tags[..n];
      }
      forall i | 0 <= i < |tags| && tags[i] == target
        ensures i + 1 <= MatchSum(tags, target)
      {
        assert i < n ==> tags[..n][i] == target;
      }
      forall i, j | 0 <= i < j < |tags| && tags[i] == target && tags[j] == target
        ensures j + 1 < MatchSum(tags, target)
      {
        assert tags[..n][i] == target;
        assert j < n ==> tags[..n][j] == target;
      }
    }
  }

  /** Summing the numbers of the matching ways is a search exactly when at most one way matches. */
  lemma SumIsLookup(tags: seq<nat>, target: nat)
    ensures IsLookup(tags, target, MatchSum(tags, target) - 1) <==> MatchesOnce(tags, target)
  {
    SumBounds(tags, target);
    var way := MatchSum(tags, target) - 1;
    if IsLookup(tags, target, way) {
      forall i, j | 0 <= i < j < |tags| && tags[i] == target && tags[j] == target
        ensures j < way && tags[way] == target
      {
      }
    }
  }

  /** With two unused ways, the sum for the invalid tag can be the number of a way with another tag. */
  lemma InvalidFindsOther()
    ensures MatchSum([INVALID, INVALID, 5], INVALID) - 1 == 2
    ensures !IsLookup([INVALID, INVALID, 5], INVALID, 2)
  {
    var tags := [INVALID, INVALID, 5];
    assert tags[..2] == [INVALID, INVALID] && tags[..2][..1] == [INVALID] && [INVALID][..0] == [];
    assert MatchSum([INVALID], INVALID) == 1 && MatchSum([INVALID, INVALID], INVALID) == 3;
  }

  ghost predicate UniqueTags(tags: seq<nat>) {
    forall i, j | 0 <= i < j < |tags| && tags[i] == tags[j] :: tags[i] == INVALID
  }

  class FullyAssociativeTags {
    var tags: seq<nat>
    var evictmap: seq<bool> // the ways used since the marks were last cleared

    ghost predicate Valid()
      reads this
    {
      0 < |tags| == |evictmap| && UniqueTags(tags)
    }

    constructor (ways: nat)
      requires 0 < ways
      ensures Valid() && |tags| == ways && forall k | 0 <= k < ways :: tags[k] == INVALID
    {
      tags := seq(ways, _ => INVALID);
      evictmap := seq(ways, _ => false);
    }

    method Use(way: nat)
      requires way < |evictmap|
      modifies `evictmap
      ensures evictmap == old(evictmap)[way := true]
    {
      evictmap := evictmap[way := true];
    }

    /** The way that holds the tag; -1 when none does. */
    method Match(target: nat) returns (way: int)
      requires Valid()
      ensures way == MatchSum(tags, target) - 1
      ensures target != INVALID ==> IsLookup(tags, target, way)
    {
      SumIsLookup(tags, target);
      way := 0;
      for i := 0 to |tags|
        invariant way == MatchSum(tags[..i], target)
      {
        assert tags[..i + 1][..i] == tags[..i];
        way := way + if tags[i] == target then i + 1 else 0;
      }
      assert tags[..|tags|] == tags;
      way := way - 1;
    }

    method Probe(target: nat) returns (way: int)
      requires Valid() && target != INVALID
      modifies `evictmap
      ensures Valid() && IsLookup(tags, target, way)
      ensures evictmap == if way == -1 then old(evictmap) else old(evictmap)[way := true]
    {
      way := Match(target);
      if way < 0 {
        return -1;
      }
      Use(way);
    }

    /**
     Finds the way of a tag, or gives the tag the first way not used since the marks were
     cleared. When all were used, the first way is taken and the marks are cleared.
     */
    method Select(target: nat, oldTag: nat) returns (way: nat, evicted: nat)
      requires Valid() && target != INVALID
      modifies this
      ensures Valid() && way < |tags| == |old(tags)| && evictmap[way]
      ensures target in old(tags) ==>
                tags == old(tags) && tags[way] == target && evicted == oldTag && evictmap == old(evictmap)[way := true]
      ensures target !in old(tags) ==> tags == old(tags)[way := target] && evicted == old(tags)[way]
      ensures target !in old(tags) && !AllSet(old(evictmap)) ==>
                && !old(evictmap)[way] && evictmap == old(evictmap)[way := true]
                && forall k | 0 <= k < way :: old(evictmap)[k]
      ensures target !in old(tags) && AllSet(old(evictmap)) ==>
                way == 0 && forall k | 0 <= k < |tags| :: evictmap[k] <==> k == 0
    {
      evicted := oldTag;
      var found := Probe(target);
      if found < 0 {
        way := FirstClear(evictmap);
        if AllSet(evictmap) {
          evictmap := seq(|tags|, _ => false);
        }
        evicted := tags[way];
        tags := tags[way := target];
      } else {
        way := found;
      }
      Use(way);
    }

    method InvalidateWay(way: nat)
      requires Valid() && way < |tags|
      modifies this
      ensures Valid() && tags == old(tags)[way := INVALID] && evictmap == old(evictmap)[way := false]
    {
      tags := tags[way := INVALID];
      evictmap := evictmap[way := false];
    }
  }

  /** The line under a tag has the given contents. */
  ghost predicate HasLine<V(!new)>(tags: seq<nat>, data: seq<V>, tag: nat, v: V) {
    tag != INVALID && exists k :: 0 <= k < |data| && k < |tags| && tags[k] == tag && data[k] == v
  }

  lemma FoundLine<V(!new)>(tags: seq<nat>, data: seq<V>, tag: nat, way: int)
    requires UniqueTags(tags) && |tags| == |data| && tag != INVALID && IsLookup(tags, tag, way)
    ensures way == -1 ==> forall v :: !HasLine(tags, data, tag, v)
    ensures way != -1 ==> forall v :: HasLine(tags, data, tag, v) <==> v == data[way]
  {
    forall v
      ensures HasLine(tags, data, tag, v) <==> way != -1 && v == data[way]
    {
      if HasLine(tags, data, tag, v) {
        var k :| 0 <= k < |data| && k < |tags| && tags[k] == tag && data[k] == v;
        assert k < way || k == way || way < k;
      }
    }
  }

  lemma NoLines<V(!new)>(tags: seq<nat>, data: seq<V>, tag: nat, v: V)
    requires forall t | t in tags :: t == INVALID
    ensures !HasLine(tags, data, tag, v)
  {
    assert forall k | 0 <= k < |tags| :: tags[k] in tags;
  }

  /** Putting a line into a way replaces the line that was there. */
  lemma ReplaceLine<V(!new)>(tags: seq<nat>, data: seq<V>, way: nat, tag: nat, v: V, t: nat, x: V)
    requires UniqueTags(tags) && |tags| == |data| && way < |tags| && tag != INVALID
    requires tag in tags ==> tags[way] == tag
    ensures UniqueTags(tags[way := tag])
    ensures HasLine(tags[way := tag], data[way := v], t, x)
       <==> if t == tag then x == v else t != tags[way] && HasLine(tags, data, t, x)
  {
    var tags', data' := tags[way := tag], data[way := v];
    assert tags'[way] == tag && data'[way] == v;
    if HasLine(tags', data', t, x) {
      var k :| 0 <= k < |data'| && k < |tags'| && tags'[k] == t && data'[k] == x;
      assert k != way ==> tags[k] == t && data[k] == x;
    }
    if t != tag && t != tags[way] && HasLine(tags, data, t, x) {
      var k :| 0 <= k < |data| && k < |tags| && tags[k] == t && data[k] == x;
      assert tags'[k] == t && data'[k] == x;
    }
  }

  lemma DropLine<V(!new)>(tags: seq<nat>, data: seq<V>, way: nat, blank: V, t: nat, x: V)
    requires UniqueTags(tags) && |tags| == |data| && way < |tags| && tags[way] != INVALID
    ensures UniqueTags(tags[way := INVALID])
    ensures HasLine(tags[way := INVALID], data[way := blank], t, x) <==> t != tags[way] && HasLine(tags, data, t, x)
  {
    var tags', data' := tags[way := INVALID], data[way := blank];
    if HasLine(tags', data', t, x) {
      var k :| 0 <= k < |data'| && k < |tags'| && tags'[k] == t && data'[k] == x;
      assert tags[k] == t && data[k] == x;
      assert k < way || way < k;
    }
    if t != tags[way] && HasLine(tags, data, t, x) {
      var k :| 0 <= k < |data| && k < |tags| && tags[k] == t && data[k] == x;
      assert tags'[k] == t && data'[k] == x;
    }
  }

  /** Lines of some kind of contents under their tags. */
  class FullyAssociativeArray<V(!new)> {
    const tags: FullyAssociativeTags
    const blank: V // the contents of a line after a reset
    var data: seq<V>

    ghost predicate Valid()
      reads this, tags
    {
      tags.Valid() && |data| == |tags.tags|
    }

    ghost predicate Has(tag: nat, v: V)
      reads this, tags
    {
      HasLine(tags.tags, data, tag, v)
    }

    constructor (ways: nat, blank: V)
      requires 0 < ways
      ensures Valid() && fresh(tags) && |data| == ways && forall k | 0 <= k < ways :: tags.tags[k] == INVALID
    {
      this.blank := blank;
      tags := new FullyAssociativeTags(ways);
      data := seq(ways, _ => blank);
    }

    /** The way of the line under a tag; -1 when there is none. */
    method Probe(tag: nat) returns (way: int)
      requires Valid() && tag != INVALID
      modifies tags`evictmap
      ensures Valid()
      ensures way == -1 ==> forall v :: !Has(tag, v)
      ensures way != -1 ==> 0 <= way < |data| && forall v :: Has(tag, v) <==> v == data[way]
    {
      hide HasLine;
      way := tags.Probe(tag);
      FoundLine(tags.tags, data, tag, way);
    }

    /** Finds or makes room for the line under a tag, and gives it the contents v. */
    method Store(tag: nat, v: V) returns (way: nat)
      requires Valid() && tag != INVALID
      modifies this, tags
      ensures Valid() && way < |old(tags.tags)|
      ensures tags.tags == old(tags.tags)[way := tag] && data == old(data)[way := v]
      ensures tag in old(tags.tags) ==> old(tags.tags)[way] == tag
      ensures forall t, x :: Has(t, x) <==> if t == tag then x == v else t != old(tags.tags)[way] && old(Has(t, x))
      ensures tag !in old(tags.tags) ==> !old(tags.evictmap)[way] || AllSet(old(tags.evictmap))
    {
      hide HasLine;
      ghost var was, lines := tags.tags, data;
      var evicted;
      way, evicted := tags.Select(tag, INVALID);
      data := data[way := v];
      assert tags.tags == was[way := tag];
      forall t, x
        ensures Has(t, x) <==> if t == tag then x == v else t != was[way] && HasLine(was, lines, t, x)
      {
        ReplaceLine(was, lines, way, tag, v, t, x);
      }
    }

    /** Drops the line under a tag. */
    method Invalidate(tag: nat) returns (way: int)
      requires Valid() && tag != INVALID
      modifies this, tags
      ensures Valid() && |data| == |old(data)|
      ensures forall t, x :: Has(t, x) <==> t != tag && old(Has(t, x))
      ensures forall t | t in tags.tags :: t == INVALID || t in old(tags.tags)
    {
      hide HasLine;
      way := tags.Probe(tag);
      FoundLine(tags.tags, data, tag, way);
      if way < 0 {
        return -1;
      }
      ghost var was, lines := tags.tags, data;
      tags.InvalidateWay(way);
      data := data[way := blank];
      forall t, x
        ensures Has(t, x) <==> t != tag && HasLine(was, lines, t, x)
      {
        DropLine(was, lines, way, blank, t, x);
      }
    }
  }

  function TagOf(addr: nat, lineSize: nat): nat
    requires 0 < lineSize
  {
    addr / lineSize * lineSize
  }

  function SetOf(addr: nat, lineSize: nat, sets: nat): (i: nat)
    requires 0 < lineSize && 0 < sets
    ensures i < sets
  {
    addr / lineSize % sets
  }

  /** The tag of an address is in the same line as the address, and at its start. */
  lemma TagOfTag(addr: nat, lineSize: nat, sets: nat)
    requires 0 < lineSize && 0 < sets
    ensures TagOf(addr, lineSize) <= addr
    ensures TagOf(TagOf(addr, lineSize), lineSize) == TagOf(addr, lineSize)
    ensures SetOf(TagOf(addr, lineSize), lineSize, sets) == SetOf(addr, lineSize, sets)
  {
    var line := addr / lineSize;
    var again := line * lineSize / lineSize;
    LinesApart(line, again, lineSize);
    LinesApart(again, line, lineSize);
  }

  lemma LinesApart(a: nat, b: nat, lineSize: nat)
    ensures a < b ==> a * lineSize + lineSize <= b * lineSize
  {
    if a < b {
      assert (a + 1) * lineSize <= b * lineSize;
    }
  }

  /** Two addresses have the same tag exactly when they are on the same line. */
  lemma SameLine(a: nat, b: nat, lineSize: nat)
    requires 0 < lineSize
    ensures TagOf(a, lineSize) == TagOf(b, lineSize) <==> a / lineSize == b / lineSize
  {
    LinesApart(a / lineSize, b / lineSize, lineSize);
    LinesApart(b / lineSize, a / lineSize, lineSize);
  }

  /** Lines that follow each other belong to sets that follow each other, round and round. */
  lemma NextLine(addr: nat, lineSize: nat, sets: nat)
    requires 0 < lineSize && 0 < sets
    ensures var i := SetOf(addr, lineSize, sets);
            SetOf(addr + lineSize, lineSize, sets) == if i + 1 == sets then 0 else i + 1
    ensures addr < lineSize ==> SetOf(addr, lineSize, sets) == 0
  {
    NextQuotient(addr, lineSize);
    NextRemainder(addr / lineSize, sets);
    RemainderOf(0, 0, sets);
  }

  lemma NextQuotient(x: nat, n: nat)
    requires 0 < n
    ensures (x + n) / n == x / n + 1
    ensures x < n ==> x / n == 0
  {
    LinesApart((x + n) / n, x / n + 1, n);
    LinesApart(x / n + 1, (x + n) / n, n);
  }

  lemma NextRemainder(x: nat, n: nat)
    requires 0 < n
    ensures (x + 1) % n == if x % n + 1 == n then 0 else x % n + 1
  {
    var q, r := x / n, x % n;
    assert x + 1 == q * n + (r + 1);
    if r + 1 == n {
      assert x + 1 == (q + 1) * n;
      RemainderOf(q + 1, 0, n);
    } else {
      RemainderOf(q, r + 1, n);
    }
  }

  lemma RemainderOf(q: nat, r: nat, n: nat)
    requires r < n
    ensures (q * n + r) % n == r
  {
    var x := q * n + r;
    LinesApart(q, x / n, n);
    LinesApart(x / n, q, n);
  }

  /** Sets of lines; an address belongs to the set that its line number selects. */
  class AssociativeArray<V(!new)> {
    const sets: seq<FullyAssociativeArray<V>>
    const lineSize: nat

    ghost predicate Shape() {
      && 0 < |sets| && 0 < lineSize
      && forall i, j | 0 <= i < j < |sets| :: sets[i] != sets[j] && sets[i].tags != sets[j].tags
    }

    /** The set is valid, and its tags are those of lines that belong to it. */
    ghost predicate SetValid(i: nat)
      requires Shape() && i < |sets|
      reads sets[i], sets[i].tags
    {
      && sets[i].Valid()
      && forall t | t in sets[i].tags.tags && t != INVALID ::
           SetOf(t, lineSize, |sets|) == i && TagOf(t, lineSize) == t
    }

    ghost function Repr(): set<object> {
      (set i | 0 <= i < |sets| :: sets[i]) + (set i | 0 <= i < |sets| :: sets[i].tags)
    }

    ghost predicate Valid()
      reads Repr()
    {
      Shape() && forall i: nat {:trigger SetValid(i)} | i < |sets| :: SetValid(i)
    }

    /** The line of an address has the given contents. */
    ghost predicate Has(addr: nat, v: V)
      requires Shape()
      reads Repr()
    {
      sets[SetOf(addr, lineSize, |sets|)].Has(TagOf(addr, lineSize), v)
    }

    constructor (setCount: nat, ways: nat, lineSize: nat, blank: V)
      requires 0 < setCount && 0 < ways && 0 < lineSize
      ensures Valid() && fresh(Repr()) && this.lineSize == lineSize && |sets| == setCount
      ensures forall addr, v :: !Has(addr, v)
    {
      var table := NewSets(setCount, ways, blank);
      sets := table;
      this.lineSize := lineSize;
      new;
      hide HasLine;
      forall addr: nat, v
        ensures !Has(addr, v)
      {
        NoLines(sets[SetOf(addr, lineSize, |sets|)].tags.tags, sets[SetOf(addr, lineSize, |sets|)].data, TagOf(addr, lineSize), v);
      }
    }

    static method NewSets(setCount: nat, ways: nat, blank: V) returns (table: seq<FullyAssociativeArray<V>>)
      requires 0 < ways
      ensures |table| == setCount
      ensures forall i | 0 <= i < |table| :: fresh(table[i]) && fresh(table[i].tags) && table[i].Valid()
      ensures forall i, t | 0 <= i < |table| && t in table[i].tags.tags :: t == INVALID
      ensures forall i, j | 0 <= i < j < |table| :: table[i] != table[j] && table[i].tags != table[j].tags
    {
      hide FullyAssociativeTags.Valid;
      table := [];
      for i := 0 to setCount
        invariant |table| == i
        invariant forall j | 0 <= j < i :: fresh(table[j]) && fresh(table[j].tags) && table[j].Valid()
        invariant forall j, t | 0 <= j < |table| && t in table[j].tags.tags :: t == INVALID
        invariant forall j, k | 0 <= j < k < i :: table[j] != table[k] && table[j].tags != table[k].tags
      {
        var lines := new FullyAssociativeArray<V>(ways, blank);
        assert forall t | t in lines.tags.tags :: t == INVALID;
        table := table + [lines];
      }
    }

    /** The contents of the line of an address, if it is there. */
    method Probe(addr: nat) returns (hit: bool, v: V)
      requires Valid() && addr < INVALID
      modifies set i | 0 <= i < |sets| :: sets[i].tags
      ensures Valid() && forall a, x :: Has(a, x) <==> old(Has(a, x))
      ensures hit ==> forall x :: Has(addr, x) <==> x == v
      ensures !hit ==> forall x :: !Has(addr, x)
    {
      hide HasLine, TagOf, SetOf;
      TagOfTag(addr, lineSize, |sets|);
      var i := SetOf(addr, lineSize, |sets|);
      assert SetValid(i);
      var way := sets[i].Probe(TagOf(addr, lineSize));
      forall j: nat | j < |sets|
        ensures SetValid(j) && sets[j].tags.tags == old(sets[j].tags.tags)
      {
        assert old(SetValid(j));
        assert j != i ==> sets[j].tags != sets[i].tags;
      }
      hit := way >= 0;
      v := if hit then sets[i].data[way] else sets[i].blank;
    }

    /**
     Finds or makes room for the line of an address and gives it the contents v. A line evicted
     for it was not used since the marks of the set were cleared, unless all its lines were.
     */
    method Store(addr: nat, v: V) returns (way: nat, ghost evicted: nat)
      requires Valid() && addr < INVALID
      modifies Repr()
      ensures Valid() && Has(addr, v)
      ensures var tags := sets[SetOf(addr, lineSize, |sets|)].tags;
              && way < |old(tags.tags)| == |old(tags.evictmap)| && evicted == old(tags.tags)[way]
              && (TagOf(addr, lineSize) !in old(tags.tags) ==> !old(tags.evictmap)[way] || AllSet(old(tags.evictmap)))
              && (TagOf(addr, lineSize) in old(tags.tags) ==> evicted == TagOf(addr, lineSize))
      ensures forall a, x | Has(a, x) :: if TagOf(a, lineSize) == TagOf(addr, lineSize) then x == v else old(Has(a, x))
      ensures forall a, x | TagOf(a, lineSize) != TagOf(addr, lineSize) && TagOf(a, lineSize) != evicted ::
                Has(a, x) <==> old(Has(a, x))
    {
      hide HasLine, TagOf, SetOf;
      TagOfTag(addr, lineSize, |sets|);
      var i, tag := SetOf(addr, lineSize, |sets|), TagOf(addr, lineSize);
      assert SetValid(i);
      way := sets[i].Store(tag, v);
      evicted := old(sets[i].tags.tags)[way];
      forall j: nat | j < |sets|
        ensures SetValid(j)
      {
        assert old(SetValid(j));
        assert j != i ==> sets[j].tags != sets[i].tags && sets[j] != sets[i];
      }
      forall a: nat, x
        ensures Has(a, x) <==>
          if TagOf(a, lineSize) == tag then x == v else
            old(Has(a, x)) && (SetOf(a, lineSize, |sets|) == i ==> TagOf(a, lineSize) != evicted)
      {
        var j := SetOf(a, lineSize, |sets|);
        TagOfTag(a, lineSize, |sets|);
        assert j != i ==> sets[j].tags != sets[i].tags && sets[j] != sets[i];
      }
    }

    /** Drops the line of an address. */
    method Invalidate(addr: nat)
      requires Valid() && addr < INVALID
      modifies Repr()
      ensures Valid() && forall a, x :: Has(a, x) <==> TagOf(a, lineSize) != TagOf(addr, lineSize) && old(Has(a, x))
    {
      hide HasLine, TagOf, SetOf;
      TagOfTag(addr, lineSize, |sets|);
      var i, tag := SetOf(addr, lineSize, |sets|), TagOf(addr, lineSize);
      assert SetValid(i);
      var way := sets[i].Invalidate(tag);
      forall j: nat | j < |sets|
        ensures SetValid(j)
      {
        assert old(SetValid(j));
        assert j != i ==> sets[j].tags != sets[i].tags && sets[j] != sets[i];
      }
      forall a: nat, x
        ensures Has(a, x) <==> TagOf(a, lineSize) != tag && old(Has(a, x))
      {
        var j := SetOf(a, lineSize, |sets|);
        TagOfTag(a, lineSize, |sets|);
        assert j != i ==> sets[j].tags != sets[i].tags && sets[j] != sets[i];
      }
    }
  }
}

/**
 The branch target buffer, a set-associative array of one-byte lines, keeps the targets of taken
 branches under the addresses after them.
 */
module BranchTargets {
  import opened AssociativeArrays
  import opened Replacement

  class BranchTargetBuffer {
    const lines: AssociativeArray<nat>
    ghost var latest: map<nat, nat> // the target of the latest taken update of each branch

    /** Whatever the buffer holds for a branch is its latest target. */
    ghost predicate Valid()
      reads this, lines.Repr()
    {
      && lines.Valid() && lines.lineSize == 1
      && forall a, x | lines.Has(a, x) :: a in latest && latest[a] == x
    }

    constructor (sets: nat, ways: nat)
      requires 0 < sets && 0 < ways
      ensures Valid() && latest == map[] && fresh(lines.Repr())
    {
      lines := new AssociativeArray<nat>(sets, ways, 1, 0);
      latest := map[];
    }

    /** The target of the latest taken update of a branch, unless it was evicted. */
    method Probe(addr: nat) returns (hit: bool, target: nat)
      requires Valid() && addr < INVALID
      modifies set i | 0 <= i < |lines.sets| :: lines.sets[i].tags
      ensures Valid()
      ensures hit ==> addr in latest && target == latest[addr]
      ensures hit <==> exists x :: old(lines.Has(addr, x))
    {
      hit, target := lines.Probe(addr);
      if hit {
        assert lines.Has(addr, target);
      }
    }

    /** An unconditional jump through a register is predicted by the buffer, else by the given target. */
    method PredictJump(addr: nat, target: nat) returns (predicted: nat)
      requires Valid() && addr < INVALID
      modifies set i | 0 <= i < |lines.sets| :: lines.sets[i].tags
      ensures Valid()
      ensures predicted == target || (addr in latest && predicted == latest[addr])
      ensures (forall x :: !old(lines.Has(addr, x))) ==> predicted == target
    {
      var hit, t := Probe(addr);
      predicted := if hit then t else target;
    }

    /** Enters a resolved branch if it was taken, and is not an indirect return. */
    method Update(indirect: bool, ret: bool, addr: nat, target: nat)
      requires Valid() && addr < INVALID
      modifies this, lines.Repr()
      ensures Valid()
      ensures (indirect && ret) || target == addr ==> latest == old(latest) && forall a, x :: lines.Has(a, x) <==> old(lines.Has(a, x))
      ensures !(indirect && ret) && target != addr ==> latest == old(latest)[addr := target] && lines.Has(addr, target)
    {
      if indirect && ret {
        return;
      }
      var taken := target != addr;
      if taken {
        var way, evicted := lines.Store(addr, target);
        latest := latest[addr := target];
      }
    }
  }
}
