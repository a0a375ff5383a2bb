/**
 The return address stack of the branch predictor. Calls and returns are entered when they are
 fetched and have to be undone, latest first, when they turn out to be on a wrong path.
 */
module ReturnAddressStacks {
  import opened FixedQueues

  datatype Entry = Entry(uuid: nat, rip: nat)

  /** Oldest entry first. */
  type Stack = seq<Entry>

  datatype Branch = Call(entry: Entry) | Return

  /** What a predicted branch remembers for undoing its change: the direction and the old slot contents. */
  datatype Record = Record(push: bool, was: Entry)

  const BOGUS := Entry(0, 0)

  function Pushed(s: Stack, x: Entry, capacity: nat): Stack
    requires 0 < capacity
  {
    (if |s| < capacity then s else s[1..]) + [x]
  }

  function Popped(s: Stack): Stack {
    if s == [] then s else s[..|s| - 1]
  }

  function Top(s: Stack): Entry {
    if s == [] then BOGUS else s[|s| - 1]
  }

  function Updated(s: Stack, b: Branch, capacity: nat): Stack
    requires 0 < capacity
  {
    match b
    case Call(x) => Pushed(s, x, capacity)
    case Return => Popped(s)
  }

  /** Undoing a push pops; undoing a pop puts the old entry back unless the stack is full. */
  function Annulled(s: Stack, r: Record, capacity: nat): Stack {
    if r.push then Popped(s)
    else if |s| >= capacity then s
    else s + [r.was]
  }

  /** The stack after a sequence of branches. */
  function After(s: Stack, bs: seq<Branch>, capacity: nat): Stack
    requires 0 < capacity
    decreases |bs|
  {
    if bs == [] then s else After(Updated(s, bs[0], capacity), bs[1..], capacity)
  }

  /** The records that the branches leave; those of calls may hold anything in the old slot. */
  ghost predicate Recorded(s: Stack, bs: seq<Branch>, rs: seq<Record>, capacity: nat)
    requires 0 < capacity
    decreases |bs|
  {
    && |bs| == |rs|
    && (bs != [] ==>
          && rs[0].push == bs[0].Call?
          && (bs[0].Return? ==> rs[0].was == Top(s))
          && Recorded(Updated(s, bs[0], capacity), bs[1..], rs[1..], capacity))
  }

  /** The stack after undoing all records, the last one first. */
  function Undone(s: Stack, rs: seq<Record>, capacity: nat): Stack {
    if rs == [] then s else Annulled(Undone(s, rs[1..], capacity), rs[0], capacity)
  }

  /** No return finds the stack empty. */
  ghost predicate NoUnderflow(s: Stack, bs: seq<Branch>, capacity: nat)
    requires 0 < capacity
    decreases |bs|
  {
    bs != [] ==> (bs[0].Return? ==> s != []) && NoUnderflow(Updated(s, bs[0], capacity), bs[1..], capacity)
  }

  /** The number of calls that find the stack full and drop its oldest entry. */
  ghost function Overflows(s: Stack, bs: seq<Branch>, capacity: nat): nat
    requires 0 < capacity
    decreases |bs|
  {
    if bs == [] then 0
    else (if bs[0].Call? && |s| >= capacity then 1 else 0) + Overflows(Updated(s, bs[0], capacity), bs[1..], capacity)
  }

  function Min(a: int, b: int): int {
    if a < b then a else b
  }

  /** The least call depth reached from the given depth. */
  ghost function Lowest(depth: int, bs: seq<Branch>): int
    decreases |bs|
  {
    if bs == [] then depth
    else Min(depth, Lowest(if bs[0].Call? then depth + 1 else depth - 1, bs[1..]))
  }

  lemma CallFrom(all: Stack, dropped: nat, x: Entry, capacity: nat)
    requires 0 < capacity && dropped <= |all|
    ensures Updated(all[dropped..], Call(x), capacity)
         == (all + [x])[if |all| - dropped < capacity then dropped else dropped + 1..]
  {
  }

  lemma ReturnFrom(all: Stack, dropped: nat, capacity: nat)
    requires 0 < capacity && dropped < |all|
    ensures Updated(all[dropped..], Return, capacity) == all[..|all| - 1][dropped..]
    ensures Top(all[dropped..]) == all[|all| - 1]
  {
  }

  /** Undoing a call: what is left of the unbounded stack loses its top. */
  lemma UndoCall(all: Stack, x: Entry, lost: nat, r: Record, capacity: nat)
    requires lost <= |all| + 1 && r.push
    ensures Annulled((all + [x])[lost..], r, capacity) == all[Min(lost, |all|)..]
  {
  }

  /** Undoing a return: the popped entry is put back, as the stack is not full. */
  lemma UndoReturn(all: Stack, lost: nat, r: Record, capacity: nat)
    requires lost < |all| && |all| - lost <= capacity && r == Record(false, all[|all| - 1])
    ensures Annulled(all[..|all| - 1][lost..], r, capacity) == all[lost..]
  {
  }

  /** What the first branch contributes to a sequence. */
  lemma FirstBranch(s: Stack, bs: seq<Branch>, rs: seq<Record>, depth: int, capacity: nat)
    requires 0 < capacity && bs != [] && Recorded(s, bs, rs, capacity) && NoUnderflow(s, bs, capacity)
    ensures |bs| == |rs|
    ensures var b, next, rest := bs[0], Updated(s, bs[0], capacity), bs[1..];
            && rs[0].push == b.Call? && (b.Return? ==> s != [] && rs[0].was == Top(s))
            && Recorded(next, rest, rs[1..], capacity) && NoUnderflow(next, rest, capacity)
            && Undone(After(s, bs, capacity), rs, capacity)
            == Annulled(Undone(After(next, rest, capacity), rs[1..], capacity), rs[0], capacity)
            && Overflows(s, bs, capacity) == (if b.Call? && |s| >= capacity then 1 else 0) + Overflows(next, rest, capacity)
            && Lowest(depth, bs) == Min(depth, Lowest(if b.Call? then depth + 1 else depth - 1, rest))
  {
    hide Updated, Annulled, Top;
  }

  lemma NoBranches(s: Stack, rs: seq<Record>, depth: int, capacity: nat)
    requires 0 < capacity && Recorded(s, [], rs, capacity)
    ensures Undone(After(s, [], capacity), rs, capacity) == s && Overflows(s, [], capacity) == 0 && Lowest(depth, []) == depth
  {
  }

  /**
   The stack holds the entries of an unbounded stack but for the dropped oldest ones. Undoing
   everything loses the entries dropped in between, unless the calls went below them.
   */
  lemma {:induction false} UndoUnbounded(all: Stack, dropped: nat, bs: seq<Branch>, rs: seq<Record>, capacity: nat)
    requires 0 < capacity && dropped <= |all| && |all| - dropped <= capacity
    requires NoUnderflow(all[dropped..], bs, capacity) && Recorded(all[dropped..], bs, rs, capacity)
    ensures var lost := Min(dropped + Overflows(all[dropped..], bs, capacity), Lowest(|all|, bs));
            && dropped <= lost <= |all|
            && Undone(After(all[dropped..], bs, capacity), rs, capacity) == all[lost..]
    decreases |bs|
  {
    hide Updated, Annulled, Top, Undone, After, Overflows, Lowest, Recorded, NoUnderflow;
    if bs == [] {
      NoBranches(all[dropped..], rs, |all|, capacity);
    } else {
      FirstBranch(all[dropped..], bs, rs, |all|, capacity);
      match bs[0] {
        case Call(x) =>
          var more, now := all + [x], if |all| - dropped < capacity then dropped else dropped + 1;
          CallFrom(all, dropped, x, capacity);
          UndoUnbounded(more, now, bs[1..], rs[1..], capacity);
          UndoCall(all, x, Min(now + Overflows(more[now..], bs[1..], capacity), Lowest(|more|, bs[1..])), rs[0], capacity);
        case Return =>
          var rest := all[..|all| - 1];
          ReturnFrom(all, dropped, capacity);
          UndoUnbounded(rest, dropped, bs[1..], rs[1..], capacity);
          UndoReturn(all, Min(dropped + Overflows(rest[dropped..], bs[1..], capacity), Lowest(|rest|, bs[1..])), rs[0], capacity);
      }
    }
  }

  /**
   Undoing a sequence of calls and returns that never underflowed leaves exactly a top portion of
   the original stack: all but as many of its oldest entries as were dropped by overflows, or as
   the calls never went below.
   */
  lemma UndoKeepsTop(s: Stack, bs: seq<Branch>, rs: seq<Record>, capacity: nat)
    requires 0 < capacity && |s| <= capacity
    requires NoUnderflow(s, bs, capacity) && Recorded(s, bs, rs, capacity)
    ensures 0 <= Min(Overflows(s, bs, capacity), Lowest(|s|, bs)) <= |s|
    ensures Undone(After(s, bs, capacity), rs, capacity) == s[Min(Overflows(s, bs, capacity), Lowest(|s|, bs))..]
  {
    assert s[0..] == s;
    UndoUnbounded(s, 0, bs, rs, capacity);
  }

  /** Undoing restores the stack exactly when nothing overflowed, or everything was returned from at some point. */
  lemma UndoRestores(s: Stack, bs: seq<Branch>, rs: seq<Record>, capacity: nat)
    requires 0 < capacity && |s| <= capacity
    requires NoUnderflow(s, bs, capacity) && Recorded(s, bs, rs, capacity)
    ensures Undone(After(s, bs, capacity), rs, capacity) == s
       <==> Overflows(s, bs, capacity) == 0 || Lowest(|s|, bs) == 0
  {
    UndoKeepsTop(s, bs, rs, capacity);
    var lost := Min(Overflows(s, bs, capacity), Lowest(|s|, bs));
    assert |s[lost..]| == |s| - lost;
  }

  /** The number of returns that find the stack empty. */
  ghost function Underflows(s: Stack, bs: seq<Branch>, capacity: nat): nat
    requires 0 < capacity
    decreases |bs|
  {
    if bs == [] then 0
    else (if bs[0].Return? && s == [] then 1 else 0) + Underflows(Updated(s, bs[0], capacity), bs[1..], capacity)
  }

  /** The greatest size the stack would reach without a limit. */
  ghost function Peak(size: nat, bs: seq<Branch>): nat
    decreases |bs|
  {
    if bs == [] then size
    else
      var after := Peak(if bs[0].Call? then size + 1 else if size == 0 then 0 else size - 1, bs[1..]);
      if after < size then size else after
  }

  function Bogus(n: nat): (s: Stack)
    ensures |s| == n
  {
    if n == 0 then [] else Bogus(n - 1) + [BOGUS]
  }

  /**
   While the stack has room, undoing leaves the original stack on top of one bogus entry for each
   return that underflowed.
   */
  lemma {:induction false} UnderflowsLeaveBogus(s: Stack, bs: seq<Branch>, rs: seq<Record>, capacity: nat)
    requires 0 < capacity && Recorded(s, bs, rs, capacity)
    requires Peak(|s|, bs) + Underflows(s, bs, capacity) <= capacity
    ensures Undone(After(s, bs, capacity), rs, capacity) == Bogus(Underflows(s, bs, capacity)) + s
    decreases |bs|
  {
    hide Updated, Annulled, Top;
    if bs == [] {
      assert Bogus(0) + s == s;
    } else {
      var next := Updated(s, bs[0], capacity);
      var bogus := Bogus(Underflows(next, bs[1..], capacity));
      PeakBounds(if bs[0].Call? then |s| + 1 else if |s| == 0 then 0 else |s| - 1, bs[1..]);
      match bs[0] {
        case Call(x) => RoomForCall(s, x, bogus, rs[0], capacity);
        case Return => RoomForReturn(s, bogus, rs[0], capacity);
      }
      UnderflowsLeaveBogus(next, bs[1..], rs[1..], capacity);
    }
  }

  lemma RoomForCall(s: Stack, x: Entry, bogus: Stack, r: Record, capacity: nat)
    requires |s| < capacity && r.push
    ensures |Updated(s, Call(x), capacity)| == |s| + 1
    ensures Annulled(bogus + Updated(s, Call(x), capacity), r, capacity) == bogus + s
  {
    assert (bogus + (s + [x]))[..|bogus| + |s|] == bogus + s;
  }

  /** Undoing a return puts back the popped entry, or a bogus one, which the stack did not have. */
  lemma RoomForReturn(s: Stack, bogus: Stack, r: Record, capacity: nat)
    requires 0 < capacity && r == Record(false, Top(s))
    ensures var next := Updated(s, Return, capacity);
            && |next| == (if s == [] then 0 else |s| - 1)
            && (|bogus| + |next| < capacity ==>
                  Annulled(bogus + next, r, capacity) == (if s == [] then bogus + [BOGUS] else bogus) + s)
  {
    if s == [] {
      assert bogus + [] == bogus && bogus + [BOGUS] + [] == bogus + [BOGUS];
    } else {
      assert bogus + s[..|s| - 1] + [s[|s| - 1]] == bogus + s;
    }
  }

  lemma PeakBounds(size: nat, bs: seq<Branch>)
    ensures size <= Peak(size, bs)
  {
  }

  /** With room for all calls and bogus entries, undoing restores the stack exactly when no return underflowed. */
  lemma UndoRestoresWithRoom(s: Stack, bs: seq<Branch>, rs: seq<Record>, capacity: nat)
    requires 0 < capacity && Recorded(s, bs, rs, capacity)
    requires Peak(|s|, bs) + Underflows(s, bs, capacity) <= capacity
    ensures Undone(After(s, bs, capacity), rs, capacity) == s <==> NoUnderflow(s, bs, capacity)
  {
    UnderflowsLeaveBogus(s, bs, rs, capacity);
    UnderflowsAre(s, bs, capacity);
    var bogus := Bogus(Underflows(s, bs, capacity));
    assert |bogus + s| == |bogus| + |s|;
    assert bogus == [] ==> bogus + s == s;
  }

  lemma {:induction false} UnderflowsAre(s: Stack, bs: seq<Branch>, capacity: nat)
    requires 0 < capacity
    ensures Underflows(s, bs, capacity) == 0 <==> NoUnderflow(s, bs, capacity)
    decreases |bs|
  {
    hide Updated;
    if bs != [] {
      UnderflowsAre(Updated(s, bs[0], capacity), bs[1..], capacity);
    }
  }

  // ---- Undoing with overflow and underflow

  /** The size of the stack after a branch. */
  function SizeAfter(size: nat, b: Branch, capacity: nat): nat {
    if b.Call? then (if size < capacity then size + 1 else capacity)
    else if size == 0 then 0 else size - 1
  }

  /** The size of the stack after branches were entered and undone, which the branches alone decide. */
  function SizeUndone(size: nat, bs: seq<Branch>, capacity: nat): nat
    decreases |bs|
  {
    if bs == [] then size
    else SizeAnnulled(SizeUndone(SizeAfter(size, bs[0], capacity), bs[1..], capacity), bs[0], capacity)
  }

  /** The size of the stack after a branch was undone. */
  function SizeAnnulled(size: nat, b: Branch, capacity: nat): nat {
    if b.Call? then (if size == 0 then 0 else size - 1)
    else if size < capacity then size + 1 else size
  }

  /** The branch finds the stack full, or a return finds it empty. */
  predicate Loses(size: nat, b: Branch, capacity: nat) {
    if b.Call? then size >= capacity else size == 0
  }

  /**
   Before anything is lost there is a moment when the stack is empty and will be empty again after
   undoing; or nothing is ever lost.
   */
  predicate Recovers(size: nat, bs: seq<Branch>, capacity: nat)
    decreases |bs|
  {
    || bs == []
    || (size == 0 && SizeUndone(0, bs, capacity) == 0)
    || (!Loses(size, bs[0], capacity) && Recovers(SizeAfter(size, bs[0], capacity), bs[1..], capacity))
  }

  lemma {:induction false} SizesUndone(s: Stack, bs: seq<Branch>, rs: seq<Record>, capacity: nat)
    requires 0 < capacity && |s| <= capacity && Recorded(s, bs, rs, capacity)
    ensures |Undone(After(s, bs, capacity), rs, capacity)| == SizeUndone(|s|, bs, capacity) <= capacity
    decreases |bs|
  {
    hide Top;
    if bs != [] {
      SizesUndone(Updated(s, bs[0], capacity), bs[1..], rs[1..], capacity);
    }
  }

  /** The entries that calls push. */
  ghost function Entries(bs: seq<Branch>): seq<Entry> {
    if bs == [] then [] else (if bs[0].Call? then [bs[0].entry] else []) + Entries(bs[1..])
  }

  /** Entries differ from each other and from the bogus one, as their numbers are not used twice. */
  ghost predicate Proper(es: seq<Entry>) {
    BOGUS !in es && forall i, j | 0 <= i < j < |es| :: es[i] != es[j]
  }

  /** Undoing brings up entries of the stack and of later calls only, and bogus ones. */
  lemma {:induction false} UndoneFrom(s: Stack, bs: seq<Branch>, rs: seq<Record>, capacity: nat, x: Entry)
    requires 0 < capacity && |s| <= capacity && Recorded(s, bs, rs, capacity)
    requires x in Undone(After(s, bs, capacity), rs, capacity)
    ensures x == BOGUS || x in s + Entries(bs)
    decreases |bs|
  {
    if bs != [] {
      var next := Updated(s, bs[0], capacity);
      var rest := Undone(After(next, bs[1..], capacity), rs[1..], capacity);
      if x in rest {
        UndoneFrom(next, bs[1..], rs[1..], capacity, x);
      }
    }
  }

  /** Two stacks that are not both empty, and differ at the bottom unless one is empty. */
  ghost predicate Apart(a: Stack, b: Stack) {
    if a == [] || b == [] then a != b else a[0] != b[0]
  }

  lemma ProperWithout(es: seq<Entry>, i: nat)
    requires Proper(es) && i < |es|
    ensures Proper(es[..i] + es[i + 1..]) && es[i] !in es[..i] + es[i + 1..]
  {
    var less := es[..i] + es[i + 1..];
    assert forall j | 0 <= j < |less| :: less[j] == es[if j < i then j else j + 1];
  }

  /** What a branch leaves of the entries on the stack and of the calls to come; the entry it takes is not among the rest. */
  lemma ProperTail(s: Stack, bs: seq<Branch>, capacity: nat)
    requires 0 < capacity && |s| <= capacity && bs != [] && Proper(s + Entries(bs))
    ensures var rest := Updated(s, bs[0], capacity) + Entries(bs[1..]);
            && Proper(rest)
            && (s != [] && bs[0].Call? && |s| >= capacity ==> s[0] !in rest)
            && (s != [] && bs[0].Return? ==> s[|s| - 1] !in rest)
  {
    hide Proper, Entries, Updated;
    RestOfEntries(s, bs, capacity);
    var all := s + Entries(bs);
    if bs[0].Call? && |s| >= capacity {
      ProperWithout(all, 0);
    } else if bs[0].Return? && s != [] {
      ProperWithout(all, |s| - 1);
    }
  }

  lemma RestOfEntries(s: Stack, bs: seq<Branch>, capacity: nat)
    requires 0 < capacity && |s| <= capacity && bs != []
    ensures var all, rest := s + Entries(bs), Updated(s, bs[0], capacity) + Entries(bs[1..]);
            match bs[0]
            case Call(_) => rest == if |s| >= capacity then all[..0] + all[1..] else all
            case Return => rest == if s != [] then all[..|s| - 1] + all[|s|..] else all
  {
    var tail := Entries(bs[1..]);
    match bs[0]
    case Call(x) =>
      assert Entries(bs) == [x] + tail;
      hide Entries;
      assert s + ([x] + tail) == s + [x] + tail;
      if |s| >= capacity {
        assert s[1..] + [x] + tail == (s + [x] + tail)[1..];
      }
    case Return =>
      assert Entries(bs) == [] + tail == tail;
      hide Entries;
      if s != [] {
        assert (s + tail)[..|s| - 1] == s[..|s| - 1] && (s + tail)[|s|..] == tail;
      }
  }

  /** Undoing a call that found room, or a return that found an entry, brings back what was there. */
  lemma UndoOne(s: Stack, b: Branch, r: Record, capacity: nat)
    requires 0 < capacity && |s| <= capacity && !Loses(|s|, b, capacity)
    requires r.push == b.Call? && (b.Return? ==> r.was == Top(s))
    ensures Annulled(Updated(s, b, capacity), r, capacity) == s
    ensures |Updated(s, b, capacity)| == SizeAfter(|s|, b, capacity)
  {
  }

  lemma {:induction false} RecoversRestores(s: Stack, bs: seq<Branch>, rs: seq<Record>, capacity: nat)
    requires 0 < capacity && |s| <= capacity && Recorded(s, bs, rs, capacity)
    requires Recovers(|s|, bs, capacity)
    ensures Undone(After(s, bs, capacity), rs, capacity) == s
    decreases |bs|
  {
    hide Updated, Annulled, Top;
    SizesUndone(s, bs, rs, capacity);
    if bs != [] && !(|s| == 0 && SizeUndone(0, bs, capacity) == 0) {
      UndoOne(s, bs[0], rs[0], capacity);
      RecoversRestores(Updated(s, bs[0], capacity), bs[1..], rs[1..], capacity);
    }
  }

  /** One step of undoing keeps stacks apart that are not both empty then. */
  lemma ApartBefore(s: Stack, b: Branch, rest: Stack, r: Record, capacity: nat)
    requires 0 < capacity && |s| <= capacity && !Loses(|s|, b, capacity) && Apart(Updated(s, b, capacity), rest)
    requires r.push == b.Call? && (b.Return? ==> r.was == Top(s))
    requires b.Return? ==> (|s| > 1 ==> s[0] != Top(s)) && (rest != [] ==> rest[0] != Top(s))
    requires s != [] || Annulled(rest, r, capacity) != []
    ensures Apart(s, Annulled(rest, r, capacity))
  {
  }

  lemma {:induction false} StaysApart(s: Stack, bs: seq<Branch>, rs: seq<Record>, capacity: nat)
    requires 0 < capacity && |s| <= capacity && Recorded(s, bs, rs, capacity)
    requires !Recovers(|s|, bs, capacity) && Proper(s + Entries(bs))
    ensures Apart(s, Undone(After(s, bs, capacity), rs, capacity))
    decreases |bs|
  {
    hide Updated, Annulled, Top, Proper, Entries, Apart;
    var b, next := bs[0], Updated(s, bs[0], capacity);
    var rest := Undone(After(next, bs[1..], capacity), rs[1..], capacity);
    var all := Undone(After(s, bs, capacity), rs, capacity);
    SizesUndone(s, bs, rs, capacity);
    ProperTail(s, bs, capacity);
    UpdatedSize(s, b, capacity);
    if Loses(|s|, b, capacity) {
      LostApart(s, bs, rs, capacity);
    } else {
      StaysApart(next, bs[1..], rs[1..], capacity);
      if b.Return? {
        if rest != [] {
          assert rest[0] in rest;
          UndoneFrom(next, bs[1..], rs[1..], capacity, rest[0]);
        }
        TopIsProper(s, bs);
      }
      ApartBefore(s, b, rest, rs[0], capacity);
    }
  }

  lemma UpdatedSize(s: Stack, b: Branch, capacity: nat)
    requires 0 < capacity && |s| <= capacity
    ensures |Updated(s, b, capacity)| == SizeAfter(|s|, b, capacity) <= capacity
  {
  }

  lemma TopIsProper(s: Stack, bs: seq<Branch>)
    requires Proper(s + Entries(bs)) && s != []
    ensures Top(s) == s[|s| - 1] != BOGUS && (|s| > 1 ==> s[0] != Top(s))
  {
    var all := s + Entries(bs);
    assert all[|s| - 1] in all && all[0] == s[0];
  }

  /** Undoing never brings back an entry that an overflow dropped, and leaves something of an underflow. */
  lemma LostApart(s: Stack, bs: seq<Branch>, rs: seq<Record>, capacity: nat)
    requires 0 < capacity && |s| <= capacity && Recorded(s, bs, rs, capacity)
    requires bs != [] && Loses(|s|, bs[0], capacity) && Proper(s + Entries(bs))
    ensures Apart(s, Undone(After(s, bs, capacity), rs, capacity))
  {
    hide Updated, Proper, Entries;
    var next := Updated(s, bs[0], capacity);
    var rest := Undone(After(next, bs[1..], capacity), rs[1..], capacity);
    var all := Undone(After(s, bs, capacity), rs, capacity);
    if bs[0].Call? {
      ProperTail(s, bs, capacity);
      TopIsProper(s, bs);
      UpdatedSize(s, bs[0], capacity);
      if all != [] {
        assert all[0] == rest[0] && rest[0] in rest;
        UndoneFrom(next, bs[1..], rs[1..], capacity, rest[0]);
        BottomIsProper(s, bs);
      }
    }
  }

  lemma BottomIsProper(s: Stack, bs: seq<Branch>)
    requires Proper(s + Entries(bs)) && s != []
    ensures s[0] != BOGUS
  {
    assert s[0] == (s + Entries(bs))[0];
  }

  /**
   Undoing any calls and returns, with overflow and underflow, restores the stack exactly when the
   branches, by their kinds alone, recover from what they lose. Only that a stack which is not
   recovered differs depends on the entries: they must differ from each other.
   */
  lemma UndoRestoresExactly(s: Stack, bs: seq<Branch>, rs: seq<Record>, capacity: nat)
    requires 0 < capacity && |s| <= capacity && Recorded(s, bs, rs, capacity)
    ensures Recovers(|s|, bs, capacity) ==> Undone(After(s, bs, capacity), rs, capacity) == s
    ensures Proper(s + Entries(bs)) ==>
              (Undone(After(s, bs, capacity), rs, capacity) == s <==> Recovers(|s|, bs, capacity))
  {
    hide Undone, After, Recorded, Recovers, Proper, Entries;
    if Recovers(|s|, bs, capacity) {
      RecoversRestores(s, bs, rs, capacity);
    } else if Proper(s + Entries(bs)) {
      StaysApart(s, bs, rs, capacity);
    }
  }

  lemma OneMore(s: Stack, b: Branch, bs: seq<Branch>, r: Record, rs: seq<Record>, capacity: nat)
    requires 0 < capacity && |s| <= capacity && Recorded(Updated(s, b, capacity), bs, rs, capacity)
    requires r.push == b.Call? && (b.Return? ==> r.was == Top(s))
    ensures Recorded(s, [b] + bs, [r] + rs, capacity)
    ensures NoUnderflow(s, [b] + bs, capacity) ==> (b.Return? ==> s != []) && NoUnderflow(Updated(s, b, capacity), bs, capacity)
    ensures SizeUndone(|s|, [b] + bs, capacity)
         == SizeAnnulled(SizeUndone(SizeAfter(|s|, b, capacity), bs, capacity), b, capacity)
  {
    assert ([b] + bs)[1..] == bs && ([r] + rs)[1..] == rs;
  }

  /** With room for one entry, a call and two returns are undone although the second return underflows. */
  lemma UnderflowCanRecover(x: Entry, was: Entry)
    ensures var bs, rs := [Call(x)] + ([Return] + ([Return] + [])),
                          [Record(true, was)] + ([Record(false, x)] + ([Record(false, BOGUS)] + []));
            && Recorded([], bs, rs, 1) && !NoUnderflow([], bs, 1)
            && Undone(After([], bs, 1), rs, 1) == []
  {
    var bs, rs := [Return] + ([Return] + []), [Record(false, x)] + ([Record(false, BOGUS)] + []);
    assert Updated([], Call(x), 1) == [x] && Updated([x], Return, 1) == [] && Updated([], Return, 1) == [];
    hide Recorded, NoUnderflow, SizeUndone, Updated, After, Undone;
    NothingRecorded([], 1);
    OneMore([], Return, [], Record(false, BOGUS), [], 1);
    OneMore([x], Return, [Return] + [], Record(false, x), [Record(false, BOGUS)] + [], 1);
    OneMore([], Call(x), bs, Record(true, was), rs, 1);
    RecoversRestores([], [Call(x)] + bs, [Record(true, was)] + rs, 1);
  }

  lemma NothingRecorded(s: Stack, capacity: nat)
    requires 0 < capacity
    ensures Recorded(s, [], [], capacity) && SizeUndone(|s|, [], capacity) == |s|
  {
  }

  class ReturnAddressStack {
    const queue: FixedQueue<Entry>

    ghost predicate Valid()
      reads queue
    {
      queue.Valid() && 0 < queue.Capacity()
    }

    ghost function Contents(): Stack
      requires Valid()
      reads queue, queue.data
    {
      queue.Contents()
    }

    ghost function Capacity(): nat {
      queue.Capacity()
    }

    constructor (size: nat)
      requires 1 < size
      ensures Valid() && Contents() == [] && Capacity() == size - 1 && fresh(queue) && fresh(queue.data)
    {
      queue := new FixedQueue<Entry>(size);
    }

    /** Pushes a return address, dropping the oldest one when there is no room, and tells what the slot held. */
    method Push(uuid: nat, rip: nat) returns (was: Entry)
      requires Valid()
      modifies queue, queue.data
      ensures Valid() && Contents() == Pushed(old(Contents()), Entry(uuid, rip), Capacity())
      ensures was == old(queue.data[queue.tail])
      ensures queue.data[..] == old(queue.data[..])[old(queue.tail) := Entry(uuid, rip)]
      ensures queue.tail == AddIndexModulo(old(queue.tail), 1, queue.data.Length)
    {
      if queue.Full() {
        var oldest := queue.Dequeue();
      }
      var slot := queue.Alloc();
      was := queue.data[slot];
      queue.SetTail(slot, Entry(uuid, rip));
    }

    /** Pops the latest return address; a bogus entry when there is none. */
    method Pop() returns (was: Entry)
      requires Valid()
      modifies queue
      ensures Valid() && Contents() == Popped(old(Contents())) && was == Top(old(Contents()))
      ensures queue.head == old(queue.head)
      ensures old(Contents()) != [] ==> queue.tail == AddIndexModulo(old(queue.tail), -1, queue.data.Length)
    {
      if queue.Empty() {
        return BOGUS;
      }
      var slot := queue.Pop();
      was := queue.data[slot];
    }

    method Peek() returns (rip: nat)
      requires Valid()
      ensures rip == Top(Contents()).rip
    {
      if queue.Empty() {
        return 0;
      }
      var slot := queue.PeekTail();
      rip := queue.data[slot].rip;
    }

    /** Undoes a push: puts back what the slot held before and gives the slot up. */
    method AnnulPush(was: Entry)
      requires Valid()
      modifies queue, queue.data
      ensures Valid() && Contents() == Popped(old(Contents()))
      ensures old(Contents()) != [] ==>
                && queue.data[..] == old(queue.data[..])[queue.tail := was]
                && queue.tail == AddIndexModulo(old(queue.tail), -1, queue.data.Length)
    {
      if queue.Empty() {
        return;
      }
      var slot := queue.PeekTail();
      queue.SetTail(slot, was);
      ghost var s := queue.Contents();
      var dummy := Pop();
      assert s[..|s| - 1] == old(Contents())[..|s| - 1];
    }

    /** Undoing a push right after it restores every slot of the buffer, also the one it overwrote. */
    method PushThenAnnul(uuid: nat, rip: nat)
      requires Valid()
      modifies queue, queue.data
      ensures Valid() && queue.data[..] == old(queue.data[..])
      ensures Contents() == if |old(Contents())| < Capacity() then old(Contents()) else old(Contents())[1..]
    {
      hide FixedQueue.Valid, FixedQueue.Contents;
      SlotBack(queue);
      var was := Push(uuid, rip);
      AnnulPush(was);
    }

    static lemma SlotBack(q: FixedQueue<Entry>)
      requires q.Valid() && 0 < q.Capacity()
      ensures AddIndexModulo(AddIndexModulo(q.tail, 1, q.data.Length), -1, q.data.Length) == q.tail
      ensures 0 <= q.tail < q.data.Length
    {
    }

    /** Undoes a pop: pushes the popped entry again unless the stack is full. */
    method AnnulPop(was: Entry)
      requires Valid()
      modifies queue, queue.data
      ensures Valid() && Contents() == Annulled(old(Contents()), Record(false, was), Capacity())
    {
      if queue.Full() {
        return;
      }
      var dummy := Push(was.uuid, was.rip);
    }

    /** Enters a predicted branch; returns take precedence, and other branches leave the record alone. */
    method UpdateRas(ret: bool, call: bool, uuid: nat, rip: nat, record: Record) returns (r: Record)
      requires Valid()
      modifies queue, queue.data
      ensures Valid()
      ensures ret ==> Contents() == Updated(old(Contents()), Return, Capacity())
                      && r == Record(false, Top(old(Contents())))
      ensures !ret && call ==> Contents() == Updated(old(Contents()), Call(Entry(uuid, rip)), Capacity()) && r.push
      ensures !ret && !call ==> Contents() == old(Contents()) && r == record
    {
      r := record;
      if ret {
        var e := Pop();
        r := Record(false, e);
      } else if call {
        var e := Push(uuid, rip);
        r := Record(true, e);
      }
    }

    method AnnulRas(r: Record)
      requires Valid()
      modifies queue, queue.data
      ensures Valid() && Contents() == Annulled(old(Contents()), r, Capacity())
    {
      if r.push {
        AnnulPush(r.was);
      } else {
        AnnulPop(r.was);
      }
    }
  }
}
