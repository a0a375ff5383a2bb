/**
 Tables of bucket lists. An intrusive doubly linked list whose elements are added at the head
 and unlinked in place is modelled by the sequence of its elements, most recently added first;
 unlinking an element takes it out of whichever list holds it.
 */
module Buckets {

  type Table = seq<seq<nat>>

  ghost predicate Distinct(s: seq<nat>) {
    forall i, j | 0 <= i < j < |s| :: s[i] != s[j]
  }

  lemma DistinctAppend(s: seq<nat>, x: nat)
    requires Distinct(s) && x !in s
    ensures Distinct(s + [x])
    ensures forall y :: y in s + [x] <==> y in s || y == x
  {
  }

  lemma SubsetSize(a: set<nat>, b: set<nat>)
    requires a <= b
    ensures |a| <= |b|
  {
    if a != {} {
      var x :| x in a;
      SubsetSize(a - {x}, b - {x});
    }
  }

  lemma ProperSubset(a: set<nat>, b: set<nat>, x: nat)
    requires a <= b && x in b && x !in a
    ensures |a| < |b|
  {
    SubsetSize(a, b - {x});
  }

  /** The list s after x was unlinked from it. */
  function Without(s: seq<nat>, x: nat): seq<nat> {
    if s == [] then []
    else if s[0] == x then s[1..]
    else [s[0]] + Without(s[1..], x)
  }

  lemma {:induction false} WithoutMembers(s: seq<nat>, x: nat)
    requires Distinct(s)
    ensures Distinct(Without(s, x))
    ensures forall y :: y in Without(s, x) <==> y in s && y != x
  {
    if s != [] {
      assert s == [s[0]] + s[1..];
      assert s[0] !in s[1..];
      if s[0] != x {
        WithoutMembers(s[1..], x);
        var rest := Without(s[1..], x);
        assert forall i | 0 <= i < |rest| :: rest[i] in rest;
      }
    }
  }

  /** List s holds the elements with key b, each once. */
  ghost predicate Holds(s: seq<nat>, key: map<nat, nat>, b: nat) {
    && Distinct(s)
    && (forall x :: x in s <==> x in key && key[x] == b)
  }

  /**
   Table t indexes the elements of key: element x is in the list of bucket key[x], once, and
   in no other list.
   */
  ghost predicate Indexes(t: Table, key: map<nat, nat>) {
    && (forall x | x in key :: key[x] < |t|)
    && (forall b: nat {:trigger Holds(t[b], key, b)} | b < |t| :: Holds(t[b], key, b))
  }

  lemma BucketHolds(t: Table, key: map<nat, nat>, b: nat)
    requires Indexes(t, key) && b < |t|
    ensures Holds(t[b], key, b)
  {
  }

  lemma ListedOnce(s: seq<nat>, key: map<nat, nat>, b: nat, k: nat)
    requires Holds(s, key, b) && k < |s|
    ensures s[k] !in s[..k]
  {
  }

  /** The table after x was unlinked from the list that holds it. */
  function Unlinked(t: Table, x: nat): (u: Table)
    ensures |u| == |t|
  {
    seq(|t|, b requires 0 <= b < |t| => Without(t[b], x))
  }

  /** The table after x was added at the head of list b. */
  function Added(t: Table, b: nat, x: nat): (u: Table)
    requires b < |t|
    ensures |u| == |t|
  {
    t[b := [x] + t[b]]
  }

  lemma UnlinkedIndexes(t: Table, key: map<nat, nat>, x: nat)
    requires Indexes(t, key)
    ensures Indexes(Unlinked(t, x), key - {x})
  {
    forall b: nat | b < |t|
      ensures Holds(Unlinked(t, x)[b], key - {x}, b)
    {
      assert Holds(t[b], key, b);
      WithoutMembers(t[b], x);
    }
  }

  lemma AddedIndexes(t: Table, key: map<nat, nat>, x: nat, b: nat)
    requires Indexes(t, key) && x !in key && b < |t|
    ensures Indexes(Added(t, b, x), key[x := b])
  {
    var u, k := Added(t, b, x), key[x := b];
    forall c: nat | c < |u|
      ensures Holds(u[c], k, c)
    {
      assert Holds(t[c], key, c);
      assert forall y :: y in u[c] <==> y in t[c] || (c == b && y == x);
    }
  }

  // ---- Hashing of chunk numbers

  /** Bitwise exclusive or. */
  function Xor(a: nat, b: nat): nat
    decreases a + b
  {
    if a == 0 && b == 0 then 0
    else (a % 2 + b % 2) % 2 + 2 * Xor(a / 2, b / 2)
  }

  /** The exclusive or of the base-slots digits of key, with carried-over higher bits. */
  function Fold(key: nat, slots: nat): nat
    requires 2 <= slots
  {
    if key == 0 then 0 else Xor(key, Fold(key / slots, slots))
  }

  /** The hash slot of a chunk number, for a power of two number of slots. */
  function HashSlot(key: nat, slots: nat): (h: nat)
    ensures 0 < slots ==> h < slots
  {
    if slots <= 1 then 0 else Fold(key, slots) % slots
  }

  predicate BitAt(a: nat, k: nat) {
    if k == 0 then a % 2 == 1 else BitAt(a / 2, k - 1)
  }

  lemma XorSplits(a: nat, b: nat)
    ensures Xor(a, b) / 2 == Xor(a / 2, b / 2) && (Xor(a, b) % 2 == 1 <==> a % 2 != b % 2)
  {
    XorUnfolds(a, b);
    hide Xor;
    HalfOf((a % 2 + b % 2) % 2, Xor(a / 2, b / 2));
    ParityDiffers(a % 2, b % 2);
  }

  lemma XorUnfolds(a: nat, b: nat)
    ensures Xor(a, b) == (a % 2 + b % 2) % 2 + 2 * Xor(a / 2, b / 2)
  {
    if a == 0 && b == 0 {
      assert Xor(0, 0) == 0;
    }
  }

  lemma ParityDiffers(x: nat, y: nat)
    requires x < 2 && y < 2
    ensures (x + y) % 2 == 1 <==> x != y
  {
  }

  lemma HalfOf(bit: nat, x: nat)
    requires bit < 2
    ensures (bit + 2 * x) / 2 == x && (bit + 2 * x) % 2 == bit
  {
  }

  /** A bit of the result is set when exactly one of the two is. */
  lemma {:induction false} XorBits(a: nat, b: nat, k: nat)
    ensures BitAt(Xor(a, b), k) <==> BitAt(a, k) != BitAt(b, k)
  {
    hide Xor;
    XorSplits(a, b);
    if k > 0 {
      XorBits(a / 2, b / 2, k - 1);
    }
  }

  lemma {:induction false} XorZero(a: nat)
    ensures Xor(a, 0) == a
  {
    if a > 0 {
      XorZero(a / 2);
    }
  }

  lemma {:induction false} ZeroXor(a: nat)
    ensures Xor(0, a) == a
  {
    if a > 0 {
      ZeroXor(a / 2);
    }
  }

  /** Keys below the number of slots are their own slots. */
  lemma SmallKeys(key: nat, slots: nat)
    requires 2 <= slots && key < slots
    ensures HashSlot(key, slots) == key
  {
    XorZero(key);
    QuotientOfLess(key, slots);
    assert Fold(0, slots) == 0 && Xor(0, 0) == 0;
  }

  /** Two to the power of m. */
  function Power(m: nat): (p: nat)
    ensures 0 < p
  {
    if m == 0 then 1 else 2 * Power(m - 1)
  }

  /** The next digit of a longer key is folded in by an exclusive or. */
  lemma LongerKey(key: nat, slots: nat, m: nat)
    requires 2 <= slots == Power(m)
    ensures HashSlot(key, slots) == Xor(key % slots, HashSlot(key / slots, slots))
  {
    XorRemainder(key, Fold(key / slots, slots), m);
    if key == 0 {
      QuotientOfLess(0, slots);
      assert Fold(0, slots) == 0 && Xor(0, 0) == 0;
    }
    hide Xor;
  }

  lemma {:induction false} XorRemainder(a: nat, b: nat, m: nat)
    ensures Xor(a, b) % Power(m) == Xor(a % Power(m), b % Power(m))
  {
    if m == 0 {
      assert Xor(0, 0) == 0;
    } else {
      var p := Power(m - 1);
      XorRemainder(a / 2, b / 2, m - 1);
      XorUnfolds(a, b);
      XorUnfolds(a % (2 * p), b % (2 * p));
      XorSplits(a, b);
      hide Xor;
      LowBit(a, p);
      LowBit(b, p);
      LowBit(Xor(a, b), p);
      ParityDiffers(a % 2, b % 2);
    }
  }

  /** The remainder by an even number is made of the last bit and the remainder of the half. */
  lemma LowBit(x: nat, p: nat)
    requires 0 < p
    ensures x % (2 * p) == x % 2 + 2 * (x / 2 % p)
    ensures x % (2 * p) / 2 == x / 2 % p && x % (2 * p) % 2 == x % 2
  {
    var q, r := x / 2 / p, x / 2 % p;
    assert x / 2 == q * p + r;
    assert x == q * (2 * p) + (x % 2 + 2 * r);
    RemainderIs(q, x % 2 + 2 * r, 2 * p);
    HalfOf(x % 2, r);
  }

  lemma RemainderIs(q: nat, r: nat, n: nat)
    requires r < n
    ensures (q * n + r) % n == r
  {
    var k := (q * n + r) / n;
    MultiplesApart(k, q, n);
    MultiplesApart(q, k, n);
  }

  lemma MultiplesApart(a: nat, b: nat, n: nat)
    ensures a < b ==> a * n + n <= b * n
  {
    if a < b {
      assert (a + 1) * n <= b * n;
    }
  }

  lemma QuotientOfLess(x: nat, n: nat)
    requires x < n
    ensures x / n == 0 && x % n == x
  {
  }
}
