/**
 When subtraction of records is exact: strings in a record are told apart from numbers only by
 their terminating null, so that one without it runs on into the numbers behind it.
 */
module StatsStrings {
  import opened LittleEndian
  import opened StatsTree
  import opened StatsSubtract

  /** No two parts of a group have the same name, as the members of a structure do not. */
  predicate UniqueNames(t: Template) {
    match t.kind
    case Group(subs) => UniqueNamesAll(subs)
    case _ => true
  }

  predicate UniqueNamesAll(ts: seq<Template>) {
    ts == [] || (UniqueNames(ts[0]) && NotNamed(ts[1..], ts[0].name) && UniqueNamesAll(ts[1..]))
  }

  predicate NotNamed(ts: seq<Template>, name: Text) {
    forall i | 0 <= i < |ts| :: ts[i].name != name
  }

  /** Every string of the template reads the same in both records. */
  predicate TextsKept(t: Template, p: seq<Word>, r: seq<Word>)
    requires Size(t) <= |p| && Size(t) <= |r|
    decreases t
  {
    match t.kind
    case Group(subs) => TextsKeptAll(subs, p, r)
    case TextCells(n) => CText(p) == CText(r)
    case _ => true
  }

  predicate TextsKeptAll(ts: seq<Template>, p: seq<Word>, r: seq<Word>)
    requires SizeAll(ts) <= |p| && SizeAll(ts) <= |r|
    decreases ts
  {
    ts == [] || (TextsKept(ts[0], p, r) && TextsKeptAll(ts[1..], p[Size(ts[0])..], r[Size(ts[0])..]))
  }

  // ---- A difference of trees keeps all strings

  lemma {:induction false} RemovedNames(ns: seq<Node>, name: Text)
    requires DistinctNames(ns)
    ensures DistinctNames(Removed(ns, name))
    ensures forall x :: x in Removed(ns, name) <==> x in ns && x.name != name
  {
    if ns != [] {
      assert DistinctNames(ns[1..]) by {
        assert forall i | 0 <= i < |ns| - 1 :: ns[1..][i] == ns[i + 1];
      }
      RemovedNames(ns[1..], name);
      assert ns == [ns[0]] + ns[1..];
      forall x | x in ns[1..]
        ensures x.name != ns[0].name
      {
        var i :| 0 <= i < |ns[1..]| && ns[1..][i] == x;
        assert ns[i + 1] == x;
      }
      if ns[0].name != name {
        ConsDistinct(ns[0], Removed(ns[1..], name));
      }
    }
  }

  lemma ConsDistinct(n: Node, ns: seq<Node>)
    requires DistinctNames(ns) && forall x | x in ns :: x.name != n.name
    ensures DistinctNames([n] + ns)
  {
    var all := [n] + ns;
    forall i, j | 0 <= i < j < |all|
      ensures all[i].name != all[j].name
    {
      assert all[j] == ns[j - 1] && ns[j - 1] in ns;
      assert i > 0 ==> all[i] == ns[i - 1];
    }
  }

  lemma {:induction false} PlacedNames(h: Buckets, ns: seq<Node>, n: Node)
    requires DistinctNames(ns) && forall x | x in ns :: x.name != n.name
    ensures DistinctNames(Placed(h, ns, n))
    ensures forall x :: x in Placed(h, ns, n) <==> x in ns || x == n
  {
    hide BucketOf;
    if ns == [] || BucketOf(h, n.name) <= BucketOf(h, ns[0].name) {
      ConsDistinct(n, ns);
    } else {
      assert ns == [ns[0]] + ns[1..];
      assert DistinctNames(ns[1..]) by {
        assert forall i | 0 <= i < |ns| - 1 :: ns[1..][i] == ns[i + 1];
      }
      forall x | x in ns[1..]
        ensures x.name != ns[0].name
      {
        var i :| 0 <= i < |ns[1..]| && ns[1..][i] == x;
        assert ns[i + 1] == x;
      }
      PlacedNames(h, ns[1..], n);
      assert ns[0] in ns;
      ConsDistinct(ns[0], Placed(h, ns[1..], n));
    }
  }

  /** Adding a child replaces at most the one of its name. */
  lemma InsertNames(h: Buckets, ns: seq<Node>, n: Node)
    requires DistinctNames(ns)
    ensures DistinctNames(Insert(h, ns, n))
    ensures forall x :: x in Insert(h, ns, n) <==> (x in ns && x.name != n.name) || x == n
  {
    hide DistinctNames, Removed, Placed;
    RemovedNames(ns, n.name);
    PlacedNames(h, Removed(ns, n.name), n);
  }

  lemma ReconstructName(h: Buckets, t: Template, p: seq<Word>)
    requires WellFormed(t) && Size(t) <= |p|
    ensures Reconstruct(h, t, p).name == t.name
  {
    hide LabelNodes, ReconstructAll, CText;
  }

  /** A child stays when none of the later ones has its name. */
  lemma {:induction false} ChildStays(h: Buckets, ts: seq<Template>, p: seq<Word>, acc: seq<Node>, x: Node)
    requires WellFormedAll(ts) && SizeAll(ts) <= |p| && DistinctNames(acc)
    requires x in acc && NotNamed(ts, x.name)
    ensures x in ReconstructAll(h, ts, p, acc)
    decreases ts
  {
    hide Reconstruct, Insert, DistinctNames;
    if ts != [] {
      var n := Reconstruct(h, ts[0], p);
      ReconstructName(h, ts[0], p);
      InsertNames(h, acc, n);
      assert ts[0].name != x.name;
      ChildStays(h, ts[1..], p[Size(ts[0])..], Insert(h, acc, n), x);
    }
  }

  lemma {:induction false} ChildrenDistinct(h: Buckets, ts: seq<Template>, p: seq<Word>, acc: seq<Node>)
    requires WellFormedAll(ts) && SizeAll(ts) <= |p| && DistinctNames(acc)
    ensures DistinctNames(ReconstructAll(h, ts, p, acc))
    decreases ts
  {
    hide Reconstruct, Insert, DistinctNames;
    if ts != [] {
      var n := Reconstruct(h, ts[0], p);
      InsertNames(h, acc, n);
      ChildrenDistinct(h, ts[1..], p[Size(ts[0])..], Insert(h, acc, n));
    }
  }

  /** The children of a difference are the differences of the children at the same places. */
  lemma {:induction false} ChildrenAt(f: DoubleSub, a: seq<Node>, b: seq<Node>, c: seq<Node>, i: nat)
    requires SubTrees(f, a, b) == Some(c) && i < |a|
    ensures |a| == |b| == |c| && SubTree(f, a[i], b[i]) == Some(c[i])
  {
    hide SubTree;
    assert c == [SubTree(f, a[0], b[0]).value] + SubTrees(f, a[1..], b[1..]).value;
    if i > 0 {
      ChildrenAt(f, a[1..], b[1..], c[1..], i - 1);
    } else if |a| > 1 {
      ChildrenAt(f, a[1..], b[1..], c[1..], 0);
    }
  }

  lemma DifferenceParts(f: DoubleSub, a: Node, b: Node, c: Node)
    requires SubTree(f, a, b) == Some(c)
    ensures a.name == c.name && SubTrees(f, a.subs, b.subs) == Some(c.subs)
    ensures a.value.Texts? ==> c.value == a.value
  {
  }

  lemma {:induction false} DifferenceKeepsTexts(f: DoubleSub, h: Buckets, t: Template, p: seq<Word>, r: seq<Word>, b: Node)
    requires WellFormed(t) && UniqueNames(t) && Size(t) <= |p| && Size(t) <= |r|
    requires SubTree(f, Reconstruct(h, t, p), b) == Some(Reconstruct(h, t, r))
    ensures TextsKept(t, p, r)
    decreases t
  {
    hide CText, LabelNodes, SubTree, SubTrees;
    DifferenceParts(f, Reconstruct(h, t, p), b, Reconstruct(h, t, r));
    match t.kind
    case Group(subs) => DifferenceKeepsAllTexts(f, h, subs, p, r, [], [], b.subs);
    case TextCells(n) =>
      assert Reconstruct(h, t, p).value == Texts([CText(p)]) && Reconstruct(h, t, r).value == Texts([CText(r)]);
    case _ =>
  }

  lemma {:induction false} DifferenceKeepsAllTexts(f: DoubleSub, h: Buckets, ts: seq<Template>, p: seq<Word>, r: seq<Word>,
                                                   a: seq<Node>, c: seq<Node>, bs: seq<Node>)
    requires WellFormedAll(ts) && UniqueNamesAll(ts) && SizeAll(ts) <= |p| && SizeAll(ts) <= |r|
    requires DistinctNames(a) && DistinctNames(c)
    requires SubTrees(f, ReconstructAll(h, ts, p, a), bs) == Some(ReconstructAll(h, ts, r, c))
    ensures TextsKeptAll(ts, p, r)
    decreases ts
  {
    hide Reconstruct, Insert, DistinctNames, SubTree, SubTrees, TextsKept;
    if ts != [] {
      var n := Size(ts[0]);
      var x, z := Reconstruct(h, ts[0], p), Reconstruct(h, ts[0], r);
      var a', c' := Insert(h, a, x), Insert(h, c, z);
      var all, diff := ReconstructAll(h, ts, p, a), ReconstructAll(h, ts, r, c);
      ReconstructName(h, ts[0], p);
      ReconstructName(h, ts[0], r);
      InsertNames(h, a, x);
      InsertNames(h, c, z);
      ChildStays(h, ts[1..], p[n..], a', x);
      ChildStays(h, ts[1..], r[n..], c', z);
      ChildrenDistinct(h, ts, r, c);
      SameChild(f, all, bs, diff, x, z);
      var b :| SubTree(f, x, b) == Some(z);
      DifferenceKeepsTexts(f, h, ts[0], p, r, b);
      DifferenceKeepsAllTexts(f, h, ts[1..], p[n..], r[n..], a', c', bs);
    }
  }

  lemma SameChild(f: DoubleSub, a: seq<Node>, b: seq<Node>, c: seq<Node>, x: Node, z: Node)
    requires SubTrees(f, a, b) == Some(c) && DistinctNames(c)
    requires x in a && z in c && x.name == z.name
    ensures exists y :: SubTree(f, x, y) == Some(z)
  {
    hide SubTree, SubTrees;
    var i :| 0 <= i < |a| && a[i] == x;
    var j :| 0 <= j < |c| && c[j] == z;
    ChildrenAt(f, a, b, c, i);
    DifferenceParts(f, a[i], b[i], c[i]);
    assert c[i].name == c[j].name;
    assert i == j;
  }

  // ---- A string that reaches a number is changed with it

  /** The record with word k replaced. */
  function With(p: seq<Word>, k: nat, x: Word): (r: seq<Word>)
    requires k < |p|
    ensures |r| == |p|
  {
    p[k := x]
  }

  predicate NulFirst(x: Word) {
    x % 256 == 0
  }

  lemma {:induction false} FirstByte(p: seq<Word>)
    requires p != []
    ensures CText(p) == [] <==> NulFirst(p[0])
  {
    var bs := Encode(p[0], 8);
    assert bs[0] == p[0] % 256;
  }

  lemma SameEnds(bs: Text, a: Text, b: Text)
    requires bs + a == bs + b
    ensures a == b
  {
    assert a == (bs + a)[|bs|..];
    assert b == (bs + b)[|bs|..];
  }

  lemma {:induction false} TextSpills(p: seq<Word>, cells: seq<Cell>) returns (k: nat)
    requires |cells| <= |p| && !Stops(p, cells)
    ensures k < |cells| && !cells[k].TextCell?
    ensures forall x | NulFirst(x) != NulFirst(p[k]) :: CText(With(p, k, x)) != CText(p)
  {
    hide Encode;
    if !cells[0].TextCell? {
      k := 0;
      forall x | NulFirst(x) != NulFirst(p[0])
        ensures CText(With(p, 0, x)) != CText(p)
      {
        FirstByte(p);
        FirstByte(With(p, 0, x));
      }
    } else {
      k := TextSpills(p[1..], cells[1..]);
      forall x | NulFirst(x) != NulFirst(p[k + 1])
        ensures CText(With(p, k + 1, x)) != CText(p)
      {
        assert With(p, k + 1, x)[1..] == With(p[1..], k, x);
        if CText(With(p, k + 1, x)) == CText(p) {
          SameEnds(Encode(p[0], 8), CText(With(p[1..], k, x)), CText(p[1..]));
        }
      }
      k := k + 1;
    }
  }

  /** When a string is not contained, there is a number on whose low byte it depends. */
  lemma {:induction false} Spills(t: Template, p: seq<Word>, behind: seq<Cell>) returns (k: nat)
    requires Size(t) + |behind| <= |p| && !Contained(t, p, behind)
    ensures k < |Cells(t) + behind| && !(Cells(t) + behind)[k].TextCell?
    ensures forall x | NulFirst(x) != NulFirst(p[k]) :: !TextsKept(t, p, With(p, k, x))
    decreases t
  {
    hide CText, Stops, With, NulFirst;
    match t.kind
    case Group(subs) => k := SpillsAll(subs, p, behind);
    case TextCells(n) =>
      k := TextSpills(p, Cells(t) + behind);
  }

  lemma {:induction false} SpillsAll(ts: seq<Template>, p: seq<Word>, behind: seq<Cell>) returns (k: nat)
    requires SizeAll(ts) + |behind| <= |p| && !ContainedAll(ts, p, behind)
    ensures k < |CellsAll(ts) + behind| && !(CellsAll(ts) + behind)[k].TextCell?
    ensures forall x | NulFirst(x) != NulFirst(p[k]) :: !TextsKeptAll(ts, p, With(p, k, x))
    decreases ts
  {
    hide Contained, TextsKept, Cells, NulFirst, Size;
    var n := Size(ts[0]);
    assert CellsAll(ts) + behind == Cells(ts[0]) + (CellsAll(ts[1..]) + behind);
    if !Contained(ts[0], p, CellsAll(ts[1..]) + behind) {
      k := Spills(ts[0], p, CellsAll(ts[1..]) + behind);
    } else {
      var j := SpillsAll(ts[1..], p[n..], behind);
      k := n + j;
      forall x | NulFirst(x) != NulFirst(p[k])
        ensures !TextsKeptAll(ts, p, With(p, k, x))
      {
        assert With(p, k, x)[n..] == With(p[n..], j, x);
        assert p[n..][j] == p[k];
      }
    }
  }

  // ---- Any number can be changed by subtraction

  /** Zeros, but for one word. */
  function OneAt(n: nat, k: nat, x: Word): (q: seq<Word>)
    requires k < n
    ensures |q| == n
  {
    Zeros(n)[k := x]
  }

  function Zeros(n: nat): (q: seq<Word>)
    ensures |q| == n && forall i | 0 <= i < n :: q[i] == 0
  {
    if n == 0 then [] else [0] + Zeros(n - 1)
  }

  lemma OnlyDifference(a: Word, b: Word, r: Word, x: Word)
    requires (r + b) % 0x1_0000_0000_0000_0000 == a && b == WordSub(a, x)
    ensures r == x
  {
    hide WordSub;
    assert (b + x) % 0x1_0000_0000_0000_0000 == a;
  }

  lemma ChangeOne(t: Template, p: seq<Word>, k: nat, x: Word)
    requires Size(t) <= |p| && k < Size(t) && !Cells(t)[k].TextCell?
    ensures SubWords(WordSub, t, p, OneAt(Size(t), k, WordSub(p[k], x))) == With(p, k, x)
  {
    hide SubWords, Cells, WordSub;
    var q := OneAt(Size(t), k, WordSub(p[k], x));
    SubWordsAt(WordSub, t, p, q);
    var r := SubWords(WordSub, t, p, q);
    OnlyDifference(p[k], q[k], r[k], x);
    assert r[Size(t)..] == p[Size(t)..];
    forall i | 0 <= i < |p|
      ensures r[i] == With(p, k, x)[i]
    {
      if i >= Size(t) {
        assert r[Size(t)..][i - Size(t)] == p[Size(t)..][i - Size(t)];
      }
    }
  }

  /**
   A string that is not contained makes the difference of the trees and the tree of the difference
   differ, for some subtrahend.
   */
  lemma SpillShows(h: Buckets, t: Template, p: seq<Word>) returns (q: seq<Word>)
    requires WellFormed(t) && UniqueNames(t) && Size(t) <= |p| && !Contained(t, p, [])
    ensures |q| == Size(t)
    ensures !NodeDifference(WordSub, Reconstruct(h, t, p), Reconstruct(h, t, q), Reconstruct(h, t, SubWords(WordSub, t, p, q)))
  {
    hide SubTree, TextsKept, Contained, Cells, Reconstruct, SubWords, WordSub, With;
    var k := Spills(t, p, []);
    assert Cells(t) + [] == Cells(t);
    var x: Word := if NulFirst(p[k]) then 1 else 0;
    q := OneAt(Size(t), k, WordSub(p[k], x));
    ChangeOne(t, p, k, x);
    if NodeDifference(WordSub, Reconstruct(h, t, p), Reconstruct(h, t, q), Reconstruct(h, t, SubWords(WordSub, t, p, q))) {
      DifferenceKeepsTexts(WordSub, h, t, p, SubWords(WordSub, t, p, q), Reconstruct(h, t, q));
    }
  }

  /**
   Subtracting records commutes with rebuilding trees, whatever is subtracted and however doubles
   are, exactly when every string ends before the next number.
   */
  lemma CommutesExactlyWhen(h: Buckets, t: Template, p: seq<Word>)
    requires WellFormed(t) && UniqueNames(t) && Size(t) <= |p|
    ensures Contained(t, p, []) <==>
            forall f: DoubleSub, q: seq<Word> | Size(t) <= |q| ::
              NodeDifference(f, Reconstruct(h, t, p), Reconstruct(h, t, q), Reconstruct(h, t, SubWords(f, t, p, q)))
  {
    hide NodeDifference, Contained, Reconstruct, SubWords;
    if Contained(t, p, []) {
      forall f: DoubleSub, q: seq<Word> | Size(t) <= |q|
        ensures NodeDifference(f, Reconstruct(h, t, p), Reconstruct(h, t, q), Reconstruct(h, t, SubWords(f, t, p, q)))
      {
        SubtractCommutes(f, h, t, p, q);
      }
    } else {
      var q := SpillShows(h, t, p);
    }
  }
}
