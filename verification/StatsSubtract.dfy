/**
 Subtracting statistics records: word by word in the flat records, or node by node in the trees
 reconstructed from them. Both give the same tree.
 */
module StatsSubtract {
  import opened LittleEndian
  import opened StatsTree

  /** Subtraction of doubles, on their words; any function will do. */
  type DoubleSub = (Word, Word) -> Word

  /** 64-bit subtraction. */
  function WordSub(a: Word, b: Word): (c: Word)
    ensures (c + b) % 0x1_0000_0000_0000_0000 == a
  {
    if b <= a then a - b else a + 0x1_0000_0000_0000_0000 - b
  }

  function IntsSub(a: seq<Word>, b: seq<Word>): (c: seq<Word>)
    requires |a| == |b|
    ensures |c| == |a|
  {
    if a == [] then [] else [WordSub(a[0], b[0])] + IntsSub(a[1..], b[1..])
  }

  function FloatsSub(f: DoubleSub, a: seq<Word>, b: seq<Word>): (c: seq<Word>)
    requires |a| == |b|
    ensures |c| == |a|
  {
    if a == [] then [] else [f(a[0], b[0])] + FloatsSub(f, a[1..], b[1..])
  }

  // ---- Flat records

  /** The words from the cursor on, after those of the template were subtracted. */
  function SubWords(f: DoubleSub, t: Template, p: seq<Word>, q: seq<Word>): (r: seq<Word>)
    requires Size(t) <= |p| && Size(t) <= |q|
    ensures |r| == |p| && r[Size(t)..] == p[Size(t)..]
    decreases t
  {
    match t.kind
    case Group(subs) => SubWordsAll(f, subs, p, q)
    case IntCells(n) => IntsSub(p[..n], q[..n]) + p[n..]
    case FloatCells(n) => FloatsSub(f, p[..n], q[..n]) + p[n..]
    case TextCells(n) => p
  }

  function SubWordsAll(f: DoubleSub, ts: seq<Template>, p: seq<Word>, q: seq<Word>): (r: seq<Word>)
    requires SizeAll(ts) <= |p| && SizeAll(ts) <= |q|
    ensures |r| == |p| && r[SizeAll(ts)..] == p[SizeAll(ts)..]
    decreases ts
  {
    if ts == [] then p
    else
      var n := Size(ts[0]);
      var head, tail := SubWords(f, ts[0], p, q)[..n], SubWordsAll(f, ts[1..], p[n..], q[n..]);
      assert (head + tail)[SizeAll(ts)..] == tail[SizeAll(ts[1..])..];
      head + tail
  }

  // ---- Trees

  /** Subtracts the second tree from the first; None when their shapes differ. */
  function SubTree(f: DoubleSub, a: Node, b: Node): Option<Node>
    decreases a
  {
    var value: Option<Value> :=
      match (a.value, b.value)
      case (Null(m), Null(n)) => if m == n then Some(a.value) else None
      case (Ints(u), Ints(v)) => if |u| == |v| then Some(Ints(IntsSub(u, v))) else None
      case (Floats(u), Floats(v)) => if |u| == |v| then Some(Floats(FloatsSub(f, u, v))) else None
      case (Texts(u), Texts(v)) => if |u| == |v| then Some(a.value) else None
      case _ => None;
    var subs := SubTrees(f, a.subs, b.subs);
    if value.None? || subs.None? then None
    else Some(a.(value := value.value, subs := subs.value))
  }

  /** Subtracts the children pairwise, in the order in which the hash tables enumerate them. */
  function SubTrees(f: DoubleSub, a: seq<Node>, b: seq<Node>): Option<seq<Node>>
    decreases a
  {
    if |a| != |b| then None
    else if a == [] then Some([])
    else
      var head, tail := SubTree(f, a[0], b[0]), SubTrees(f, a[1..], b[1..]);
      if head.None? || tail.None? then None else Some([head.value] + tail.value)
  }

  // ---- The two agree

  ghost predicate SameNames(a: seq<Node>, b: seq<Node>) {
    |a| == |b| && forall i | 0 <= i < |a| :: a[i].name == b[i].name
  }

  /** c is the difference of the lists of children a and b, which have the same names. */
  ghost predicate Difference(f: DoubleSub, a: seq<Node>, b: seq<Node>, c: seq<Node>) {
    SameNames(a, b) && SubTrees(f, a, b) == Some(c)
  }

  ghost predicate NodeDifference(f: DoubleSub, a: Node, b: Node, c: Node) {
    a.name == b.name && SubTree(f, a, b) == Some(c)
  }

  lemma DifferenceNames(f: DoubleSub, a: seq<Node>, b: seq<Node>, c: seq<Node>)
    requires Difference(f, a, b, c)
    ensures SameNames(a, c)
  {
    if a != [] {
      var tail := SubTrees(f, a[1..], b[1..]).value;
      assert c == [SubTree(f, a[0], b[0]).value] + tail && c[1..] == tail;
      DifferenceNames(f, a[1..], b[1..], tail);
      forall i | 0 <= i < |a|
        ensures a[i].name == c[i].name
      {
        if i > 0 {
          assert a[1..][i - 1].name == tail[i - 1].name;
        }
      }
    }
  }

  lemma ConsDifference(f: DoubleSub, a: Node, b: Node, c: Node, as_: seq<Node>, bs: seq<Node>, cs: seq<Node>)
    requires NodeDifference(f, a, b, c) && Difference(f, as_, bs, cs)
    ensures Difference(f, [a] + as_, [b] + bs, [c] + cs)
  {
    hide SubTree;
    assert ([a] + as_)[1..] == as_ && ([b] + bs)[1..] == bs;
  }

  lemma UnconsDifference(f: DoubleSub, a: seq<Node>, b: seq<Node>, c: seq<Node>)
    requires Difference(f, a, b, c) && a != []
    ensures |b| == |c| == |a| && NodeDifference(f, a[0], b[0], c[0]) && Difference(f, a[1..], b[1..], c[1..])
    ensures c[0].name == a[0].name
  {
    hide SubTree;
    DifferenceNames(f, a, b, c);
  }

  lemma {:induction false} RemovedDifference(f: DoubleSub, a: seq<Node>, b: seq<Node>, c: seq<Node>, name: Text)
    requires Difference(f, a, b, c)
    ensures Difference(f, Removed(a, name), Removed(b, name), Removed(c, name))
  {
    hide Difference, NodeDifference;
    EmptyDifference(f, a, b, c);
    if a != [] {
      UnconsDifference(f, a, b, c);
      NodeNames(f, a[0], b[0], c[0]);
      RemovedDifference(f, a[1..], b[1..], c[1..], name);
      ConsDifference(f, a[0], b[0], c[0], Removed(a[1..], name), Removed(b[1..], name), Removed(c[1..], name));
    }
  }

  lemma EmptyDifference(f: DoubleSub, a: seq<Node>, b: seq<Node>, c: seq<Node>)
    requires Difference(f, a, b, c)
    ensures a == [] ==> b == [] && c == []
    ensures Difference(f, [], [], [])
  {
  }

  lemma NodeNames(f: DoubleSub, a: Node, b: Node, c: Node)
    requires NodeDifference(f, a, b, c)
    ensures a.name == b.name == c.name
  {
  }

  lemma {:induction false} PlacedDifference(f: DoubleSub, h: Buckets, a: seq<Node>, b: seq<Node>, c: seq<Node>,
                                            x: Node, y: Node, z: Node)
    requires Difference(f, a, b, c) && NodeDifference(f, x, y, z)
    ensures Difference(f, Placed(h, a, x), Placed(h, b, y), Placed(h, c, z))
  {
    hide Difference, NodeDifference, BucketOf;
    EmptyDifference(f, a, b, c);
    NodeNames(f, x, y, z);
    ConsDifference(f, x, y, z, a, b, c);
    if a != [] {
      UnconsDifference(f, a, b, c);
      NodeNames(f, a[0], b[0], c[0]);
      PlacedDifference(f, h, a[1..], b[1..], c[1..], x, y, z);
      ConsDifference(f, a[0], b[0], c[0], Placed(h, a[1..], x), Placed(h, b[1..], y), Placed(h, c[1..], z));
    }
  }

  /** Adding a child to all three lists keeps the third the difference of the others. */
  lemma InsertDifference(f: DoubleSub, h: Buckets, a: seq<Node>, b: seq<Node>, c: seq<Node>, x: Node, y: Node, z: Node)
    requires Difference(f, a, b, c) && NodeDifference(f, x, y, z)
    ensures Difference(f, Insert(h, a, x), Insert(h, b, y), Insert(h, c, z))
  {
    hide Difference, NodeDifference, Removed, Placed;
    NodeNames(f, x, y, z);
    RemovedDifference(f, a, b, c, x.name);
    PlacedDifference(f, h, Removed(a, x.name), Removed(b, x.name), Removed(c, x.name), x, y, z);
  }

  lemma {:induction false} LabelDifference(f: DoubleSub, h: Buckets, labels: seq<Text>, p: seq<Word>, q: seq<Word>,
                                           a: seq<Node>, b: seq<Node>, c: seq<Node>)
    requires |labels| <= |p| == |q| && Difference(f, a, b, c)
    ensures Difference(f, LabelNodes(h, labels, p, a), LabelNodes(h, labels, q, b), LabelNodes(h, labels, IntsSub(p, q), c))
  {
    hide Difference, NodeDifference, Insert;
    if labels != [] {
      var x, y, z := Plain(labels[0], Ints([p[0]])), Plain(labels[0], Ints([q[0]])), Plain(labels[0], Ints([WordSub(p[0], q[0])]));
      ScalarDifference(f, labels[0], p[0], q[0]);
      InsertDifference(f, h, a, b, c, x, y, z);
      LabelDifference(f, h, labels[1..], p[1..], q[1..], Insert(h, a, x), Insert(h, b, y), Insert(h, c, z));
    }
  }

  lemma ScalarDifference(f: DoubleSub, name: Text, p: Word, q: Word)
    ensures NodeDifference(f, Plain(name, Ints([p])), Plain(name, Ints([q])), Plain(name, Ints([WordSub(p, q)])))
  {
    hide WordSub;
    assert IntsSub([p], [q]) == [WordSub(p, q)];
    assert SubTrees(f, [], []) == Some([]);
  }

  // ---- Reconstruction reads only the words of the template

  lemma {:induction false} LabelsAreLocal(h: Buckets, labels: seq<Text>, p: seq<Word>, n: nat, acc: seq<Node>)
    requires |labels| == n <= |p|
    ensures LabelNodes(h, labels, p, acc) == LabelNodes(h, labels, p[..n], acc)
  {
    hide Insert;
    if n > 0 {
      assert p[1..][..n - 1] == p[..n][1..];
      LabelsAreLocal(h, labels[1..], p[1..], n - 1, Insert(h, acc, Plain(labels[0], Ints([p[0]]))));
    }
  }

  /** The two records agree but for the words in cells with numbers. */
  ghost predicate Agree(p: seq<Word>, r: seq<Word>, cells: seq<Cell>) {
    |p| == |r| && forall i | 0 <= i < |p| && (i < |cells| ==> cells[i].TextCell?) :: p[i] == r[i]
  }

  lemma AgreeTail(p: seq<Word>, r: seq<Word>, first: seq<Cell>, cells: seq<Cell>)
    requires |first| <= |p|
    ensures Agree(p, r, first + cells) <==>
              |p| == |r| && Agree(p[..|first|], r[..|first|], first) && Agree(p[|first|..], r[|first|..], cells)
  {
    var n := |first|;
    if Agree(p, r, first + cells) {
      forall i | 0 <= i < n && first[i].TextCell?
        ensures p[i] == r[i]
      {
        assert (first + cells)[i] == first[i];
      }
      forall i | 0 <= i < |p| - n && (i < |cells| ==> cells[i].TextCell?)
        ensures p[n..][i] == r[n..][i]
      {
        assert n + i < |first + cells| ==> (first + cells)[n + i] == cells[i];
        assert p[n + i] == r[n + i];
      }
    }
    if |p| == |r| && Agree(p[..n], r[..n], first) && Agree(p[n..], r[n..], cells) {
      forall i | 0 <= i < |p| && (i < |first + cells| ==> (first + cells)[i].TextCell?)
        ensures p[i] == r[i]
      {
        if i < n {
          assert p[..n][i] == r[..n][i];
        } else {
          assert p[n..][i - n] == r[n..][i - n];
        }
      }
    }
  }

  /** What a word becomes by subtraction, depending on what it is part of. */
  ghost predicate IsDifference(f: DoubleSub, c: Cell, a: Word, b: Word, r: Word) {
    match c
    case TextCell => r == a
    case IntCell => (r + b) % 0x1_0000_0000_0000_0000 == a
    case FloatCell => r == f(a, b)
  }

  /** Subtraction takes each number from its counterpart, and changes no string. */
  lemma {:induction false} SubWordsAt(f: DoubleSub, t: Template, p: seq<Word>, q: seq<Word>)
    requires Size(t) <= |p| && Size(t) <= |q|
    ensures forall i | 0 <= i < Size(t) :: IsDifference(f, Cells(t)[i], p[i], q[i], SubWords(f, t, p, q)[i])
    decreases t
  {
    hide WordSub;
    match t.kind
    case Group(subs) => SubWordsAllAt(f, subs, p, q);
    case IntCells(n) =>
      RepeatedIs(IntCell, n);
      IntsSubElements(p[..n], q[..n]);
    case FloatCells(n) =>
      RepeatedIs(FloatCell, n);
      FloatsSubElements(f, p[..n], q[..n]);
    case TextCells(n) => RepeatedIs(TextCell, n);
  }

  lemma {:induction false} SubWordsAllAt(f: DoubleSub, ts: seq<Template>, p: seq<Word>, q: seq<Word>)
    requires SizeAll(ts) <= |p| && SizeAll(ts) <= |q|
    ensures forall i | 0 <= i < SizeAll(ts) :: IsDifference(f, CellsAll(ts)[i], p[i], q[i], SubWordsAll(f, ts, p, q)[i])
    decreases ts
  {
    hide SubWords, Cells, IsDifference;
    if ts != [] {
      var n := Size(ts[0]);
      SubWordsAt(f, ts[0], p, q);
      SubWordsAllAt(f, ts[1..], p[n..], q[n..]);
      FirstCells(f, ts, p, q);
      var tail := SubWordsAll(f, ts[1..], p[n..], q[n..]);
      forall i | n <= i < SizeAll(ts)
        ensures IsDifference(f, CellsAll(ts)[i], p[i], q[i], SubWordsAll(f, ts, p, q)[i])
      {
        assert SubWordsAll(f, ts, p, q)[i] == tail[i - n] && CellsAll(ts)[i] == CellsAll(ts[1..])[i - n];
        assert p[i] == p[n..][i - n] && q[i] == q[n..][i - n];
      }
    }
  }

  /** Subtraction changes no string. */
  lemma SubWordsAgree(f: DoubleSub, t: Template, p: seq<Word>, q: seq<Word>)
    requires Size(t) <= |p| && Size(t) <= |q|
    ensures Agree(p[..Size(t)], SubWords(f, t, p, q)[..Size(t)], Cells(t))
  {
    hide SubWords, Cells;
    SubWordsAt(f, t, p, q);
  }

  lemma SubWordsAllAgree(f: DoubleSub, ts: seq<Template>, p: seq<Word>, q: seq<Word>)
    requires SizeAll(ts) <= |p| && SizeAll(ts) <= |q|
    ensures Agree(p[..SizeAll(ts)], SubWordsAll(f, ts, p, q)[..SizeAll(ts)], CellsAll(ts))
  {
    hide SubWordsAll, CellsAll;
    SubWordsAllAt(f, ts, p, q);
  }

  lemma {:induction false} RepeatedIs(c: Cell, n: nat)
    ensures forall i | 0 <= i < n :: Repeated(c, n)[i] == c
  {
    if n > 0 {
      RepeatedIs(c, n - 1);
    }
  }

  /** A string that ends before the next number is the same in records that agree. */
  lemma {:induction false} SameText(p: seq<Word>, r: seq<Word>, cells: seq<Cell>)
    requires |cells| <= |p| && Agree(p, r, cells) && Stops(p, cells)
    ensures CText(p) == CText(r)
  {
    hide Encode;
    if cells == [] {
      assert p == r;
    } else if 0 !in Encode(p[0], 8) {
      AgreeTail(p, r, cells[..1], cells[1..]);
      assert cells == cells[..1] + cells[1..];
      SameText(p[1..], r[1..], cells[1..]);
    }
  }

  // ---- Subtraction commutes with reconstruction

  lemma LeafDifference(f: DoubleSub, a: Node, b: Node, c: Node)
    requires a.name == b.name && a.subs == [] && b.subs == []
    requires a.value.Floats? && b.value.Floats? && |a.value.floats| == |b.value.floats|
    requires c == a.(value := Floats(FloatsSub(f, a.value.floats, b.value.floats)))
    ensures NodeDifference(f, a, b, c)
  {
    hide FloatsSub;
    assert SubTrees(f, [], []) == Some([]);
  }

  lemma TextDifference(f: DoubleSub, a: Node, b: Node)
    requires a.name == b.name && a.subs == [] && b.subs == []
    requires a.value.Texts? && b.value.Texts? && |a.value.texts| == |b.value.texts|
    ensures NodeDifference(f, a, b, a)
  {
    assert SubTrees(f, [], []) == Some([]);
  }

  lemma ArrayDifference(f: DoubleSub, a: Node, b: Node, c: Node)
    requires a.name == b.name && Difference(f, a.subs, b.subs, c.subs)
    requires a.value.Ints? && b.value.Ints? && |a.value.ints| == |b.value.ints|
    requires c == a.(value := Ints(IntsSub(a.value.ints, b.value.ints)), subs := c.subs)
    ensures NodeDifference(f, a, b, c)
  {
    hide IntsSub;
  }

  lemma GroupDifference(f: DoubleSub, a: Node, b: Node, c: Node)
    requires a.name == b.name && Difference(f, a.subs, b.subs, c.subs)
    requires a.value.Null? && a.value == b.value
    requires c == a.(subs := c.subs)
    ensures NodeDifference(f, a, b, c)
  {
  }

  lemma IntCellsCommute(f: DoubleSub, h: Buckets, t: Template, p: seq<Word>, q: seq<Word>, r: seq<Word>)
    requires WellFormed(t) && t.kind.IntCells? && Size(t) <= |p| && Size(t) <= |q| && Size(t) <= |r|
    requires r[..Size(t)] == IntsSub(p[..Size(t)], q[..Size(t)])
    ensures NodeDifference(f, Reconstruct(h, t, p), Reconstruct(h, t, q), Reconstruct(h, t, r))
  {
    hide LabelNodes, IntsSub, NodeDifference, SubTrees;
    var n := t.kind.count;
    EmptyListsDifference(f);
    if n == 1 {
      ScalarDifference(f, t.name, p[0], q[0]);
      SingleCells(p, q, r);
    } else {
      if t.labeled {
        LabelDifference(f, h, t.labels, p[..n], q[..n], [], [], []);
        LabelsAreLocal(h, t.labels, p, n, []);
        LabelsAreLocal(h, t.labels, q, n, []);
        LabelsAreLocal(h, t.labels, r, n, []);
      }
      ArrayDifference(f, Reconstruct(h, t, p), Reconstruct(h, t, q), Reconstruct(h, t, r));
    }
  }

  lemma EmptyListsDifference(f: DoubleSub)
    ensures Difference(f, [], [], [])
  {
  }

  /**
   Reconstructing the difference of two records gives the difference of their reconstructions,
   provided strings end before numbers that subtraction changes.
   */
  lemma SubtractCommutes(f: DoubleSub, h: Buckets, t: Template, p: seq<Word>, q: seq<Word>)
    requires WellFormed(t) && Size(t) <= |p| && Size(t) <= |q| && Contained(t, p, [])
    ensures NodeDifference(f, Reconstruct(h, t, p), Reconstruct(h, t, q), Reconstruct(h, t, SubWords(f, t, p, q)))
  {
    CellsCommute(f, h, t, p, q, SubWords(f, t, p, q), []);
  }

  /** The same for a template in the middle of a record, of which the third is the difference. */
  lemma {:induction false} CellsCommute(f: DoubleSub, h: Buckets, t: Template, p: seq<Word>, q: seq<Word>, r: seq<Word>,
                                        behind: seq<Cell>)
    requires WellFormed(t) && Size(t) + |behind| <= |p| == |r| && Size(t) <= |q| && Contained(t, p, behind)
    requires r[..Size(t)] == SubWords(f, t, p, q)[..Size(t)] && Agree(p[Size(t)..], r[Size(t)..], behind)
    ensures NodeDifference(f, Reconstruct(h, t, p), Reconstruct(h, t, q), Reconstruct(h, t, r))
    decreases t
  {
    hide LabelNodes, CText, IntsSub, FloatsSub, NodeDifference, Difference, Agree, Stops;
    match t.kind
    case Group(subs) =>
      EmptyListsDifference(f);
      CellsAllCommute(f, h, subs, p, q, r, behind, [], [], []);
      GroupDifference(f, Reconstruct(h, t, p), Reconstruct(h, t, q), Reconstruct(h, t, r));
    case IntCells(n) =>
      assert r[..n] == IntsSub(p[..n], q[..n]);
      IntCellsCommute(f, h, t, p, q, r);
    case FloatCells(n) =>
      assert r[..n] == FloatsSub(f, p[..n], q[..n]);
      LeafDifference(f, Reconstruct(h, t, p), Reconstruct(h, t, q), Reconstruct(h, t, r));
    case TextCells(n) =>
      SubWordsAgree(f, t, p, q);
      AgreeTail(p, r, Cells(t), behind);
      SameText(p, r, Cells(t) + behind);
      TextDifference(f, Reconstruct(h, t, p), Reconstruct(h, t, q));
  }

  lemma SingleCells(p: seq<Word>, q: seq<Word>, r: seq<Word>)
    requires 1 <= |p| && 1 <= |q| && 1 <= |r| && r[..1] == IntsSub(p[..1], q[..1])
    ensures p[..1] == [p[0]] && q[..1] == [q[0]] && r[..1] == [WordSub(p[0], q[0])]
  {
    hide WordSub;
  }

  lemma {:induction false} CellsAllCommute(f: DoubleSub, h: Buckets, ts: seq<Template>, p: seq<Word>, q: seq<Word>, r: seq<Word>,
                                           behind: seq<Cell>, a: seq<Node>, b: seq<Node>, c: seq<Node>)
    requires WellFormedAll(ts) && SizeAll(ts) + |behind| <= |p| == |r| && SizeAll(ts) <= |q| && ContainedAll(ts, p, behind)
    requires r[..SizeAll(ts)] == SubWordsAll(f, ts, p, q)[..SizeAll(ts)]
    requires Agree(p[SizeAll(ts)..], r[SizeAll(ts)..], behind)
    requires Difference(f, a, b, c)
    ensures Difference(f, ReconstructAll(h, ts, p, a), ReconstructAll(h, ts, q, b), ReconstructAll(h, ts, r, c))
    decreases ts
  {
    hide Difference, NodeDifference, Insert, Reconstruct, SubWords, Contained, Agree, Cells, WellFormed;
    if ts != [] {
      var n, m := Size(ts[0]), SizeAll(ts);
      FirstCells(f, ts, p, q);
      SplitDifference(p, q, r, SubWords(f, ts[0], p, q)[..n], SubWordsAll(f, ts[1..], p[n..], q[n..]), n, m);
      SubWordsAllAgree(f, ts[1..], p[n..], q[n..]);
      AgreeTail(p[n..], r[n..], CellsAll(ts[1..]), behind);
      CellsCommute(f, h, ts[0], p, q, r, CellsAll(ts[1..]) + behind);
      var x, y, z := Reconstruct(h, ts[0], p), Reconstruct(h, ts[0], q), Reconstruct(h, ts[0], r);
      InsertDifference(f, h, a, b, c, x, y, z);
      CellsAllCommute(f, h, ts[1..], p[n..], q[n..], r[n..], behind, Insert(h, a, x), Insert(h, b, y), Insert(h, c, z));
    }
  }

  lemma SplitDifference(p: seq<Word>, q: seq<Word>, r: seq<Word>, head: seq<Word>, tail: seq<Word>, n: nat, m: nat)
    requires n <= m <= |p| == |r| && |head| == n && |tail| == |p| - n && r[..m] == (head + tail)[..m]
    ensures r[..n] == head && r[n..][..m - n] == tail[..m - n]
    ensures p[n..][m - n..] == p[m..] && r[n..][m - n..] == r[m..]
  {
    assert r[..n] == r[..m][..n];
    assert r[n..][..m - n] == r[..m][n..];
  }

  // ---- The in-place subtraction

  /** The whole record after subtraction at the two cursors. */
  function AfterCells(f: DoubleSub, t: Template, p: seq<Word>, q: seq<Word>, i: nat, j: nat): (r: seq<Word>)
    requires i + Size(t) <= |p| && j + Size(t) <= |q|
    ensures |r| == |p|
  {
    p[..i] + SubWords(f, t, p[i..], q[j..])
  }

  function AfterAll(f: DoubleSub, ts: seq<Template>, p: seq<Word>, q: seq<Word>, i: nat, j: nat): (r: seq<Word>)
    requires i + SizeAll(ts) <= |p| && j + SizeAll(ts) <= |q|
    ensures |r| == |p|
  {
    p[..i] + SubWordsAll(f, ts, p[i..], q[j..])
  }

  method SubtractInts(a: array<Word>, b: array<Word>, i: nat, j: nat, n: nat)
    requires a != b && i + n <= a.Length && j + n <= b.Length
    modifies a
    ensures a[..] == old(a[..])[..i] + (IntsSub(old(a[..])[i..][..n], b[..][j..][..n]) + old(a[..])[i..][n..])
  {
    for k := 0 to n
      invariant forall m | i <= m < i + k :: a[m] == WordSub(old(a[m]), b[j + m - i])
      invariant forall m | 0 <= m < a.Length && !(i <= m < i + k) :: a[m] == old(a[m])
    {
      a[i + k] := WordSub(a[i + k], b[j + k]);
    }
    hide WordSub, IntsSub;
    IntsSubElements(old(a[..])[i..][..n], b[..][j..][..n]);
  }

  method SubtractFloats(f: DoubleSub, a: array<Word>, b: array<Word>, i: nat, j: nat, n: nat)
    requires a != b && i + n <= a.Length && j + n <= b.Length
    modifies a
    ensures a[..] == old(a[..])[..i] + (FloatsSub(f, old(a[..])[i..][..n], b[..][j..][..n]) + old(a[..])[i..][n..])
  {
    for k := 0 to n
      invariant forall m | i <= m < i + k :: a[m] == f(old(a[m]), b[j + m - i])
      invariant forall m | 0 <= m < a.Length && !(i <= m < i + k) :: a[m] == old(a[m])
    {
      a[i + k] := f(a[i + k], b[j + k]);
    }
    hide FloatsSub;
    FloatsSubElements(f, old(a[..])[i..][..n], b[..][j..][..n]);
  }

  lemma {:induction false} IntsSubElements(p: seq<Word>, q: seq<Word>)
    requires |p| == |q|
    ensures forall k | 0 <= k < |p| :: IntsSub(p, q)[k] == WordSub(p[k], q[k])
  {
    hide WordSub;
    if p != [] {
      IntsSubElements(p[1..], q[1..]);
    }
  }

  lemma {:induction false} FloatsSubElements(f: DoubleSub, p: seq<Word>, q: seq<Word>)
    requires |p| == |q|
    ensures forall k | 0 <= k < |p| :: FloatsSub(f, p, q)[k] == f(p[k], q[k])
  {
    if p != [] {
      FloatsSubElements(f, p[1..], q[1..]);
    }
  }

  /** Subtracts the words of the template at the two cursors in place, and moves both cursors past them. */
  method Subtract(f: DoubleSub, t: Template, a: array<Word>, b: array<Word>, i: nat, j: nat) returns (i': nat, j': nat)
    requires a != b && WellFormed(t) && i + Size(t) <= a.Length && j + Size(t) <= b.Length
    modifies a
    ensures i' == i + Size(t) && j' == j + Size(t)
    ensures a[..] == AfterCells(f, t, old(a[..]), b[..], i, j)
    ensures forall k | 0 <= k < Size(t) :: IsDifference(f, Cells(t)[k], old(a[i + k]), b[j + k], a[i + k])
    ensures forall k | 0 <= k < a.Length && !(i <= k < i + Size(t)) :: a[k] == old(a[k])
    decreases t
  {
    hide IntsSub, FloatsSub, AfterAll, AfterCells, IsDifference, Cells;
    AfterCellsAt(f, t, a[..], b[..], i, j);
    GroupCells(f, t, a[..], b[..], i, j);
    match t.kind
    case Group(subs) =>
      i', j' := i, j;
      assert subs[0..] == subs;
      var k := 0;
      while k < |subs|
        invariant k <= |subs| && WellFormedAll(subs[k..])
        invariant i' + SizeAll(subs[k..]) == i + Size(t) && j' + SizeAll(subs[k..]) == j + Size(t)
        invariant AfterAll(f, subs[k..], a[..], b[..], i', j') == AfterCells(f, t, old(a[..]), b[..], i, j)
      {
        assert subs[k..][1..] == subs[k + 1..];
        NextCells(f, subs[k..], a[..], b[..], i', j');
        i', j' := Subtract(f, subs[k], a, b, i', j');
        k := k + 1;
      }
      assert subs[k..] == [];
      NoMoreCells(f, a[..], b[..], i', j');
    case IntCells(n) =>
      SubtractInts(a, b, i, j, n);
      i', j' := i + n, j + n;
    case FloatCells(n) =>
      SubtractFloats(f, a, b, i, j, n);
      i', j' := i + n, j + n;
    case TextCells(n) =>
      i', j' := i + n, j + n;
  }

  lemma AfterCellsAt(f: DoubleSub, t: Template, p: seq<Word>, q: seq<Word>, i: nat, j: nat)
    requires i + Size(t) <= |p| && j + Size(t) <= |q|
    ensures var r := AfterCells(f, t, p, q, i, j);
            && (forall k | 0 <= k < Size(t) :: IsDifference(f, Cells(t)[k], p[i + k], q[j + k], r[i + k]))
            && (forall k | 0 <= k < |p| && !(i <= k < i + Size(t)) :: r[k] == p[k])
  {
    hide IsDifference, Cells, SubWords;
    SubWordsAt(f, t, p[i..], q[j..]);
    var r := SubWords(f, t, p[i..], q[j..]);
    forall k | i + Size(t) <= k < |p|
      ensures AfterCells(f, t, p, q, i, j)[k] == p[k]
    {
      assert r[k - i] == r[Size(t)..][k - i - Size(t)] == p[i..][Size(t)..][k - i - Size(t)];
    }
  }

  /** What the record becomes, by the kind of the template. */
  lemma GroupCells(f: DoubleSub, t: Template, p: seq<Word>, q: seq<Word>, i: nat, j: nat)
    requires i + Size(t) <= |p| && j + Size(t) <= |q|
    ensures AfterCells(f, t, p, q, i, j) ==
              match t.kind
              case Group(subs) => AfterAll(f, subs, p, q, i, j)
              case IntCells(n) => p[..i] + (IntsSub(p[i..][..n], q[j..][..n]) + p[i..][n..])
              case FloatCells(n) => p[..i] + (FloatsSub(f, p[i..][..n], q[j..][..n]) + p[i..][n..])
              case TextCells(n) => p
  {
    hide IntsSub, FloatsSub, SubWordsAll;
  }

  lemma NoMoreCells(f: DoubleSub, p: seq<Word>, q: seq<Word>, i: nat, j: nat)
    requires i <= |p| && j <= |q|
    ensures AfterAll(f, [], p, q, i, j) == p
  {
  }

  /** Subtracting the first template in place and then the others is subtracting all of them. */
  lemma NextCells(f: DoubleSub, ts: seq<Template>, p: seq<Word>, q: seq<Word>, i: nat, j: nat)
    requires ts != [] && i + SizeAll(ts) <= |p| && j + SizeAll(ts) <= |q|
    ensures
      var n := Size(ts[0]);
      && i + n + SizeAll(ts[1..]) <= |p| && j + n + SizeAll(ts[1..]) <= |q|
      && AfterAll(f, ts[1..], AfterCells(f, ts[0], p, q, i, j), q, i + n, j + n) == AfterAll(f, ts, p, q, i, j)
  {
    hide SubWords, SubWordsAll, Size;
    var n := Size(ts[0]);
    var head := SubWords(f, ts[0], p[i..], q[j..]);
    assert n + SizeAll(ts[1..]) == SizeAll(ts);
    SplitReplaced(p, head, i, n);
    assert q[j..][n..] == q[j + n..];
    FirstCells(f, ts, p[i..], q[j..]);
    Regroup(p[..i], head[..n], SubWordsAll(f, ts[1..], p[i..][n..], q[j + n..]));
  }

  lemma Regroup(a: seq<Word>, b: seq<Word>, c: seq<Word>)
    ensures a + b + c == a + (b + c)
  {
  }

  lemma FirstCells(f: DoubleSub, ts: seq<Template>, p: seq<Word>, q: seq<Word>)
    requires ts != [] && SizeAll(ts) <= |p| && SizeAll(ts) <= |q|
    ensures
      var n := Size(ts[0]);
      SubWordsAll(f, ts, p, q) == SubWords(f, ts[0], p, q)[..n] + SubWordsAll(f, ts[1..], p[n..], q[n..])
  {
  }

  lemma SplitReplaced(p: seq<Word>, head: seq<Word>, i: nat, n: nat)
    requires i + n <= |p| && |head| == |p| - i && head[n..] == p[i..][n..]
    ensures (p[..i] + head)[i + n..] == p[i..][n..]
    ensures (p[..i] + head)[..i + n] == p[..i] + head[..n]
  {
    assert (p[..i] + head)[i + n..] == head[n..];
  }
}
