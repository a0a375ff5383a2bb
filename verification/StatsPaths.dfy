/**
 What a rebuilt tree says: the node at a path of names holds the words of the part of the template
 at that path.
 */
module StatsPaths {
  import opened StatsStrings
  import opened StatsTree

  /** The child of a name. */
  function Child(ns: seq<Node>, name: Text): Option<Node> {
    if ns == [] then None
    else if ns[0].name == name then Some(ns[0])
    else Child(ns[1..], name)
  }

  function Lookup(n: Node, path: seq<Text>): Option<Node>
    decreases |path|
  {
    if path == [] then Some(n)
    else
      var c := Child(n.subs, path[0]);
      if c.None? then None else Lookup(c.value, path[1..])
  }

  /** A part of a template, and where its words start. */
  datatype Located = Located(part: Template, offset: nat)

  function Part(ts: seq<Template>, name: Text): Option<Located> {
    if ts == [] then None
    else if ts[0].name == name then Some(Located(ts[0], 0))
    else
      var l := Part(ts[1..], name);
      if l.None? then None else Some(Located(l.value.part, Size(ts[0]) + l.value.offset))
  }

  function Locate(t: Template, path: seq<Text>): Option<Located>
    decreases |path|
  {
    if path == [] then Some(Located(t, 0))
    else if !t.kind.Group? then None
    else
      var here := Part(t.kind.subs, path[0]);
      if here.None? then None
      else
        var below := Locate(here.value.part, path[1..]);
        if below.None? then None else Some(Located(below.value.part, here.value.offset + below.value.offset))
  }

  // ---- Children by name

  lemma {:induction false} ChildOf(ns: seq<Node>, x: Node)
    requires DistinctNames(ns)
    ensures x in ns <==> Child(ns, x.name) == Some(x)
  {
    if ns != [] {
      assert DistinctNames(ns[1..]) by {
        assert forall i | 0 <= i < |ns| - 1 :: ns[1..][i] == ns[i + 1];
      }
      ChildOf(ns[1..], x);
      assert ns == [ns[0]] + ns[1..];
      if x in ns[1..] {
        var i :| 0 <= i < |ns[1..]| && ns[1..][i] == x;
        assert ns[i + 1] == x;
      }
    }
  }

  lemma {:induction false} ChildIsIn(ns: seq<Node>, name: Text)
    ensures Child(ns, name).Some? ==> Child(ns, name).value in ns && Child(ns, name).value.name == name
    ensures Child(ns, name).None? ==> forall x | x in ns :: x.name != name
  {
    if ns != [] {
      ChildIsIn(ns[1..], name);
      assert ns == [ns[0]] + ns[1..];
    }
  }

  /** Every child was there before, or is that of a part. */
  lemma {:induction false} ChildrenFrom(h: Buckets, ts: seq<Template>, p: seq<Word>, acc: seq<Node>, x: Node)
    requires WellFormedAll(ts) && SizeAll(ts) <= |p| && DistinctNames(acc)
    requires x in ReconstructAll(h, ts, p, acc)
    ensures x in acc || !NotNamed(ts, x.name)
    decreases ts
  {
    hide Reconstruct, Insert, DistinctNames;
    if ts != [] {
      var n := Reconstruct(h, ts[0], p);
      ReconstructName(h, ts[0], p);
      InsertNames(h, acc, n);
      ChildrenFrom(h, ts[1..], p[Size(ts[0])..], Insert(h, acc, n), x);
      if x !in acc && x != n {
        var i :| 0 <= i < |ts[1..]| && ts[1..][i].name == x.name;
        assert ts[i + 1].name == x.name;
      }
    }
  }

  /** The child for a part is what the words of that part give. */
  lemma {:induction false} PartIsChild(h: Buckets, ts: seq<Template>, p: seq<Word>, acc: seq<Node>, name: Text)
    requires WellFormedAll(ts) && UniqueNamesAll(ts) && SizeAll(ts) <= |p| && DistinctNames(acc)
    requires Part(ts, name).Some?
    ensures
      var l := Part(ts, name).value;
      && WellFormed(l.part) && UniqueNames(l.part) && l.part.name == name && l.offset + Size(l.part) <= SizeAll(ts)
      && Reconstruct(h, l.part, p[l.offset..]) in ReconstructAll(h, ts, p, acc)
    decreases ts
  {
    hide Reconstruct, Insert, DistinctNames;
    var n := Reconstruct(h, ts[0], p);
    ReconstructName(h, ts[0], p);
    InsertNames(h, acc, n);
    if ts[0].name == name {
      assert p[0..] == p;
      ChildStays(h, ts[1..], p[Size(ts[0])..], Insert(h, acc, n), n);
    } else {
      PartIsChild(h, ts[1..], p[Size(ts[0])..], Insert(h, acc, n), name);
      var l := Part(ts[1..], name).value;
      assert p[Size(ts[0])..][l.offset..] == p[Size(ts[0]) + l.offset..];
    }
  }

  lemma {:induction false} PartMissing(ts: seq<Template>, name: Text)
    ensures Part(ts, name).None? <==> NotNamed(ts, name)
  {
    if ts != [] {
      PartMissing(ts[1..], name);
      assert ts == [ts[0]] + ts[1..];
      assert forall i | 0 <= i < |ts| - 1 :: ts[1..][i] == ts[i + 1];
    }
  }

  /** The node at a path is what the words of the part there give. */
  lemma {:induction false} NodeAtPath(h: Buckets, t: Template, p: seq<Word>, path: seq<Text>)
    requires WellFormed(t) && UniqueNames(t) && Size(t) <= |p| && Locate(t, path).Some?
    ensures
      var l := Locate(t, path).value;
      && WellFormed(l.part) && l.offset + Size(l.part) <= Size(t)
      && Lookup(Reconstruct(h, t, p), path) == Some(Reconstruct(h, l.part, p[l.offset..]))
    decreases |path|
  {
    hide Part, DistinctNames, LabelNodes, CText;
    if path == [] {
      assert p[0..] == p;
    } else {
      var here := Part(t.kind.subs, path[0]).value;
      var below := Locate(here.part, path[1..]).value;
      var subs := ReconstructAll(h, t.kind.subs, p, []);
      assert Reconstruct(h, t, p).subs == subs;
      hide Reconstruct, ReconstructAll;
      NoNodes();
      PartIsChild(h, t.kind.subs, p, [], path[0]);
      ChildrenDistinct(h, t.kind.subs, p, []);
      ReconstructName(h, here.part, p[here.offset..]);
      ChildOf(subs, Reconstruct(h, here.part, p[here.offset..]));
      NodeAtPath(h, here.part, p[here.offset..], path[1..]);
      assert p[here.offset..][below.offset..] == p[here.offset + below.offset..];
    }
  }

  lemma NoNodes()
    ensures DistinctNames([])
  {
  }

  /** A group has a child of a name exactly if it has a part of that name. */
  lemma ChildrenAreParts(h: Buckets, t: Template, p: seq<Word>, name: Text)
    requires WellFormed(t) && UniqueNames(t) && Size(t) <= |p| && t.kind.Group?
    ensures Child(Reconstruct(h, t, p).subs, name).Some? <==> Part(t.kind.subs, name).Some?
  {
    hide Part, DistinctNames, LabelNodes, CText, Insert;
    var subs := ReconstructAll(h, t.kind.subs, p, []);
    assert Reconstruct(h, t, p).subs == subs;
    hide Reconstruct, ReconstructAll;
    NoNodes();
    ChildIsIn(subs, name);
    PartMissing(t.kind.subs, name);
    if Part(t.kind.subs, name).Some? {
      PartIsChild(h, t.kind.subs, p, [], name);
      var l := Part(t.kind.subs, name).value;
      ReconstructName(h, l.part, p[l.offset..]);
    } else if Child(subs, name).Some? {
      ChildrenFrom(h, t.kind.subs, p, [], Child(subs, name).value);
    }
  }

  // ---- The contents of nodes

  ghost predicate DistinctLabels(labels: seq<Text>) {
    forall i, j | 0 <= i < j < |labels| :: labels[i] != labels[j]
  }

  /** Numbers without labels and strings have no marks and no children. */
  ghost predicate IsLeaf(n: Node) {
    !n.summable && !n.identical && !n.histogram && !n.labeled && n.labels == [] && n.subs == []
  }

  /** The node of a part with its words: name, marks and values, and one child for each label. */
  ghost predicate Describes(t: Template, ws: seq<Word>, n: Node)
    requires WellFormed(t) && Size(t) <= |ws|
  {
    && n.name == t.name
    && match t.kind
       case Group(_) =>
         && n.value == Null(1) && n.summable == t.summable && n.identical == t.identical
         && !n.histogram && !n.labeled && n.labels == []
       case IntCells(k) =>
         && n.value == Ints(ws[..k]) && !n.summable && !n.identical && (k == 1 ==> IsLeaf(n))
         && (n.histogram <==> t.histogram && k > 1) && (n.labeled <==> t.labeled && k > 1)
         && (k > 1 ==> n.bounds == t.bounds)
         && (n.labeled ==> n.labels == t.labels)
         && (n.labeled && DistinctLabels(t.labels) ==>
               forall i | 0 <= i < k ::
                 var c := Child(n.subs, t.labels[i]);
                 c.Some? && IsLabel(c.value, t.labels[i], ws[i]))
       case FloatCells(k) => n.value == Floats(ws[..k]) && IsLeaf(n)
       case TextCells(_) => n.value == Texts([CText(ws)]) && IsLeaf(n)
  }

  ghost predicate IsLabel(n: Node, name: Text, w: Word) {
    n.name == name && n.value == Ints([w]) && IsLeaf(n)
  }

  lemma {:induction false} LabelStays(h: Buckets, labels: seq<Text>, p: seq<Word>, acc: seq<Node>, x: Node)
    requires |labels| <= |p| && DistinctNames(acc) && x in acc && x.name !in labels
    ensures x in LabelNodes(h, labels, p, acc)
  {
    hide Insert, DistinctNames;
    if labels != [] {
      InsertNames(h, acc, Plain(labels[0], Ints([p[0]])));
      LabelStays(h, labels[1..], p[1..], Insert(h, acc, Plain(labels[0], Ints([p[0]]))), x);
    }
  }

  lemma {:induction false} LabelIsChild(h: Buckets, labels: seq<Text>, p: seq<Word>, acc: seq<Node>, i: nat)
    requires |labels| <= |p| && DistinctNames(acc) && DistinctLabels(labels) && i < |labels|
    ensures Plain(labels[i], Ints([p[i]])) in LabelNodes(h, labels, p, acc)
    ensures DistinctNames(LabelNodes(h, labels, p, acc))
  {
    hide Insert, DistinctNames;
    var n := Plain(labels[0], Ints([p[0]]));
    InsertNames(h, acc, n);
    if i == 0 {
      LabelStays(h, labels[1..], p[1..], Insert(h, acc, n), n);
    } else {
      assert DistinctLabels(labels[1..]);
      LabelIsChild(h, labels[1..], p[1..], Insert(h, acc, n), i - 1);
    }
    LabelsDistinct(h, labels, p, acc);
  }

  lemma {:induction false} LabelsDistinct(h: Buckets, labels: seq<Text>, p: seq<Word>, acc: seq<Node>)
    requires |labels| <= |p| && DistinctNames(acc)
    ensures DistinctNames(LabelNodes(h, labels, p, acc))
  {
    hide Insert, DistinctNames;
    if labels != [] {
      InsertNames(h, acc, Plain(labels[0], Ints([p[0]])));
      LabelsDistinct(h, labels[1..], p[1..], Insert(h, acc, Plain(labels[0], Ints([p[0]]))));
    }
  }

  lemma ReconstructDescribes(h: Buckets, t: Template, p: seq<Word>)
    requires WellFormed(t) && Size(t) <= |p|
    ensures Describes(t, p, Reconstruct(h, t, p))
  {
    hide LabelNodes, ReconstructAll, CText, DistinctNames;
    if t.kind.IntCells? && t.labeled && t.kind.count > 1 && DistinctLabels(t.labels) {
      NoNodes();
      forall i | 0 <= i < t.kind.count
        ensures Child(LabelNodes(h, t.labels, p, []), t.labels[i]) == Some(Plain(t.labels[i], Ints([p[i]])))
      {
        LabelIsChild(h, t.labels, p, [], i);
        ChildOf(LabelNodes(h, t.labels, p, []), Plain(t.labels[i], Ints([p[i]])));
      }
    }
  }

  /** Every part of the template is found at its path, with its marks and the words that belong to it. */
  lemma RebuiltTree(h: Buckets, t: Template, p: seq<Word>, path: seq<Text>)
    requires WellFormed(t) && UniqueNames(t) && Size(t) <= |p| && Locate(t, path).Some?
    ensures
      var l, n := Locate(t, path).value, Lookup(Reconstruct(h, t, p), path);
      && n.Some? && WellFormed(l.part) && l.offset + Size(l.part) <= Size(t)
      && Describes(l.part, p[l.offset..], n.value)
  {
    hide Describes, Reconstruct, Lookup, Locate;
    NodeAtPath(h, t, p, path);
    ReconstructDescribes(h, Locate(t, path).value.part, p[Locate(t, path).value.offset..]);
  }
}
