/**
 Statistics trees: nodes holding integers, doubles or strings, with children found by name; and
 templates, which describe how a tree is laid out in a flat record of 64-bit words.
 */
module StatsTree {
  import opened LittleEndian

  type Word = x: nat | x < 0x1_0000_0000_0000_0000

  /** The characters of a C string, without the terminating null. */
  type Text = seq<Byte>

  datatype Option<T> = None | Some(value: T)

  /** The data of a node; one element is a scalar, more an array. Doubles are raw words. */
  datatype Value =
    | Null(count: nat)
    | Ints(ints: seq<Word>)
    | Floats(floats: seq<Word>)
    | Texts(texts: seq<Text>)
  {
    function Count(): nat {
      match this
      case Null(n) => n
      case Ints(ws) => |ws|
      case Floats(ws) => |ws|
      case Texts(ts) => |ts|
    }
  }

  datatype Bounds = Bounds(min: Word, max: Word, stride: Word)

  /** The children are listed in the order in which the hash table of the node enumerates them. */
  datatype Node = Node(name: Text, value: Value,
                       summable: bool, identical: bool, histogram: bool, labeled: bool,
                       labels: seq<Text>, bounds: Bounds, subs: seq<Node>)

  function Plain(name: Text, value: Value): Node {
    Node(name, value, false, false, false, false, [], Bounds(0, 0, 0), [])
  }

  // ---- The hash table of children

  /** The bucket of each name, for an arbitrary hash function. */
  type Buckets = map<Text, nat>

  function BucketOf(h: Buckets, name: Text): nat {
    if name in h then h[name] else 0
  }

  function Removed(subs: seq<Node>, name: Text): seq<Node> {
    if subs == [] then []
    else if subs[0].name == name then subs[1..]
    else [subs[0]] + Removed(subs[1..], name)
  }

  /** Adds a node at the head of its bucket. */
  function Placed(h: Buckets, subs: seq<Node>, n: Node): seq<Node> {
    if subs == [] || BucketOf(h, n.name) <= BucketOf(h, subs[0].name) then [n] + subs
    else [subs[0]] + Placed(h, subs[1..], n)
  }

  /** Adds a child, replacing the one of the same name. */
  function Insert(h: Buckets, subs: seq<Node>, n: Node): seq<Node> {
    Placed(h, Removed(subs, n.name), n)
  }

  ghost predicate DistinctNames(ns: seq<Node>) {
    forall i, j | 0 <= i < j < |ns| :: ns[i].name != ns[j].name
  }

  // ---- Templates

  datatype Kind =
    | Group(subs: seq<Template>)
    | IntCells(count: nat)
    | FloatCells(count: nat)
    | TextCells(limit: nat) // in words

  datatype Template = Template(name: Text, kind: Kind,
                               summable: bool, identical: bool, histogram: bool, labeled: bool,
                               labels: seq<Text>, bounds: Bounds)

  /** The number of words of the flat record described by a template. */
  function Size(t: Template): nat {
    match t.kind
    case Group(subs) => SizeAll(subs)
    case IntCells(n) => n
    case FloatCells(n) => n
    case TextCells(n) => n
  }

  function SizeAll(ts: seq<Template>): nat {
    if ts == [] then 0 else Size(ts[0]) + SizeAll(ts[1..])
  }

  /** Cells come in positive numbers, and labeled cells have one label each. */
  predicate WellFormed(t: Template) {
    match t.kind
    case Group(subs) => WellFormedAll(subs)
    case IntCells(n) => 1 <= n && (t.labeled ==> |t.labels| == n)
    case FloatCells(n) => 1 <= n
    case TextCells(n) => true
  }

  predicate WellFormedAll(ts: seq<Template>) {
    ts == [] || (WellFormed(ts[0]) && WellFormedAll(ts[1..]))
  }

  // ---- C strings in words

  function BeforeNul(bs: seq<Byte>): Text {
    if bs == [] || bs[0] == 0 then [] else [bs[0]] + BeforeNul(bs[1..])
  }

  /** The C string that starts with the first word; it may run on through all the words. */
  function CText(ws: seq<Word>): Text {
    if ws == [] then []
    else
      var bs := Encode(ws[0], 8);
      if 0 in bs then BeforeNul(bs) else bs + CText(ws[1..])
  }

  // ---- Strings and the cells behind them

  /** What a word of a record is part of. */
  datatype Cell = TextCell | IntCell | FloatCell

  function Repeated(c: Cell, n: nat): (r: seq<Cell>)
    ensures |r| == n
  {
    if n == 0 then [] else [c] + Repeated(c, n - 1)
  }

  /** What the words of the template's record are. */
  function Cells(t: Template): (r: seq<Cell>)
    ensures |r| == Size(t)
    decreases t
  {
    match t.kind
    case Group(subs) => CellsAll(subs)
    case IntCells(n) => Repeated(IntCell, n)
    case FloatCells(n) => Repeated(FloatCell, n)
    case TextCells(n) => Repeated(TextCell, n)
  }

  function CellsAll(ts: seq<Template>): (r: seq<Cell>)
    ensures |r| == SizeAll(ts)
    decreases ts
  {
    if ts == [] then [] else Cells(ts[0]) + CellsAll(ts[1..])
  }

  /** The string that starts with the first word ends before the first cell with a number. */
  predicate Stops(p: seq<Word>, cells: seq<Cell>)
    requires |cells| <= |p|
  {
    cells == [] || (cells[0].TextCell? && (0 in Encode(p[0], 8) || Stops(p[1..], cells[1..])))
  }

  /** Every string of the template ends before the next number; behind the template are more cells. */
  predicate Contained(t: Template, p: seq<Word>, behind: seq<Cell>)
    requires Size(t) + |behind| <= |p|
    decreases t
  {
    match t.kind
    case Group(subs) => ContainedAll(subs, p, behind)
    case TextCells(n) => Stops(p, Cells(t) + behind)
    case _ => true
  }

  predicate ContainedAll(ts: seq<Template>, p: seq<Word>, behind: seq<Cell>)
    requires SizeAll(ts) + |behind| <= |p|
    decreases ts
  {
    ts == [] || (Contained(ts[0], p, CellsAll(ts[1..]) + behind) && ContainedAll(ts[1..], p[Size(ts[0])..], behind))
  }

  // ---- Building a tree from a flat record

  /** One child per label, with the value of its cell. */
  function LabelNodes(h: Buckets, labels: seq<Text>, p: seq<Word>, acc: seq<Node>): seq<Node>
    requires |labels| <= |p|
  {
    if labels == [] then acc
    else LabelNodes(h, labels[1..], p[1..], Insert(h, acc, Plain(labels[0], Ints([p[0]]))))
  }

  /** The tree that the template describes in the words from the cursor on. */
  function Reconstruct(h: Buckets, t: Template, p: seq<Word>): Node
    requires WellFormed(t) && Size(t) <= |p|
    decreases t
  {
    match t.kind
    case Group(subs) =>
      Plain(t.name, Null(1)).(summable := t.summable, identical := t.identical,
                              subs := ReconstructAll(h, subs, p, []))
    case IntCells(n) =>
      if n == 1 then Plain(t.name, Ints(p[..1]))
      else
        Plain(t.name, Ints(p[..n])).(histogram := t.histogram, bounds := t.bounds, labeled := t.labeled,
                                     labels := if t.labeled then t.labels else [],
                                     subs := if t.labeled then LabelNodes(h, t.labels, p, []) else [])
    case FloatCells(n) => Plain(t.name, Floats(p[..n]))
    case TextCells(n) => Plain(t.name, Texts([CText(p)]))
  }

  function ReconstructAll(h: Buckets, ts: seq<Template>, p: seq<Word>, acc: seq<Node>): seq<Node>
    requires WellFormedAll(ts) && SizeAll(ts) <= |p|
    decreases ts
  {
    if ts == [] then acc
    else ReconstructAll(h, ts[1..], p[Size(ts[0])..], Insert(h, acc, Reconstruct(h, ts[0], p)))
  }

  // ---- Building it step by step

  method RebuildLabels(h: Buckets, labels: seq<Text>, p: array<Word>, i: nat) returns (subs: seq<Node>)
    requires i + |labels| <= p.Length
    ensures subs == LabelNodes(h, labels, p[i..], [])
  {
    hide Insert;
    subs := [];
    assert labels[0..] == labels;
    var k := 0;
    while k < |labels|
      invariant k <= |labels|
      invariant LabelNodes(h, labels[k..], p[i + k..], subs) == LabelNodes(h, labels, p[i..], [])
    {
      assert labels[k..][1..] == labels[k + 1..] && p[i + k..][1..] == p[i + k + 1..];
      subs := Insert(h, subs, Plain(labels[k], Ints([p[i + k]])));
      k := k + 1;
    }
    assert labels[k..] == [];
  }

  /** Builds the tree of a template from the words at the cursor, and moves the cursor past them. */
  method Rebuild(h: Buckets, t: Template, p: array<Word>, i: nat) returns (ds: Node, i': nat)
    requires WellFormed(t) && i + Size(t) <= p.Length
    ensures ds == Reconstruct(h, t, p[i..]) && i' == i + Size(t)
    decreases t
  {
    hide Insert, LabelNodes, CText, ReconstructAll;
    match t.kind
    case Group(subs) =>
      var nodes: seq<Node> := [];
      i' := i;
      AllParts(h, subs, p[i..]);
      var k := 0;
      while k < |subs|
        invariant k <= |subs| && WellFormedAll(subs[k..])
        invariant i' + SizeAll(subs[k..]) == i + Size(t)
        invariant ReconstructAll(h, subs[k..], p[i'..], nodes) == ReconstructAll(h, subs, p[i..], [])
      {
        NextPart(h, subs, k, p[..], i', nodes);
        var sub;
        sub, i' := Rebuild(h, subs[k], p, i');
        nodes := Insert(h, nodes, sub);
        k := k + 1;
      }
      AllParts(h, subs, p[i'..]);
      ds := Plain(t.name, Null(1)).(summable := t.summable, identical := t.identical, subs := nodes);
    case IntCells(n) =>
      i' := i + n;
      if n == 1 {
        ds := Plain(t.name, Ints(p[i..][..1]));
      } else {
        ds := Plain(t.name, Ints(p[i..][..n])).(histogram := t.histogram, bounds := t.bounds, labeled := t.labeled);
        if t.labeled {
          var nodes := RebuildLabels(h, t.labels, p, i);
          ds := ds.(labels := t.labels, subs := nodes);
        }
      }
    case FloatCells(n) =>
      ds, i' := Plain(t.name, Floats(p[i..][..n])), i + n;
    case TextCells(n) =>
      ds, i' := Plain(t.name, Texts([CText(p[i..])])), i + n;
  }

  lemma AllParts(h: Buckets, ts: seq<Template>, p: seq<Word>)
    ensures ts[0..] == ts
    ensures SizeAll(ts[|ts|..]) == 0
    ensures forall acc :: ReconstructAll(h, ts[|ts|..], p, acc) == acc
  {
    assert ts[|ts|..] == [];
  }

  lemma NextPart(h: Buckets, ts: seq<Template>, k: nat, p: seq<Word>, i: nat, acc: seq<Node>)
    requires k < |ts| && i <= |p| && WellFormedAll(ts[k..]) && i + SizeAll(ts[k..]) <= |p|
    ensures WellFormed(ts[k]) && WellFormedAll(ts[k + 1..])
    ensures SizeAll(ts[k..]) == Size(ts[k]) + SizeAll(ts[k + 1..])
    ensures ReconstructAll(h, ts[k..], p[i..], acc)
         == ReconstructAll(h, ts[k + 1..], p[i + Size(ts[k])..], Insert(h, acc, Reconstruct(h, ts[k], p[i..])))
  {
    hide Insert, Reconstruct;
    assert ts[k..][1..] == ts[k + 1..];
    assert p[i..][Size(ts[k])..] == p[i + Size(ts[k])..];
  }
}
