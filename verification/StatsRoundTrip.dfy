/** Reading a written statistics tree gives back the same tree and consumes exactly its bytes. */
module StatsRoundTrip {
  import opened LittleEndian
  import opened StatsFormat
  import opened StatsTree

  /** What a tree says, with children found by name: the labels and bounds that are not stored are left out. */
  datatype Tree = Tree(name: Text, value: Value,
                       summable: bool, identical: bool, histogram: bool, labeled: bool,
                       labels: seq<Text>, bounds: Bounds, subs: map<Text, Tree>)

  function Content(n: Node): Tree {
    Tree(n.name, n.value, n.summable, n.identical, n.histogram, n.labeled,
         if HasLabels(n) then n.labels else [],
         if IsArray(n) then n.bounds else Bounds(0, 0, 0),
         Children(n.subs))
  }

  function Children(ns: seq<Node>): map<Text, Tree> {
    if ns == [] then map[] else Children(ns[1..])[ns[0].name := Content(ns[0])]
  }

  // ---- Trees that can be written

  predicate GoodText(t: Text, limit: nat) {
    |t| < limit && 0 !in t
  }

  predicate GoodTexts(ts: seq<Text>) {
    forall t | t in ts :: GoodText(t, 65536)
  }

  /** Lengths and counts fit their fields, counts are positive, and every label of a labeled histogram is there. */
  ghost predicate GoodSelf(n: Node) {
    && GoodText(n.name, 256)
    && 1 <= n.value.Count() < 0x1_0000_0000
    && (n.value.Texts? ==> GoodTexts(n.value.texts))
    && (HasLabels(n) ==> |n.labels| == n.value.Count() && GoodTexts(n.labels))
    && |n.subs| < 0x1_0000_0000 && DistinctNames(n.subs)
  }

  ghost predicate Good(n: Node)
    decreases n
  {
    GoodSelf(n) && GoodAll(n.subs)
  }

  ghost predicate GoodAll(ns: seq<Node>)
    decreases ns
  {
    ns == [] || (Good(ns[0]) && GoodAll(ns[1..]))
  }

  // ---- Fields

  lemma TakePutNum(x: nat, k: nat, rest: seq<Byte>)
    requires x < Limit(k)
    ensures TakeNum(Encode(x, k) + rest, k) == Ok(x, rest)
  {
    DecodeEncode(x, k);
    assert (Encode(x, k) + rest)[..k] == Encode(x, k);
    assert (Encode(x, k) + rest)[k..] == rest;
  }

  lemma TakePutWord(w: Word, rest: seq<Byte>)
    ensures TakeWord(Encode(w, 8) + rest) == Ok(w, rest)
  {
    EightBytes();
    TakePutNum(w, 8, rest);
  }

  lemma {:induction false} BeforeNulAll(t: Text, tail: seq<Byte>)
    requires 0 !in t && (tail == [] || tail[0] == 0)
    ensures BeforeNul(t + tail) == t
  {
    if t == [] {
      assert t + tail == tail;
    } else {
      assert (t + tail)[1..] == t[1..] + tail;
      BeforeNulAll(t[1..], tail);
    }
  }

  lemma TakePutText(t: Text, rest: seq<Byte>)
    requires 0 !in t
    ensures TakeText(t + rest, |t|) == Ok(t, rest)
    ensures TakeText(t + [0] + rest, |t| + 1) == Ok(t, rest)
  {
    BeforeNulAll(t, []);
    assert t + [] == t;
    BeforeNulAll(t, [0]);
    assert (t + rest)[..|t|] == t && (t + rest)[|t|..] == rest;
    assert (t + [0] + rest)[..|t| + 1] == t + [0] && (t + [0] + rest)[|t| + 1..] == rest;
  }

  lemma {:induction false} TakePutWords(ws: seq<Word>, rest: seq<Byte>)
    ensures TakeWords(PutWords(ws, rest), |ws|) == Ok(ws, rest)
  {
    hide TakeWord;
    if ws != [] {
      TakePutWord(ws[0], PutWords(ws[1..], rest));
      TakePutWords(ws[1..], rest);
      assert [ws[0]] + ws[1..] == ws;
    }
  }

  lemma TwoBytes()
    ensures Limit(1) == 256 && Limit(2) == 65536 && Limit(4) == 0x1_0000_0000
  {
  }

  lemma {:induction false} TakePutTexts(ts: seq<Text>, rest: seq<Byte>)
    requires GoodTexts(ts)
    ensures TakeTexts(PutTexts(ts, rest), |ts|) == Ok(ts, rest)
  {
    if ts != [] {
      var t, more := ts[0], PutTexts(ts[1..], rest);
      assert GoodText(t, 65536);
      TwoBytes();
      hide TakeNum, TakeText, Limit, Encode;
      TakePutNum(|t|, 2, t + [0] + more);
      TakePutText(t, more);
      TakePutTexts(ts[1..], rest);
      assert [t] + ts[1..] == ts;
    }
  }

  lemma CutWhole(t: Text)
    requires |t| < 65536
    ensures Cut(t) == t
  {
  }

  lemma {:induction false} TakePutLabels(ts: seq<Text>, rest: seq<Byte>)
    requires GoodTexts(ts)
    ensures TakeLabels(PutLabels(ts, rest), |ts|) == Ok(ts, rest)
  {
    if ts != [] {
      var t, more := ts[0], PutLabels(ts[1..], rest);
      assert GoodText(t, 65536);
      TwoBytes();
      CutWhole(t);
      hide TakeNum, TakeText, Limit, Encode, Cut;
      TakePutNum(|t|, 2, t + more);
      TakePutText(t, more);
      TakePutLabels(ts[1..], rest);
      assert [t] + ts[1..] == ts;
    }
  }

  lemma TakePutValue(v: Value, rest: seq<Byte>)
    requires v.Texts? ==> GoodTexts(v.texts)
    ensures TakeValue(PutValue(v, rest), TypeCode(v), v.Count()) == Ok(v, rest)
  {
    hide TakeWords, TakeTexts, PutWords, PutTexts;
    match v
    case Null(_) =>
    case Ints(ws) => TakePutWords(ws, rest);
    case Floats(ws) => TakePutWords(ws, rest);
    case Texts(ts) => TakePutTexts(ts, rest);
  }

  // ---- The layout of a node

  lemma NumberFirst(x: nat, k: nat, rest: seq<Byte>)
    requires x < Limit(k)
    ensures NumberAt(Encode(x, k) + rest, 0, k, x)
  {
    DecodeEncode(x, k);
    assert (Encode(x, k) + rest)[0..k] == Encode(x, k);
  }

  lemma NumberBehind(front: seq<Byte>, bs: seq<Byte>, at: nat, k: nat, x: nat)
    requires NumberAt(bs, at, k, x)
    ensures NumberAt(front + bs, |front| + at, k, x)
  {
    assert (front + bs)[|front| + at..|front| + at + k] == bs[at..at + k];
  }

  lemma ByteFirst(b: Byte, rest: seq<Byte>)
    ensures NumberAt([b] + rest, 0, 1, b)
  {
    assert ([b] + rest)[0..1] == [b] && [b][1..] == [];
    assert Decode([b]) == b + 256 * Decode([]) && Decode([]) == 0;
  }

  /** The numbers of a header in its bytes. */
  lemma HeaderNumbers(a: seq<Byte>, b: Byte, c: Byte, d: seq<Byte>, e: seq<Byte>, rest: seq<Byte>,
               magic: nat, flags: nat, subs: nat)
    requires magic < Limit(4) && flags < Limit(2) && subs < Limit(4)
    requires a == Encode(magic, 4) && d == Encode(flags, 2) && e == Encode(subs, 4)
    ensures var bs := a + ([b] + ([c] + (d + (e + rest))));
            && NumberAt(bs, 0, 4, magic) && NumberAt(bs, 4, 1, b) && NumberAt(bs, 5, 1, c)
            && NumberAt(bs, 6, 2, flags) && NumberAt(bs, 8, 4, subs)
  {
    hide Encode, Limit, NumberAt;
    NumberFirst(magic, 4, [b] + ([c] + (d + (e + rest))));
    ByteFirst(b, [c] + (d + (e + rest)));
    NumberBehind(a, [b] + ([c] + (d + (e + rest))), 0, 1, b);
    ByteFirst(c, d + (e + rest));
    NumberBehind([b], [c] + (d + (e + rest)), 0, 1, c);
    NumberBehind(a, [b] + ([c] + (d + (e + rest))), 1, 1, c);
    NumberFirst(flags, 2, e + rest);
    NumberBehind([c], d + (e + rest), 0, 2, flags);
    NumberBehind([b], [c] + (d + (e + rest)), 1, 2, flags);
    NumberBehind(a, [b] + ([c] + (d + (e + rest))), 2, 2, flags);
    NumberFirst(subs, 4, rest);
    NumberBehind(d, e + rest, 0, 4, subs);
    NumberBehind([c], d + (e + rest), 2, 4, subs);
    NumberBehind([b], [c] + (d + (e + rest)), 3, 4, subs);
    NumberBehind(a, [b] + ([c] + (d + (e + rest))), 4, 4, subs);
  }

  /** Where the fields of a written node are, and what they say. */
  lemma NodeLayout(n: Node, rest: seq<Byte>)
    requires GoodText(n.name, 256) && |n.subs| < 0x1_0000_0000
    ensures var bs := Put(n, rest);
            && NumberAt(bs, 0, 4, 0x334c_5450)
            && NumberAt(bs, 4, 1, match n.value case Null(_) => 0 case Ints(_) => 1 case Floats(_) => 2 case Texts(_) => 4)
            && NumberAt(bs, 5, 1, |n.name|)
            && NumberAt(bs, 6, 2, (if n.value.Count() > 1 then 1 else 0) + (if n.summable then 2 else 0)
                                  + (if n.histogram then 4 else 0) + (if n.identical then 8 else 0) + (if n.labeled then 16 else 0))
            && NumberAt(bs, 8, 4, |n.subs|)
  {
    TwoBytes();
    hide PutAll, PutArrayHeader, PutLabels, PutValue, HasLabels, Encode, Limit, NumberAt;
    var named := n.name + [0] + (if HasLabels(n) then PutLabels(n.labels, PutValue(n.value, PutAll(n.subs, rest)))
                                 else PutValue(n.value, PutAll(n.subs, rest)));
    var body := if IsArray(n) then PutArrayHeader(n, named) else named;
    assert Put(n, rest) == PutHeader(n, body);
    HeaderNumbers(Encode(DSN_MAGIC, 4), TypeCode(n.value), |n.name| % 256, Encode(Flags(n), 2), Encode(|n.subs|, 4), body,
           DSN_MAGIC, Flags(n), |n.subs|);
  }

  // ---- One node

  lemma TakePutHeader(n: Node, rest: seq<Byte>)
    requires GoodSelf(n)
    ensures TakeHeader(PutHeader(n, rest)) == Ok(Header(DSN_MAGIC, TypeCode(n.value), |n.name|, Flags(n), |n.subs|), rest)
  {
    TwoBytes();
    hide TakeNum, Limit, Encode, TypeCode;
    var rest5 := Encode(|n.subs|, 4) + rest;
    var rest4 := Encode(Flags(n), 2) + rest5;
    var rest3 := [|n.name|] + rest4;
    var rest2 := [TypeCode(n.value)] + rest3;
    OneByte(|n.name|);
    OneByte(TypeCode(n.value));
    TakePutNum(DSN_MAGIC, 4, rest2);
    TakePutNum(TypeCode(n.value), 1, rest3);
    TakePutNum(|n.name|, 1, rest4);
    TakePutNum(Flags(n), 2, rest5);
    TakePutNum(|n.subs|, 4, rest);
  }

  lemma OneByte(x: Byte)
    ensures Encode(x, 1) == [x]
  {
  }

  lemma TakePutArrayHeader(n: Node, rest: seq<Byte>)
    requires n.value.Count() < 0x1_0000_0000
    ensures TakeArrayHeader(PutArrayHeader(n, rest)) == Ok(ArrayHeader(n.value.Count(), n.bounds), rest)
  {
    TwoBytes();
    hide TakeNum, TakeWord, Limit, Encode;
    var rest5 := Encode(n.bounds.stride, 8) + rest;
    var rest4 := Encode(n.bounds.max, 8) + rest5;
    var rest3 := Encode(n.bounds.min, 8) + rest4;
    TakePutNum(n.value.Count(), 4, Encode(0, 4) + rest3);
    TakePutNum(0, 4, rest3);
    TakePutWord(n.bounds.min, rest4);
    TakePutWord(n.bounds.max, rest5);
    TakePutWord(n.bounds.stride, rest);
  }

  lemma FlagsDecode(n: Node)
    ensures FlagSet(Flags(n), 1) == IsArray(n) && FlagSet(Flags(n), 2) == n.summable
    ensures FlagSet(Flags(n), 4) == n.histogram && FlagSet(Flags(n), 8) == n.identical
    ensures FlagSet(Flags(n), 16) == n.labeled
  {
  }

  /** The node as read, before its children: what is not stored is empty. */
  function Self(n: Node): Node {
    n.(labels := if HasLabels(n) then n.labels else [],
       bounds := if IsArray(n) then n.bounds else Bounds(0, 0, 0),
       subs := [])
  }

  function HeaderOf(n: Node): Header {
    Header(DSN_MAGIC, TypeCode(n.value), |n.name|, Flags(n), |n.subs|)
  }

  function PutNamed(n: Node, rest: seq<Byte>): seq<Byte> {
    n.name + [0] + if HasLabels(n) then PutLabels(n.labels, PutValue(n.value, rest)) else PutValue(n.value, rest)
  }

  lemma TakePutBody(n: Node, rest: seq<Byte>)
    requires GoodSelf(n)
    ensures
      var named := PutNamed(n, rest);
      TakeBody(HeaderOf(n), if IsArray(n) then PutArrayHeader(n, named) else named) == Ok(Self(n), rest)
  {
    hide TakeArrayHeader, TakeText, TakeLabels, TakeValue, PutArrayHeader, PutLabels, PutValue, Flags, FlagSet, GoodTexts;
    FlagsDecode(n);
    var named := PutNamed(n, rest);
    var labeled := if HasLabels(n) then PutLabels(n.labels, PutValue(n.value, rest)) else PutValue(n.value, rest);
    TakePutArrayHeader(n, named);
    TakePutText(n.name, labeled);
    if HasLabels(n) {
      TakePutLabels(n.labels, PutValue(n.value, rest));
    }
    TakePutValue(n.value, rest);
  }

  /** Reading what was written for a node leaves its children to be read. */
  lemma ReadPutSelf(h: Buckets, n: Node, rest: seq<Byte>)
    requires GoodSelf(n)
    ensures
      Read(h, PutSelf(n, rest)) ==
        match ReadAll(h, rest, |n.subs|, [])
        case Fail => Fail
        case Ok(subs, rest') => Ok(Self(n).(subs := subs), rest')
  {
    hide TakeHeader, TakeBody, PutHeader, PutArrayHeader, ReadAll, Flags, GoodSelf, HasLabels, IsArray, PutLabels, PutValue, Self;
    var named := PutNamed(n, rest);
    var body := if IsArray(n) then PutArrayHeader(n, named) else named;
    TakePutHeader(n, body);
    TakePutBody(n, rest);
    assert PutSelf(n, rest) == PutHeader(n, body);
  }

  // ---- Children

  lemma {:induction false} ChildrenNames(ns: seq<Node>, name: Text)
    ensures name in Children(ns) <==> exists i :: 0 <= i < |ns| && ns[i].name == name
  {
    hide Content;
    if ns != [] {
      ChildrenNames(ns[1..], name);
      if i :| 0 <= i < |ns| && ns[i].name == name && i != 0 {
        assert ns[1..][i - 1].name == name;
      }
      if j :| 0 <= j < |ns[1..]| && ns[1..][j].name == name {
        assert ns[j + 1].name == name;
      }
    }
  }

  lemma TailNames(ns: seq<Node>)
    requires ns != [] && DistinctNames(ns)
    ensures DistinctNames(ns[1..]) && ns[0].name !in Children(ns[1..])
  {
    ChildrenNames(ns[1..], ns[0].name);
  }

  lemma ConsNames(n: Node, ns: seq<Node>)
    requires DistinctNames(ns) && n.name !in Children(ns)
    ensures DistinctNames([n] + ns)
    ensures Children([n] + ns) == Children(ns)[n.name := Content(n)]
  {
    assert ([n] + ns)[1..] == ns;
    assert forall i | 0 <= i < |ns| :: ns[i].name != n.name by {
      ChildrenNames(ns, n.name);
    }
  }

  lemma {:induction false} RemovedChildren(ns: seq<Node>, name: Text)
    requires DistinctNames(ns)
    ensures DistinctNames(Removed(ns, name)) && Children(Removed(ns, name)) == Children(ns) - {name}
  {
    hide Content, DistinctNames;
    if ns != [] {
      TailNames(ns);
      RemovedChildren(ns[1..], name);
      if ns[0].name != name {
        ConsNames(ns[0], Removed(ns[1..], name));
      }
    }
  }

  lemma {:induction false} PlacedChildren(h: Buckets, ns: seq<Node>, n: Node)
    requires DistinctNames(ns) && n.name !in Children(ns)
    ensures DistinctNames(Placed(h, ns, n)) && Children(Placed(h, ns, n)) == Children(ns)[n.name := Content(n)]
  {
    hide Content, DistinctNames, BucketOf;
    ConsNames(n, ns);
    if ns != [] {
      TailNames(ns);
      PlacedChildren(h, ns[1..], n);
      ConsNames(ns[0], Placed(h, ns[1..], n));
    }
  }

  /** Adding a child sets its entry among the children found by name. */
  lemma InsertChildren(h: Buckets, ns: seq<Node>, n: Node)
    requires DistinctNames(ns)
    ensures DistinctNames(Insert(h, ns, n)) && Children(Insert(h, ns, n)) == Children(ns)[n.name := Content(n)]
  {
    hide Content, DistinctNames, Removed, Placed;
    RemovedChildren(ns, n.name);
    PlacedChildren(h, Removed(ns, n.name), n);
  }

  lemma NoChildren()
    ensures DistinctNames([]) && Children([]) == map[] && forall m: map<Text, Tree> :: map[] + m == m
  {
  }

  lemma AddFirst(m: map<Text, Tree>, rest: map<Text, Tree>, name: Text, tree: Tree)
    requires name !in rest
    ensures m[name := tree] + rest == m + rest[name := tree]
  {
  }

  lemma ContentName(m: Node, n: Node)
    requires Content(m) == Content(n)
    ensures m.name == n.name
  {
  }

  // ---- Whole trees

  lemma SelfContent(n: Node, subs: seq<Node>)
    requires Children(subs) == Children(n.subs)
    ensures Content(Self(n).(subs := subs)) == Content(n)
  {
  }

  /**
   Reading a written tree, with any bytes after it, gives a tree with the same content and leaves
   exactly those bytes.
   */
  lemma {:induction false} ReadPut(h: Buckets, n: Node, rest: seq<Byte>)
    requires Good(n)
    ensures
      var r := Read(h, Put(n, rest));
      r.Ok? && r.rest == rest && Content(r.value) == Content(n) && DistinctNames(r.value.subs)
    decreases n
  {
    hide Content, Self, Read, PutSelf, DistinctNames, ReadAll, PutAll;
    NoChildren();
    ReadPutSelf(h, n, PutAll(n.subs, rest));
    ReadPutAll(h, n.subs, rest, []);
    var subs := ReadAll(h, PutAll(n.subs, rest), |n.subs|, []).value;
    SelfContent(n, subs);
  }

  lemma {:induction false} ReadPutAll(h: Buckets, ns: seq<Node>, rest: seq<Byte>, acc: seq<Node>)
    requires GoodAll(ns) && DistinctNames(acc)
    requires DistinctNames(ns)
    ensures
      var r := ReadAll(h, PutAll(ns, rest), |ns|, acc);
      r.Ok? && r.rest == rest && Children(r.value) == Children(acc) + Children(ns) && DistinctNames(r.value)
    decreases ns
  {
    hide Content, Read, Put, DistinctNames, Good, Insert;
    if ns == [] {
      assert Children(acc) + map[] == Children(acc);
    } else {
      TailNames(ns);
      ReadPut(h, ns[0], PutAll(ns[1..], rest));
      var n := Read(h, PutAll(ns, rest)).value;
      InsertChildren(h, acc, n);
      ReadPutAll(h, ns[1..], rest, Insert(h, acc, n));
      AddFirst(Children(acc), Children(ns[1..]), ns[0].name, Content(ns[0]));
      ContentName(n, ns[0]);
    }
  }

  /** Reading inverts writing. */
  lemma ReadWrite(h: Buckets, n: Node)
    requires Good(n)
    ensures Read(h, Write(n)).Ok? && Read(h, Write(n)).rest == [] && Content(Read(h, Write(n)).value) == Content(n)
  {
    ReadPut(h, n, []);
  }
}
