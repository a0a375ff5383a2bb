/**
 The stream code that writes and reads statistics trees piece by piece, proved against the
 functions of StatsFormat.
 */
module StatsStream {
  import opened LittleEndian
  import opened StatsFormat
  import opened StatsTree

  // ---- Writing to a stream

  class OutStream {
    var out: seq<Byte>

    constructor ()
      ensures out == []
    {
      out := [];
    }

    method Write(bs: seq<Byte>)
      modifies this
      ensures out == old(out) + bs
    {
      out := out + bs;
    }
  }

  lemma {:induction false} WordsAppend(ws: seq<Word>, rest: seq<Byte>)
    ensures PutWords(ws, rest) == PutWords(ws, []) + rest
  {
    if ws != [] {
      WordsAppend(ws[1..], rest);
    }
  }

  lemma {:induction false} TextsAppend(ts: seq<Text>, rest: seq<Byte>)
    ensures PutTexts(ts, rest) == PutTexts(ts, []) + rest
  {
    if ts != [] {
      TextsAppend(ts[1..], rest);
    }
  }

  lemma {:induction false} LabelsAppend(ts: seq<Text>, rest: seq<Byte>)
    ensures PutLabels(ts, rest) == PutLabels(ts, []) + rest
  {
    hide Cut;
    if ts != [] {
      LabelsAppend(ts[1..], rest);
    }
  }

  lemma ValueAppend(v: Value, rest: seq<Byte>)
    ensures PutValue(v, rest) == PutValue(v, []) + rest
  {
    hide PutWords, PutTexts;
    match v
    case Null(_) =>
    case Ints(ws) => WordsAppend(ws, rest);
    case Floats(ws) => WordsAppend(ws, rest);
    case Texts(ts) => TextsAppend(ts, rest);
  }

  lemma HeaderAppend(n: Node, rest: seq<Byte>)
    ensures PutHeader(n, rest) == PutHeader(n, []) + rest
  {
    hide Encode, Flags, TypeCode;
  }

  lemma ArrayHeaderAppend(n: Node, rest: seq<Byte>)
    ensures PutArrayHeader(n, rest) == PutArrayHeader(n, []) + rest
  {
    hide Encode;
  }

  lemma SelfAppend(n: Node, rest: seq<Byte>)
    ensures PutSelf(n, rest) == PutSelf(n, []) + rest
  {
    hide PutHeader, PutArrayHeader, PutLabels, PutValue, HasLabels, IsArray;
    ValueAppend(n.value, rest);
    LabelsAppend(n.labels, PutValue(n.value, rest));
    LabelsAppend(n.labels, PutValue(n.value, []));
    var labeled := if HasLabels(n) then PutLabels(n.labels, PutValue(n.value, [])) else PutValue(n.value, []);
    assert (if HasLabels(n) then PutLabels(n.labels, PutValue(n.value, rest)) else PutValue(n.value, rest)) == labeled + rest;
    var named := n.name + [0] + labeled;
    assert n.name + [0] + (labeled + rest) == named + rest;
    ArrayHeaderAppend(n, named + rest);
    ArrayHeaderAppend(n, named);
    var body := if IsArray(n) then PutArrayHeader(n, named) else named;
    assert (if IsArray(n) then PutArrayHeader(n, named + rest) else named + rest) == body + rest;
    HeaderAppend(n, body);
    HeaderAppend(n, body + rest);
  }

  lemma {:induction false} NodeAppend(n: Node, rest: seq<Byte>)
    ensures Put(n, rest) == Put(n, []) + rest
    decreases n
  {
    hide PutSelf;
    AllAppend(n.subs, rest);
    SelfAppend(n, PutAll(n.subs, rest));
    SelfAppend(n, PutAll(n.subs, []));
  }

  lemma {:induction false} AllAppend(ns: seq<Node>, rest: seq<Byte>)
    ensures PutAll(ns, rest) == PutAll(ns, []) + rest
    decreases ns
  {
    hide Put;
    if ns != [] {
      NodeAppend(ns[0], PutAll(ns[1..], rest));
      NodeAppend(ns[0], PutAll(ns[1..], []));
      AllAppend(ns[1..], rest);
    }
  }

  method WriteWords(ws: seq<Word>, os: OutStream)
    modifies os
    ensures os.out == old(os.out) + PutWords(ws, [])
  {
    var i := 0;
    while i < |ws|
      invariant i <= |ws|
      invariant os.out + PutWords(ws[i..], []) == old(os.out) + PutWords(ws, [])
    {
      assert ws[i..][1..] == ws[i + 1..];
      os.Write(Encode(ws[i], 8));
      i := i + 1;
    }
  }

  method WriteTexts(ts: seq<Text>, os: OutStream)
    modifies os
    ensures os.out == old(os.out) + PutTexts(ts, [])
  {
    var i := 0;
    while i < |ts|
      invariant i <= |ts|
      invariant os.out + PutTexts(ts[i..], []) == old(os.out) + PutTexts(ts, [])
    {
      assert ts[i..][1..] == ts[i + 1..];
      os.Write(Encode(|ts[i]|, 2));
      os.Write(ts[i] + [0]);
      i := i + 1;
    }
  }

  method WriteLabels(ts: seq<Text>, os: OutStream)
    modifies os
    ensures os.out == old(os.out) + PutLabels(ts, [])
  {
    hide Cut;
    var i := 0;
    while i < |ts|
      invariant i <= |ts|
      invariant os.out + PutLabels(ts[i..], []) == old(os.out) + PutLabels(ts, [])
    {
      assert ts[i..][1..] == ts[i + 1..];
      os.Write(Encode(|ts[i]|, 2));
      os.Write(Cut(ts[i]));
      i := i + 1;
    }
  }

  method WriteValue(v: Value, os: OutStream)
    modifies os
    ensures os.out == old(os.out) + PutValue(v, [])
  {
    match v
    case Null(_) =>
    case Ints(ws) => WriteWords(ws, os);
    case Floats(ws) => WriteWords(ws, os);
    case Texts(ts) => WriteTexts(ts, os);
  }

  /** Writes everything of a node but its children. */
  method WriteSelf(n: Node, os: OutStream)
    modifies os
    ensures os.out == old(os.out) + PutSelf(n, [])
  {
    hide PutHeader, PutArrayHeader, PutLabels, PutValue, HasLabels, IsArray;
    os.Write(PutHeader(n, []));
    if IsArray(n) {
      os.Write(PutArrayHeader(n, []));
    }
    os.Write(n.name + [0]);
    if HasLabels(n) {
      WriteLabels(n.labels, os);
    }
    WriteValue(n.value, os);
    SelfParts(n);
  }

  lemma SelfParts(n: Node)
    ensures PutSelf(n, []) ==
              PutHeader(n, []) + (if IsArray(n) then PutArrayHeader(n, []) else []) + (n.name + [0])
              + (if HasLabels(n) then PutLabels(n.labels, []) else []) + PutValue(n.value, [])
  {
    hide PutHeader, PutArrayHeader, PutLabels, PutValue, HasLabels, IsArray;
    LabelsAppend(n.labels, PutValue(n.value, []));
    var named := n.name + [0] + ((if HasLabels(n) then PutLabels(n.labels, []) else []) + PutValue(n.value, []));
    assert named == n.name + [0] + if HasLabels(n) then PutLabels(n.labels, PutValue(n.value, [])) else PutValue(n.value, []);
    ArrayHeaderAppend(n, named);
    var body := (if IsArray(n) then PutArrayHeader(n, []) else []) + named;
    assert body == if IsArray(n) then PutArrayHeader(n, named) else named;
    HeaderAppend(n, body);
  }

  /** Writes a node and, in the order of its hash table, its children. */
  method WriteNode(n: Node, os: OutStream)
    modifies os
    ensures os.out == old(os.out) + Write(n)
    decreases n
  {
    hide PutHeader, PutArrayHeader, PutLabels, PutWords, PutTexts, Put, PutAll;
    ghost var goal := os.out + Write(n);
    WriteUnfolds(n);
    SelfAppend(n, PutAll(n.subs, []));
    WriteSelf(n, os);
    NoMoreChildren(n.subs);
    var i := 0;
    while i < |n.subs|
      invariant i <= |n.subs|
      invariant os.out + PutAll(n.subs[i..], []) == goal
    {
      NextChild(n.subs, i);
      WriteNode(n.subs[i], os);
      i := i + 1;
    }
    NoMoreChildren(n.subs);
  }

  lemma WriteUnfolds(n: Node)
    ensures Write(n) == PutSelf(n, PutAll(n.subs, []))
  {
  }

  lemma NextChild(ns: seq<Node>, i: nat)
    requires i < |ns|
    ensures PutAll(ns[i..], []) == Put(ns[i], []) + PutAll(ns[i + 1..], [])
  {
    hide Put;
    assert ns[i..][1..] == ns[i + 1..];
    NodeAppend(ns[i], PutAll(ns[i + 1..], []));
  }

  lemma NoMoreChildren(ns: seq<Node>)
    ensures PutAll(ns[|ns|..], []) == [] && PutAll(ns[0..], []) == PutAll(ns, [])
  {
    assert ns[0..] == ns;
  }

  // ---- Reading from a stream

  class InStream {
    var left: seq<Byte> // the bytes not yet read

    constructor (data: seq<Byte>)
      ensures left == data
    {
      left := data;
    }

    /** The next n bytes; None when fewer are left. */
    method Read(n: nat) returns (r: Option<seq<Byte>>)
      modifies this
      ensures if n <= |old(left)| then r == Some(old(left)[..n]) && left == old(left)[n..] else r == None && left == old(left)
    {
      if |left| < n {
        return None;
      }
      r := Some(left[..n]);
      left := left[n..];
    }
  }

  /** A reader found what the specification says, and left the rest in the stream. */
  ghost predicate Took<T>(r: Option<T>, left: seq<Byte>, spec: Parsed<T>) {
    match spec
    case Fail => r == None
    case Ok(x, rest) => r == Some(x) && left == rest
  }

  method ReadNum(k: nat, ins: InStream) returns (r: Option<nat>)
    modifies ins
    ensures Took(r, ins.left, TakeNum(old(ins.left), k))
    ensures r.Some? ==> r.value < Limit(k)
  {
    var bs := ins.Read(k);
    if bs.None? {
      return None;
    }
    DecodeBound(bs.value);
    return Some(Decode(bs.value));
  }

  method ReadText(n: nat, ins: InStream) returns (r: Option<Text>)
    modifies ins
    ensures Took(r, ins.left, TakeText(old(ins.left), n))
  {
    var bs := ins.Read(n);
    r := if bs.None? then None else Some(BeforeNul(bs.value));
  }

  /** What a list reader returns when it has read some items and is to read more. */
  ghost function After<T>(items: seq<T>, more: Parsed<seq<T>>): Parsed<seq<T>> {
    match more
    case Fail => Fail
    case Ok(xs, rest) => Ok(items + xs, rest)
  }

  lemma AfterNothing<T>(items: seq<T>, more: Parsed<seq<T>>, left: seq<Byte>)
    ensures After([], more) == more
    ensures After(items, Ok([], left)) == Ok(items, left)
  {
    if more.Ok? {
      assert [] + more.value == more.value;
    }
    assert items + [] == items;
  }

  lemma NextWord(ws: seq<Word>, bs: seq<Byte>, n: nat)
    requires 0 < n
    ensures After(ws, TakeWords(bs, n)) ==
              match TakeWord(bs)
              case Fail => Fail
              case Ok(w, rest) => After(ws + [w], TakeWords(rest, n - 1))
  {
    hide TakeWord;
    match TakeWord(bs)
    case Fail =>
    case Ok(w, rest) =>
      match TakeWords(rest, n - 1)
      case Fail =>
      case Ok(xs, _) => assert ws + ([w] + xs) == ws + [w] + xs;
  }

  method ReadWords(n: nat, ins: InStream) returns (r: Option<seq<Word>>)
    modifies ins
    ensures Took(r, ins.left, TakeWords(old(ins.left), n))
  {
    hide TakeWords, TakeNum, Limit, After;
    var ws: seq<Word> := [];
    ghost var goal := TakeWords(ins.left, n);
    AfterNothing(ws, goal, ins.left);
    var i := 0;
    while i < n
      invariant i <= n
      invariant goal == After(ws, TakeWords(ins.left, n - i))
    {
      NextWord(ws, ins.left, n - i);
      EightBytes();
      var w := ReadNum(8, ins);
      if w.None? {
        return None;
      }
      ws := ws + [w.value];
      i := i + 1;
    }
    NoWords(ins.left);
    AfterNothing(ws, goal, ins.left);
    return Some(ws);
  }

  lemma NoWords(bs: seq<Byte>)
    ensures TakeWords(bs, 0) == Ok([], bs) && TakeTexts(bs, 0) == Ok([], bs) && TakeLabels(bs, 0) == Ok([], bs)
  {
  }

  /** One string or label, behind its length. */
  ghost function TakeSized(bs: seq<Byte>, extra: nat): Parsed<Text> {
    var (len, rest) :- TakeNum(bs, 2);
    TakeText(rest, len + extra)
  }

  method ReadSized(extra: nat, ins: InStream) returns (r: Option<Text>)
    modifies ins
    ensures Took(r, ins.left, TakeSized(old(ins.left), extra))
  {
    hide TakeNum, TakeText;
    var len := ReadNum(2, ins);
    if len.None? {
      return None;
    }
    r := ReadText(len.value + extra, ins);
  }

  /** Null-terminated strings take a byte more than labels. */
  ghost function TakeList(bs: seq<Byte>, n: nat, extra: nat): Parsed<seq<Text>>
    requires extra <= 1
  {
    if extra == 1 then TakeTexts(bs, n) else TakeLabels(bs, n)
  }

  lemma NextText(ts: seq<Text>, bs: seq<Byte>, n: nat, extra: nat)
    requires 0 < n && extra <= 1
    ensures After(ts, TakeList(bs, n, extra)) ==
              match TakeSized(bs, extra)
              case Fail => Fail
              case Ok(t, rest) => After(ts + [t], TakeList(rest, n - 1, extra))
  {
    hide TakeNum, TakeText;
    match TakeSized(bs, extra)
    case Fail =>
    case Ok(t, rest) =>
      match TakeList(rest, n - 1, extra)
      case Fail =>
      case Ok(xs, _) => assert ts + ([t] + xs) == ts + [t] + xs;
  }

  /** Reads labels, or strings with their nulls. */
  method ReadTexts(n: nat, extra: nat, ins: InStream) returns (r: Option<seq<Text>>)
    requires extra <= 1
    modifies ins
    ensures Took(r, ins.left, TakeList(old(ins.left), n, extra))
  {
    hide TakeTexts, TakeLabels, TakeSized, TakeList, After;
    var ts: seq<Text> := [];
    ghost var goal := TakeList(ins.left, n, extra);
    AfterNothing(ts, goal, ins.left);
    var i := 0;
    while i < n
      invariant i <= n
      invariant goal == After(ts, TakeList(ins.left, n - i, extra))
    {
      NextText(ts, ins.left, n - i, extra);
      var t := ReadSized(extra, ins);
      if t.None? {
        return None;
      }
      ts := ts + [t.value];
      i := i + 1;
    }
    NoTexts(ins.left, extra);
    AfterNothing(ts, goal, ins.left);
    return Some(ts);
  }

  lemma NoTexts(bs: seq<Byte>, extra: nat)
    requires extra <= 1
    ensures TakeList(bs, 0, extra) == Ok([], bs)
  {
  }

  method ReadValue(code: nat, count: nat, ins: InStream) returns (r: Option<Value>)
    modifies ins
    ensures Took(r, ins.left, TakeValue(old(ins.left), code, count))
  {
    hide TakeWords, TakeTexts;
    if code == 0 {
      return Some(Null(count));
    } else if code == 1 || code == 2 {
      var ws := ReadWords(count, ins);
      if ws.None? {
        return None;
      }
      return Some(if code == 1 then Ints(ws.value) else Floats(ws.value));
    } else if code == 4 {
      var ts := ReadTexts(count, 1, ins);
      if ts.None? {
        return None;
      }
      return Some(Texts(ts.value));
    } else {
      return None;
    }
  }

  method ReadWord(ins: InStream) returns (r: Option<Word>)
    modifies ins
    ensures Took(r, ins.left, TakeWord(old(ins.left)))
  {
    hide TakeNum, Limit;
    EightBytes();
    var w := ReadNum(8, ins);
    r := if w.None? then None else Some(w.value);
  }

  method ReadArrayHeader(ins: InStream) returns (r: Option<ArrayHeader>)
    modifies ins
    ensures Took(r, ins.left, TakeArrayHeader(old(ins.left)))
  {
    hide TakeNum, TakeWord, Limit;
    var count := ReadNum(4, ins);
    if count.None? {
      return None;
    }
    var padding := ReadNum(4, ins);
    if padding.None? {
      return None;
    }
    var min := ReadWord(ins);
    if min.None? {
      return None;
    }
    var max := ReadWord(ins);
    if max.None? {
      return None;
    }
    var stride := ReadWord(ins);
    if stride.None? {
      return None;
    }
    return Some(ArrayHeader(count.value, Bounds(min.value, max.value, stride.value)));
  }

  method ReadHeader(ins: InStream) returns (r: Option<Header>)
    modifies ins
    ensures Took(r, ins.left, TakeHeader(old(ins.left)))
  {
    hide TakeNum, Limit;
    var magic := ReadNum(4, ins);
    if magic.None? {
      return None;
    }
    var code := ReadNum(1, ins);
    if code.None? {
      return None;
    }
    var nameLength := ReadNum(1, ins);
    if nameLength.None? {
      return None;
    }
    var flags := ReadNum(2, ins);
    if flags.None? {
      return None;
    }
    var subcount := ReadNum(4, ins);
    if subcount.None? {
      return None;
    }
    return Some(Header(magic.value, code.value, nameLength.value, flags.value, subcount.value));
  }

  /** Reads everything of a node but its children, after its header. */
  method ReadBody(header: Header, ins: InStream) returns (r: Option<Node>)
    modifies ins
    ensures Took(r, ins.left, TakeBody(header, old(ins.left)))
  {
    hide TakeArrayHeader, TakeText, TakeTexts, TakeLabels, TakeValue, FlagSet;
    var isArray := FlagSet(header.flags, 1);
    var dims := ArrayHeader(1, Bounds(0, 0, 0));
    if isArray {
      var a := ReadArrayHeader(ins);
      if a.None? {
        return None;
      }
      dims := a.value;
    }
    var name := ReadText(header.nameLength + 1, ins);
    if name.None? {
      return None;
    }
    var histogram, labeled := FlagSet(header.flags, 4), FlagSet(header.flags, 16);
    var labels: seq<Text> := [];
    if isArray && histogram && labeled {
      var l := ReadTexts(dims.count, 0, ins);
      if l.None? {
        return None;
      }
      labels := l.value;
    }
    var value := ReadValue(header.code, dims.count, ins);
    if value.None? {
      return None;
    }
    return Some(Node(name.value, value.value, FlagSet(header.flags, 2), FlagSet(header.flags, 8),
                     histogram, labeled, labels, dims.bounds, []));
  }

  /** Reads a node and its children, entering each child in the hash table of the node. */
  method ReadNode(h: Buckets, ins: InStream) returns (r: Option<Node>)
    modifies ins
    ensures Took(r, ins.left, StatsFormat.Read(h, old(ins.left)))
    decreases |ins.left|
  {
    hide TakeHeader, TakeBody, ReadAll, Insert;
    var before := ins.left;
    var header := ReadHeader(ins);
    if header.None? {
      return None;
    }
    if header.value.magic != DSN_MAGIC {
      return Some(Plain(INVALID_NAME, Null(0)));
    }
    var node := ReadBody(header.value, ins);
    if node.None? {
      return None;
    }
    ghost var goal := ReadAll(h, ins.left, header.value.subcount, []);
    var subs: seq<Node> := [];
    var i := 0;
    while i < header.value.subcount
      invariant i <= header.value.subcount && |ins.left| < |before|
      invariant goal == ReadAll(h, ins.left, header.value.subcount - i, subs)
    {
      NextSub(h, ins.left, header.value.subcount - i, subs);
      var sub := ReadNode(h, ins);
      if sub.None? {
        return None;
      }
      subs := Insert(h, subs, sub.value);
      i := i + 1;
    }
    NoMoreSubs(h, ins.left, subs);
    return Some(node.value.(subs := subs));
  }

  lemma NextSub(h: Buckets, bs: seq<Byte>, n: nat, acc: seq<Node>)
    requires 0 < n
    ensures ReadAll(h, bs, n, acc) ==
              match StatsFormat.Read(h, bs)
              case Fail => Fail
              case Ok(node, rest) => ReadAll(h, rest, n - 1, Insert(h, acc, node))
  {
    hide StatsFormat.Read, Insert;
  }

  lemma NoMoreSubs(h: Buckets, bs: seq<Byte>, acc: seq<Node>)
    ensures ReadAll(h, bs, 0, acc) == Ok(acc, bs)
  {
  }
}
