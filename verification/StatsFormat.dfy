/**
 The binary format of statistics trees, and that reading a written tree gives back the same tree.
 Writers put a node in front of the bytes that follow it; readers return what they leave unread.
 */
module StatsFormat {
  import opened LittleEndian
  import opened StatsTree

  const DSN_MAGIC: nat := 0x334c_5450
  const HEADER_BYTES: nat := 12

  const INVALID_NAME: Text := [0x49, 0x4e, 0x56, 0x41, 0x4c, 0x49, 0x44]

  // ---- Writing

  function TypeCode(v: Value): Byte {
    match v
    case Null(_) => 0
    case Ints(_) => 1
    case Floats(_) => 2
    case Texts(_) => 4
  }

  function Bit(b: bool, weight: nat): nat {
    if b then weight else 0
  }

  function IsArray(n: Node): bool {
    n.value.Count() > 1
  }

  /** Labels are stored for labeled histograms that are arrays. */
  function HasLabels(n: Node): bool {
    IsArray(n) && n.histogram && n.labeled
  }

  function Flags(n: Node): nat {
    Bit(IsArray(n), 1) + Bit(n.summable, 2) + Bit(n.histogram, 4) + Bit(n.identical, 8) + Bit(n.labeled, 16)
  }

  function PutWords(ws: seq<Word>, rest: seq<Byte>): seq<Byte> {
    if ws == [] then rest else Encode(ws[0], 8) + PutWords(ws[1..], rest)
  }

  /** Strings, each behind its length and in front of a null. */
  function PutTexts(ts: seq<Text>, rest: seq<Byte>): seq<Byte> {
    if ts == [] then rest else Encode(|ts[0]|, 2) + (ts[0] + [0] + PutTexts(ts[1..], rest))
  }

  /** A label cut to what its 16-bit length says. */
  function Cut(t: Text): Text {
    t[..|t| % 65536]
  }

  /** Labels, each behind its length. */
  function PutLabels(ts: seq<Text>, rest: seq<Byte>): seq<Byte> {
    if ts == [] then rest else Encode(|ts[0]|, 2) + (Cut(ts[0]) + PutLabels(ts[1..], rest))
  }

  function PutValue(v: Value, rest: seq<Byte>): seq<Byte> {
    match v
    case Null(_) => rest
    case Ints(ws) => PutWords(ws, rest)
    case Floats(ws) => PutWords(ws, rest)
    case Texts(ts) => PutTexts(ts, rest)
  }

  function PutHeader(n: Node, rest: seq<Byte>): seq<Byte> {
    Encode(DSN_MAGIC, 4) + ([TypeCode(n.value)] + ([|n.name| % 256] +
    (Encode(Flags(n), 2) + (Encode(|n.subs|, 4) + rest))))
  }

  function PutArrayHeader(n: Node, rest: seq<Byte>): seq<Byte> {
    Encode(n.value.Count(), 4) + (Encode(0, 4) +
    (Encode(n.bounds.min, 8) + (Encode(n.bounds.max, 8) + (Encode(n.bounds.stride, 8) + rest))))
  }

  /** Everything of a node but its children. */
  function PutSelf(n: Node, rest: seq<Byte>): seq<Byte> {
    var named := n.name + [0] + (if HasLabels(n) then PutLabels(n.labels, PutValue(n.value, rest)) else PutValue(n.value, rest));
    PutHeader(n, if IsArray(n) then PutArrayHeader(n, named) else named)
  }

  function Put(n: Node, rest: seq<Byte>): seq<Byte>
    decreases n
  {
    PutSelf(n, PutAll(n.subs, rest))
  }

  function PutAll(ns: seq<Node>, rest: seq<Byte>): seq<Byte>
    decreases ns
  {
    if ns == [] then rest else Put(ns[0], PutAll(ns[1..], rest))
  }

  function Write(n: Node): seq<Byte> {
    Put(n, [])
  }

  // ---- Reading

  /** What was read and the bytes after it, or failure: the bytes ended, or an unknown type was met. */
  datatype Parsed<+T> = Fail | Ok(value: T, rest: seq<Byte>) {
    predicate IsFailure() {
      Fail?
    }

    function PropagateFailure<U>(): Parsed<U>
      requires Fail?
    {
      Fail
    }

    function Extract(): (T, seq<Byte>)
      requires Ok?
    {
      (value, rest)
    }
  }

  function TakeNum(bs: seq<Byte>, k: nat): (r: Parsed<nat>)
    ensures r.Ok? ==> |r.rest| + k == |bs| && r.value < Limit(k)
  {
    if |bs| < k then Fail
    else
      DecodeBound(bs[..k]);
      Ok(Decode(bs[..k]), bs[k..])
  }

  function TakeWord(bs: seq<Byte>): (r: Parsed<Word>)
    ensures r.Ok? ==> |r.rest| + 8 == |bs|
  {
    EightBytes();
    var (x, rest) :- TakeNum(bs, 8);
    Ok(x, rest)
  }

  lemma EightBytes()
    ensures Limit(8) == 0x1_0000_0000_0000_0000
  {
    assert Limit(4) == 0x1_0000_0000;
    assert Limit(8) == 256 * (256 * (256 * (256 * Limit(4))));
  }

  /** The C string in the next n bytes. */
  function TakeText(bs: seq<Byte>, n: nat): (r: Parsed<Text>)
    ensures r.Ok? ==> |r.rest| + n == |bs|
  {
    if |bs| < n then Fail else Ok(BeforeNul(bs[..n]), bs[n..])
  }

  function TakeWords(bs: seq<Byte>, n: nat): (r: Parsed<seq<Word>>)
    ensures r.Ok? ==> |r.rest| <= |bs| && |r.value| == n
  {
    if n == 0 then Ok([], bs)
    else
      var (w, rest) :- TakeWord(bs);
      var (ws, rest') :- TakeWords(rest, n - 1);
      Ok([w] + ws, rest')
  }

  function TakeTexts(bs: seq<Byte>, n: nat): (r: Parsed<seq<Text>>)
    ensures r.Ok? ==> |r.rest| <= |bs| && |r.value| == n
  {
    if n == 0 then Ok([], bs)
    else
      var (len, rest) :- TakeNum(bs, 2);
      var (t, rest') :- TakeText(rest, len + 1);
      var (ts, rest'') :- TakeTexts(rest', n - 1);
      Ok([t] + ts, rest'')
  }

  function TakeLabels(bs: seq<Byte>, n: nat): (r: Parsed<seq<Text>>)
    ensures r.Ok? ==> |r.rest| <= |bs| && |r.value| == n
  {
    if n == 0 then Ok([], bs)
    else
      var (len, rest) :- TakeNum(bs, 2);
      var (t, rest') :- TakeText(rest, len);
      var (ts, rest'') :- TakeLabels(rest', n - 1);
      Ok([t] + ts, rest'')
  }

  function TakeValue(bs: seq<Byte>, code: nat, count: nat): (r: Parsed<Value>)
    ensures r.Ok? ==> |r.rest| <= |bs|
  {
    if code == 0 then Ok(Null(count), bs)
    else if code == 1 then
      var (ws, rest) :- TakeWords(bs, count);
      Ok(Ints(ws), rest)
    else if code == 2 then
      var (ws, rest) :- TakeWords(bs, count);
      Ok(Floats(ws), rest)
    else if code == 4 then
      var (ts, rest) :- TakeTexts(bs, count);
      Ok(Texts(ts), rest)
    else Fail
  }

  predicate FlagSet(flags: nat, weight: nat)
    requires 0 < weight
  {
    flags / weight % 2 == 1
  }

  datatype ArrayHeader = ArrayHeader(count: nat, bounds: Bounds)

  function TakeArrayHeader(bs: seq<Byte>): (r: Parsed<ArrayHeader>)
    ensures r.Ok? ==> |r.rest| <= |bs|
  {
    var (count, rest1) :- TakeNum(bs, 4);
    var (_, rest2) :- TakeNum(rest1, 4);
    var (min, rest3) :- TakeWord(rest2);
    var (max, rest4) :- TakeWord(rest3);
    var (stride, rest5) :- TakeWord(rest4);
    Ok(ArrayHeader(count, Bounds(min, max, stride)), rest5)
  }

  /** The fixed part of a node. */
  datatype Header = Header(magic: nat, code: nat, nameLength: nat, flags: nat, subcount: nat)

  function TakeHeader(bs: seq<Byte>): (r: Parsed<Header>)
    ensures r.Ok? ==> |r.rest| + HEADER_BYTES == |bs|
  {
    var (magic, rest1) :- TakeNum(bs, 4);
    var (code, rest2) :- TakeNum(rest1, 1);
    var (nameLength, rest3) :- TakeNum(rest2, 1);
    var (flags, rest4) :- TakeNum(rest3, 2);
    var (subcount, rest5) :- TakeNum(rest4, 4);
    Ok(Header(magic, code, nameLength, flags, subcount), rest5)
  }

  /** Everything of a node but its children, after its header. The bounds of scalars are not stored. */
  function TakeBody(header: Header, bs: seq<Byte>): (r: Parsed<Node>)
    ensures r.Ok? ==> |r.rest| <= |bs| && r.value.subs == []
  {
    var isArray := FlagSet(header.flags, 1);
    var (dims, rest1) :- if isArray then TakeArrayHeader(bs) else Ok(ArrayHeader(1, Bounds(0, 0, 0)), bs);
    var (name, rest2) :- TakeText(rest1, header.nameLength + 1);
    var histogram, labeled := FlagSet(header.flags, 4), FlagSet(header.flags, 16);
    var (labels, rest3) :- if isArray && histogram && labeled then TakeLabels(rest2, dims.count) else Ok([], rest2);
    var (value, rest4) :- TakeValue(rest3, header.code, dims.count);
    Ok(Node(name, value, FlagSet(header.flags, 2), FlagSet(header.flags, 8), histogram, labeled, labels, dims.bounds, []), rest4)
  }

  function Read(h: Buckets, bs: seq<Byte>): (r: Parsed<Node>)
    ensures r.Ok? ==> |r.rest| < |bs|
    decreases |bs|, 0
  {
    var (header, rest1) :- TakeHeader(bs);
    if header.magic != DSN_MAGIC then Ok(Plain(INVALID_NAME, Null(0)), rest1)
    else
      var (node, rest2) :- TakeBody(header, rest1);
      var (subs, rest3) :- ReadAll(h, rest2, header.subcount, []);
      Ok(node.(subs := subs), rest3)
  }

  function ReadAll(h: Buckets, bs: seq<Byte>, n: nat, acc: seq<Node>): (r: Parsed<seq<Node>>)
    ensures r.Ok? ==> |r.rest| <= |bs|
    decreases |bs|, 1
  {
    if n == 0 then Ok(acc, bs)
    else
      var (node, rest) :- Read(h, bs);
      ReadAll(h, rest, n - 1, Insert(h, acc, node))
  }
}
