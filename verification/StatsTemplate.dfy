/** The binary format of templates, and that reading a written template gives it back. */
module StatsTemplates {
  import opened LittleEndian
  import opened StatsFormat
  import opened StatsRoundTrip
  import opened StatsStream
  import opened StatsTree

  // ---- Numbers of given widths

  function PutFields(xs: seq<nat>, widths: seq<nat>, rest: seq<Byte>): seq<Byte>
    requires |xs| == |widths|
  {
    if xs == [] then rest else Encode(xs[0], widths[0]) + PutFields(xs[1..], widths[1..], rest)
  }

  ghost predicate Fits(xs: seq<nat>, widths: seq<nat>) {
    |xs| == |widths| && forall i | 0 <= i < |xs| :: xs[i] < Limit(widths[i])
  }

  function TakeFields(bs: seq<Byte>, widths: seq<nat>): (r: Parsed<seq<nat>>)
    ensures r.Ok? ==> |r.rest| + Total(widths) == |bs| && Fits(r.value, widths)
  {
    if widths == [] then Ok([], bs)
    else
      var (x, rest) :- TakeNum(bs, widths[0]);
      var (xs, rest') :- TakeFields(rest, widths[1..]);
      Ok([x] + xs, rest')
  }

  function Total(widths: seq<nat>): nat {
    if widths == [] then 0 else widths[0] + Total(widths[1..])
  }

  lemma {:induction false} TakePutFields(xs: seq<nat>, widths: seq<nat>, rest: seq<Byte>)
    requires Fits(xs, widths)
    ensures TakeFields(PutFields(xs, widths, rest), widths) == Ok(xs, rest)
  {
    hide Encode, TakeNum;
    if xs != [] {
      TakePutNum(xs[0], widths[0], PutFields(xs[1..], widths[1..], rest));
      TakePutFields(xs[1..], widths[1..], rest);
      assert [xs[0]] + xs[1..] == xs;
    }
  }

  lemma {:induction false} FieldsAppend(xs: seq<nat>, widths: seq<nat>, rest: seq<Byte>)
    requires |xs| == |widths|
    ensures PutFields(xs, widths, rest) == PutFields(xs, widths, []) + rest
  {
    if xs != [] {
      FieldsAppend(xs[1..], widths[1..], rest);
    }
  }

  /** The numbers follow each other without gaps. */
  lemma {:induction false} FieldAt(xs: seq<nat>, widths: seq<nat>, rest: seq<Byte>, k: nat, at: nat)
    requires Fits(xs, widths) && k < |xs| && at == Total(widths[..k])
    ensures NumberAt(PutFields(xs, widths, rest), at, widths[k], xs[k])
  {
    hide Encode, Decode;
    var bs, tail := Encode(xs[0], widths[0]), PutFields(xs[1..], widths[1..], rest);
    if k == 0 {
      DecodeEncode(xs[0], widths[0]);
      assert (bs + tail)[0..widths[0]] == bs;
    } else {
      assert widths[..k][1..] == widths[1..][..k - 1];
      var w := widths[0];
      FieldAt(xs[1..], widths[1..], rest, k - 1, at - w);
      assert (bs + tail)[at..at + widths[k]] == tail[at - w..at - w + widths[k]];
    }
  }

  // ---- Writing

  const DST_MAGIC: nat := 0x3154_5344
  const BASE_BYTES: nat := 48

  /** Magic, length, type, flags, number of parts, count, limit, and three bounds. */
  const BASE_WIDTHS: seq<nat> := [4, 2, 2, 4, 4, 4, 4, 8, 8, 8]

  function KindCode(k: Kind): nat {
    match k
    case Group(_) => 0
    case IntCells(_) => 1
    case FloatCells(_) => 2
    case TextCells(_) => 4
  }

  function CellCount(k: Kind): nat {
    match k
    case Group(_) => 1
    case IntCells(n) => n
    case FloatCells(n) => n
    case TextCells(_) => 1
  }

  function LimitBytes(k: Kind): nat {
    if k.TextCells? then 8 * k.limit else 0
  }

  function Parts(k: Kind): seq<Template> {
    if k.Group? then k.subs else []
  }

  function TemplateFlags(t: Template): nat {
    Bit(t.histogram, 1) + Bit(t.labeled, 2) + Bit(t.summable, 4) + Bit(t.identical, 8)
  }

  function BaseFields(t: Template): (xs: seq<nat>)
    ensures |xs| == |BASE_WIDTHS|
  {
    [DST_MAGIC, BASE_BYTES, KindCode(t.kind), TemplateFlags(t), |Parts(t.kind)|, CellCount(t.kind), LimitBytes(t.kind),
     t.bounds.min, t.bounds.max, t.bounds.stride]
  }

  /** Everything of a template but its parts. */
  function PutBase(t: Template, rest: seq<Byte>): seq<Byte> {
    PutFields(BaseFields(t), BASE_WIDTHS,
              PutLabels([t.name], if t.labeled then PutLabels(t.labels, rest) else rest))
  }

  function PutTemplate(t: Template, rest: seq<Byte>): seq<Byte>
    decreases t
  {
    PutBase(t, if t.kind.Group? then PutTemplates(t.kind.subs, rest) else rest)
  }

  function PutTemplates(ts: seq<Template>, rest: seq<Byte>): seq<Byte>
    decreases ts
  {
    if ts == [] then rest else PutTemplate(ts[0], PutTemplates(ts[1..], rest))
  }

  // ---- Reading

  /** The kind of cells; none for unknown types, arrays of strings, and odd string limits. */
  function KindOf(code: nat, count: nat, limit: nat, subs: seq<Template>): Option<Kind> {
    if code == 0 then Some(Group(subs))
    else if code == 1 then Some(IntCells(count))
    else if code == 2 then Some(FloatCells(count))
    else if code == 4 && count == 1 && limit % 8 == 0 then Some(TextCells(limit / 8))
    else None
  }

  datatype Base = Base(fields: seq<nat>, name: Text, labels: seq<Text>)

  /** The name and the labels behind the numbers. */
  function TakeNamed(xs: seq<nat>, bs: seq<Byte>): (r: Parsed<Base>)
    requires Fits(xs, BASE_WIDTHS)
    ensures r.Ok? ==> |r.rest| <= |bs| && r.value.fields == xs
  {
    var (names, rest1) :- TakeLabels(bs, 1);
    var (labels, rest2) :- if FlagSet(xs[3], 2) then TakeLabels(rest1, xs[5]) else Ok([], rest1);
    Ok(Base(xs, names[0], labels), rest2)
  }

  /** Everything of a template but its parts. */
  function TakeBase(bs: seq<Byte>): (r: Parsed<Base>)
    ensures r.Ok? ==> |r.rest| < |bs| && Fits(r.value.fields, BASE_WIDTHS)
  {
    assert Total(BASE_WIDTHS) > 0;
    var (xs, rest1) :- TakeFields(bs, BASE_WIDTHS);
    if xs[0] != DST_MAGIC || xs[1] != BASE_BYTES then Fail
    else TakeNamed(xs, rest1)
  }

  function Built(base: Base, kind: Kind): Template
    requires Fits(base.fields, BASE_WIDTHS)
  {
    EightBytes();
    var xs := base.fields;
    Template(base.name, kind, FlagSet(xs[3], 4), FlagSet(xs[3], 8), FlagSet(xs[3], 1), FlagSet(xs[3], 2), base.labels,
             Bounds(xs[7], xs[8], xs[9]))
  }

  function TakeTemplate(bs: seq<Byte>): (r: Parsed<Template>)
    ensures r.Ok? ==> |r.rest| < |bs|
    decreases |bs|, 0
  {
    var (base, rest) :- TakeBase(bs);
    var (subs, rest') :- TakeTemplates(rest, base.fields[4]);
    var kind := KindOf(base.fields[2], base.fields[5], base.fields[6], subs);
    if kind.None? then Fail else Ok(Built(base, kind.value), rest')
  }

  function TakeTemplates(bs: seq<Byte>, n: nat): (r: Parsed<seq<Template>>)
    ensures r.Ok? ==> |r.rest| <= |bs|
    decreases |bs|, 1
  {
    if n == 0 then Ok([], bs)
    else
      var (t, rest) :- TakeTemplate(bs);
      var (ts, rest') :- TakeTemplates(rest, n - 1);
      Ok([t] + ts, rest')
  }

  // ---- Round trip

  /** Counts and lengths fit their fields, and there is one label for each labeled cell. */
  ghost predicate Storable(t: Template) {
    && GoodText(t.name, 65536)
    && GoodTexts(t.labels) && |t.labels| == (if t.labeled then CellCount(t.kind) else 0)
    && CellCount(t.kind) < 0x1_0000_0000 && LimitBytes(t.kind) < 0x1_0000_0000 && |Parts(t.kind)| < 0x1_0000_0000
    && (t.kind.Group? ==> StorableAll(t.kind.subs))
  }

  ghost predicate StorableAll(ts: seq<Template>) {
    ts == [] || (Storable(ts[0]) && StorableAll(ts[1..]))
  }

  lemma FieldsFit(t: Template)
    requires Storable(t)
    ensures Fits(BaseFields(t), BASE_WIDTHS)
  {
    TwoBytes();
    EightBytes();
    hide Limit;
  }

  lemma FlagsKept(t: Template)
    ensures var flags := TemplateFlags(t);
            && FlagSet(flags, 1) == t.histogram && FlagSet(flags, 2) == t.labeled
            && FlagSet(flags, 4) == t.summable && FlagSet(flags, 8) == t.identical
  {
  }

  lemma TakePutBase(t: Template, rest: seq<Byte>)
    requires Storable(t)
    ensures TakeBase(PutBase(t, rest)) == Ok(Base(BaseFields(t), t.name, t.labels), rest)
  {
    FieldsFit(t);
    FlagsKept(t);
    hide TakeFields, PutFields, TakeLabels, PutLabels, FlagSet, TemplateFlags, Limit, Fits;
    var labeled := if t.labeled then PutLabels(t.labels, rest) else rest;
    assert GoodTexts([t.name]);
    TakePutFields(BaseFields(t), BASE_WIDTHS, PutLabels([t.name], labeled));
    TakePutLabels([t.name], labeled);
    TakePutLabels(t.labels, rest);
  }

  lemma BuiltFrom(t: Template)
    requires Storable(t)
    ensures Fits(BaseFields(t), BASE_WIDTHS)
    ensures Built(Base(BaseFields(t), t.name, t.labels), t.kind) == t
  {
    FieldsFit(t);
    FlagsKept(t);
    hide FlagSet, TemplateFlags, Limit;
  }

  /** Reading a written template, with any bytes after it, gives the template and leaves exactly those bytes. */
  lemma {:induction false} TakePutTemplate(t: Template, rest: seq<Byte>)
    requires Storable(t)
    ensures TakeTemplate(PutTemplate(t, rest)) == Ok(t, rest)
    decreases t
  {
    hide TakeBase, PutBase, Built, TakeTemplates, PutTemplates, Limit, Fits;
    BuiltFrom(t);
    if t.kind.Group? {
      TakePutTemplates(t.kind.subs, rest);
      TakePutBase(t, PutTemplates(t.kind.subs, rest));
    } else {
      TakePutBase(t, rest);
      NoMoreParts(rest);
    }
  }

  lemma NoMoreParts(bs: seq<Byte>)
    ensures TakeTemplates(bs, 0) == Ok([], bs) && PutTemplates([], bs) == bs
  {
  }

  lemma {:induction false} TakePutTemplates(ts: seq<Template>, rest: seq<Byte>)
    requires StorableAll(ts)
    ensures TakeTemplates(PutTemplates(ts, rest), |ts|) == Ok(ts, rest)
    decreases ts
  {
    hide TakeTemplate, PutTemplate, Storable;
    if ts != [] {
      TakePutTemplate(ts[0], PutTemplates(ts[1..], rest));
      TakePutTemplates(ts[1..], rest);
      assert [ts[0]] + ts[1..] == ts;
    }
  }

  /** Where the fields of a written template are, and what they say. */
  lemma TemplateLayout(t: Template, rest: seq<Byte>)
    requires Storable(t)
    ensures var bs := PutTemplate(t, rest);
            && NumberAt(bs, 0, 4, 0x3154_5344) && NumberAt(bs, 4, 2, 48)
            && NumberAt(bs, 6, 2, match t.kind case Group(_) => 0 case IntCells(_) => 1 case FloatCells(_) => 2 case TextCells(_) => 4)
            && NumberAt(bs, 8, 4, (if t.histogram then 1 else 0) + (if t.labeled then 2 else 0)
                                  + (if t.summable then 4 else 0) + (if t.identical then 8 else 0))
            && NumberAt(bs, 12, 4, if t.kind.Group? then |t.kind.subs| else 0)
            && NumberAt(bs, 16, 4, match t.kind case IntCells(n) => n case FloatCells(n) => n case _ => 1)
            && NumberAt(bs, 20, 4, if t.kind.TextCells? then 8 * t.kind.limit else 0)
            && NumberAt(bs, 24, 8, t.bounds.min) && NumberAt(bs, 32, 8, t.bounds.max) && NumberAt(bs, 40, 8, t.bounds.stride)
  {
    FieldsFit(t);
    hide PutFields, PutLabels, PutTemplates, Limit, NumberAt, Fits;
    var named := PutLabels([t.name], if t.labeled then PutLabels(t.labels, PartBytes(t, rest)) else PartBytes(t, rest));
    assert PutTemplate(t, rest) == PutFields(BaseFields(t), BASE_WIDTHS, named);
    BaseNumbers(BaseFields(t), named);
  }

  lemma BaseNumbers(xs: seq<nat>, rest: seq<Byte>)
    requires Fits(xs, BASE_WIDTHS)
    ensures |xs| == |BASE_WIDTHS|
    ensures var bs := PutFields(xs, BASE_WIDTHS, rest);
            && NumberAt(bs, 0, 4, xs[0]) && NumberAt(bs, 4, 2, xs[1]) && NumberAt(bs, 6, 2, xs[2])
            && NumberAt(bs, 8, 4, xs[3]) && NumberAt(bs, 12, 4, xs[4]) && NumberAt(bs, 16, 4, xs[5])
            && NumberAt(bs, 20, 4, xs[6])
            && NumberAt(bs, 24, 8, xs[7]) && NumberAt(bs, 32, 8, xs[8]) && NumberAt(bs, 40, 8, xs[9])
  {
    FieldOffsets();
    assert |xs| == |BASE_WIDTHS| == 10;
    hide PutFields, Limit, NumberAt, Fits, Total;
    FieldAt(xs, BASE_WIDTHS, rest, 0, 0);
    FieldAt(xs, BASE_WIDTHS, rest, 1, 4);
    FieldAt(xs, BASE_WIDTHS, rest, 2, 6);
    FieldAt(xs, BASE_WIDTHS, rest, 3, 8);
    FieldAt(xs, BASE_WIDTHS, rest, 4, 12);
    FieldAt(xs, BASE_WIDTHS, rest, 5, 16);
    FieldAt(xs, BASE_WIDTHS, rest, 6, 20);
    FieldAt(xs, BASE_WIDTHS, rest, 7, 24);
    FieldAt(xs, BASE_WIDTHS, rest, 8, 32);
    FieldAt(xs, BASE_WIDTHS, rest, 9, 40);
  }

  ghost function PartBytes(t: Template, rest: seq<Byte>): seq<Byte> {
    if t.kind.Group? then PutTemplates(t.kind.subs, rest) else rest
  }

  lemma FieldOffsets()
    ensures Total(BASE_WIDTHS[..0]) == 0 && Total(BASE_WIDTHS[..1]) == 4 && Total(BASE_WIDTHS[..2]) == 6
    ensures Total(BASE_WIDTHS[..3]) == 8 && Total(BASE_WIDTHS[..4]) == 12 && Total(BASE_WIDTHS[..5]) == 16
    ensures Total(BASE_WIDTHS[..6]) == 20 && Total(BASE_WIDTHS[..7]) == 24 && Total(BASE_WIDTHS[..8]) == 32
    ensures Total(BASE_WIDTHS[..9]) == 40
  {
    TotalMore(BASE_WIDTHS, 0);
    TotalMore(BASE_WIDTHS, 1);
    TotalMore(BASE_WIDTHS, 2);
    TotalMore(BASE_WIDTHS, 3);
    TotalMore(BASE_WIDTHS, 4);
    TotalMore(BASE_WIDTHS, 5);
    TotalMore(BASE_WIDTHS, 6);
    TotalMore(BASE_WIDTHS, 7);
    TotalMore(BASE_WIDTHS, 8);
    hide Total;
  }

  lemma {:induction false} TotalMore(widths: seq<nat>, k: nat)
    requires k < |widths|
    ensures Total(widths[..k + 1]) == Total(widths[..k]) + widths[k]
  {
    if k > 0 {
      TotalMore(widths[1..], k - 1);
      assert widths[..k + 1][1..] == widths[1..][..k] && widths[..k][1..] == widths[1..][..k - 1];
    } else {
      assert widths[..1] == [widths[0]];
    }
  }

  // ---- Writing to and reading from a stream

  lemma BaseAppend(t: Template, rest: seq<Byte>)
    ensures PutBase(t, rest) == PutFields(BaseFields(t), BASE_WIDTHS, [])
                                + (PutLabels([t.name], []) + ((if t.labeled then PutLabels(t.labels, []) else []) + rest))
  {
    hide PutFields, PutLabels;
    var labeled := if t.labeled then PutLabels(t.labels, rest) else rest;
    FieldsAppend(BaseFields(t), BASE_WIDTHS, PutLabels([t.name], labeled));
    LabelsAppend([t.name], labeled);
    LabelsAppend(t.labels, rest);
  }

  /** Writes a template and its parts. */
  method WriteTemplate(t: Template, os: OutStream)
    modifies os
    ensures os.out == old(os.out) + PutTemplate(t, [])
    decreases t
  {
    hide PutFields, PutLabels, PutBase, PutTemplates;
    ghost var goal := os.out + PutTemplate(t, []);
    ghost var rest := if t.kind.Group? then PutTemplates(t.kind.subs, []) else [];
    BaseAppend(t, rest);
    os.Write(PutFields(BaseFields(t), BASE_WIDTHS, []));
    WriteLabels([t.name], os);
    if t.labeled {
      WriteLabels(t.labels, os);
    }
    assert os.out + rest == goal;
    if t.kind.Group? {
      var subs := t.kind.subs;
      NoPartsLeft(subs);
      var i := 0;
      while i < |subs|
        invariant i <= |subs|
        invariant os.out + PutTemplates(subs[i..], []) == goal
      {
        NextPart(subs, i);
        WriteTemplate(subs[i], os);
        i := i + 1;
      }
      NoPartsLeft(subs);
    }
  }

  lemma NoPartsLeft(ts: seq<Template>)
    ensures PutTemplates(ts[|ts|..], []) == [] && PutTemplates(ts[0..], []) == PutTemplates(ts, [])
  {
    assert ts[0..] == ts;
  }

  lemma NextPart(ts: seq<Template>, i: nat)
    requires i < |ts|
    ensures PutTemplates(ts[i..], []) == PutTemplate(ts[i], []) + PutTemplates(ts[i + 1..], [])
  {
    hide PutTemplate;
    assert ts[i..][1..] == ts[i + 1..];
    TemplateAppend(ts[i], PutTemplates(ts[i + 1..], []));
  }

  lemma {:induction false} TemplateAppend(t: Template, rest: seq<Byte>)
    ensures PutTemplate(t, rest) == PutTemplate(t, []) + rest
    decreases t
  {
    hide PutBase, PutTemplates;
    if t.kind.Group? {
      TemplatesAppend(t.kind.subs, rest);
      PartsAppend(t, PutTemplates(t.kind.subs, []), rest);
    } else {
      PartsAppend(t, [], rest);
    }
  }

  lemma PartsAppend(t: Template, parts: seq<Byte>, rest: seq<Byte>)
    ensures PutBase(t, parts + rest) == PutBase(t, parts) + rest
    ensures [] + rest == rest
  {
    BaseAppend(t, parts);
    BaseAppend(t, parts + rest);
    hide PutFields, PutLabels, PutBase;
    var fields, name, labels := PutFields(BaseFields(t), BASE_WIDTHS, []), PutLabels([t.name], []),
                                if t.labeled then PutLabels(t.labels, []) else [];
    Regrouped(fields, name, labels, parts, rest);
  }

  lemma Regrouped(a: seq<Byte>, b: seq<Byte>, c: seq<Byte>, d: seq<Byte>, e: seq<Byte>)
    ensures a + (b + (c + (d + e))) == a + (b + (c + d)) + e
  {
  }

  lemma {:induction false} TemplatesAppend(ts: seq<Template>, rest: seq<Byte>)
    ensures PutTemplates(ts, rest) == PutTemplates(ts, []) + rest
    decreases ts
  {
    hide PutTemplate;
    if ts != [] {
      TemplateAppend(ts[0], PutTemplates(ts[1..], rest));
      TemplateAppend(ts[0], PutTemplates(ts[1..], []));
      TemplatesAppend(ts[1..], rest);
    }
  }

  lemma {:induction false} FieldsAreLocal(bs: seq<Byte>, widths: seq<nat>)
    ensures |bs| < Total(widths) ==> TakeFields(bs, widths).Fail?
    ensures |bs| >= Total(widths) ==>
              && TakeFields(bs[..Total(widths)], widths).Ok?
              && TakeFields(bs, widths) == Ok(TakeFields(bs[..Total(widths)], widths).value, bs[Total(widths)..])
  {
    hide Limit, Decode;
    if widths != [] && |bs| >= widths[0] {
      var n, m := widths[0], Total(widths);
      FieldsAreLocal(bs[n..], widths[1..]);
      if |bs| >= m {
        assert bs[..m][..n] == bs[..n] && bs[..m][n..] == bs[n..][..m - n];
      }
    }
  }

  /** Reads a structure of numbers. */
  method ReadFields(widths: seq<nat>, ins: InStream) returns (r: Option<seq<nat>>)
    modifies ins
    ensures Took(r, ins.left, TakeFields(old(ins.left), widths))
    ensures r.Some? ==> Fits(r.value, widths)
  {
    FieldsAreLocal(ins.left, widths);
    hide TakeFields, Limit;
    var bs := ins.Read(Total(widths));
    r := if bs.None? then None else Some(TakeFields(bs.value, widths).value);
  }

  method ReadBase(ins: InStream) returns (base: Option<Base>)
    modifies ins
    ensures Took(base, ins.left, TakeBase(old(ins.left)))
    ensures base.Some? ==> Fits(base.value.fields, BASE_WIDTHS) && |base.value.fields| == |BASE_WIDTHS|
  {
    hide TakeFields, TakeNamed, Limit;
    var fields := ReadFields(BASE_WIDTHS, ins);
    if fields.None? || fields.value[0] != DST_MAGIC || fields.value[1] != BASE_BYTES {
      return None;
    }
    base := ReadNamed(fields.value, ins);
  }

  method ReadNamed(xs: seq<nat>, ins: InStream) returns (base: Option<Base>)
    requires Fits(xs, BASE_WIDTHS)
    modifies ins
    ensures Took(base, ins.left, TakeNamed(xs, old(ins.left)))
    ensures base.Some? ==> base.value.fields == xs
  {
    hide TakeTexts, TakeLabels, FlagSet, Limit;
    assert |xs| == |BASE_WIDTHS|;
    hide Fits;
    var names := ReadTexts(1, 0, ins);
    if names.None? {
      return None;
    }
    var labels: seq<Text> := [];
    if FlagSet(xs[3], 2) {
      var l := ReadTexts(xs[5], 0, ins);
      if l.None? {
        return None;
      }
      labels := l.value;
    }
    return Some(Base(xs, names.value[0], labels));
  }

  /** What a reader of parts returns when it has read some and is to read more. */
  lemma NextTaken(ts: seq<Template>, bs: seq<Byte>, n: nat)
    requires 0 < n
    ensures After(ts, TakeTemplates(bs, n)) ==
              match TakeTemplate(bs)
              case Fail => Fail
              case Ok(t, rest) => After(ts + [t], TakeTemplates(rest, n - 1))
  {
    hide TakeTemplate;
    match TakeTemplate(bs)
    case Fail =>
    case Ok(t, rest) =>
      match TakeTemplates(rest, n - 1)
      case Fail =>
      case Ok(xs, _) => assert ts + ([t] + xs) == ts + [t] + xs;
  }

  /** Reads a template and its parts; None at the end of input, and where the code stops on an assertion. */
  method ReadTemplate(ins: InStream) returns (r: Option<Template>)
    modifies ins
    ensures Took(r, ins.left, TakeTemplate(old(ins.left)))
    decreases |ins.left|
  {
    hide TakeBase, TakeTemplates, Limit, Built, After, Fits;
    var before := ins.left;
    var base := ReadBase(ins);
    if base.None? {
      return None;
    }
    var n := base.value.fields[4];
    ghost var goal := TakeTemplates(ins.left, n);
    var subs: seq<Template> := [];
    AfterNothing(subs, goal, ins.left);
    var i := 0;
    while i < n
      invariant i <= n && |ins.left| < |before|
      invariant goal == After(subs, TakeTemplates(ins.left, n - i))
    {
      NextTaken(subs, ins.left, n - i);
      var sub := ReadTemplate(ins);
      if sub.None? {
        return None;
      }
      subs := subs + [sub.value];
      i := i + 1;
    }
    NoMoreParts(ins.left);
    AfterNothing(subs, goal, ins.left);
    var kind := KindOf(base.value.fields[2], base.value.fields[5], base.value.fields[6], subs);
    r := if kind.None? then None else Some(Built(base.value, kind.value));
  }
}
