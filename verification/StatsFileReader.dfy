/**
 Reading statistics files back: what was stored is found again, by number and by name, and the
 difference of two stored records is the difference of their trees.
 */
module StatsFileReaders {
  import opened LittleEndian
  import opened StatsFiles
  import opened StatsFormat
  import opened StatsRoundTrip
  import opened StatsStream
  import opened StatsSubtract
  import opened StatsTemplates
  import opened StatsTree

  /** What is left of the file from a position on. */
  function From(file: seq<Byte>, pos: nat): seq<Byte> {
    if pos <= |file| then file[pos..] else []
  }

  // ---- Opening a file

  datatype Opened = Opened(header: FileHeader, template: Template, uuids: map<Text, nat>)

  function TakeFileHeader(bs: seq<Byte>): (r: Parsed<FileHeader>) {
    var (xs, rest) :- TakeFields(bs, HEADER_WIDTHS);
    if xs[0] != FILE_MAGIC then Fail
    else Ok(FileHeader(xs[1], xs[2], xs[3], xs[4], xs[5], xs[6], xs[7]), rest)
  }

  /** An entry of the index; without a name when its length is zero. */
  function TakeSnapshot(bs: seq<Byte>): (r: Parsed<(nat, Option<Text>)>) {
    var (xs, rest) :- TakeFields(bs, INDEX_WIDTHS);
    if xs[1] == 0 then Ok((xs[0], None), rest)
    else
      var (name, rest') :- TakeText(rest, xs[1]);
      Ok((xs[0], Some(name)), rest')
  }

  function Entered(uuids: map<Text, nat>, uuid: nat, name: Option<Text>): map<Text, nat> {
    if name.Some? then uuids[name.value := uuid] else uuids
  }

  /** Enters n names in turn; later ones replace earlier ones. */
  function TakeIndex(bs: seq<Byte>, n: nat, uuids: map<Text, nat>): (r: Parsed<map<Text, nat>>)
    decreases n
  {
    if n == 0 then Ok(uuids, bs)
    else
      var (entry, rest) :- TakeSnapshot(bs);
      TakeIndex(rest, n - 1, Entered(uuids, entry.0, entry.1))
  }

  function TakeFile(file: seq<Byte>): (r: Parsed<Opened>) {
    var (header, _) :- TakeFileHeader(file);
    var (t, _) :- TakeTemplate(From(file, header.templateOffset));
    var (uuids, rest) :- TakeIndex(From(file, header.indexOffset), header.indexCount, map[]);
    Ok(Opened(header, t, uuids), rest)
  }

  // ---- Opening a file that was stored

  /** The numbers of the named records; a name that was given twice is that of the first record. */
  function Uuids(names: seq<Snapshot>): map<Text, nat> {
    if names == [] then map[] else map[names[0].name := names[0].uuid] + Uuids(names[1..])
  }

  /** A new name is that of the record just written; an old one keeps its record. */
  lemma NextNamed(names: seq<Snapshot>, recordCount: nat, name: Option<Text>)
    ensures Uuids(Named(names, recordCount, name))
         == if name.Some? && name.value !in Uuids(names) then Uuids(names)[name.value := recordCount] else Uuids(names)
  {
    if name.Some? {
      assert Named(names, recordCount, name)[1..] == names;
    }
  }

  lemma {:induction false} UuidsAreFirst(names: seq<Snapshot>, recordCount: nat, k: nat)
    requires Dated(names, recordCount) && k < |names|
    ensures names[k].name in Uuids(names) && Uuids(names)[names[k].name] <= names[k].uuid
  {
    var rest := names[1..];
    assert Dated(rest, recordCount);
    if k > 0 {
      assert names[k] == rest[k - 1];
      UuidsAreFirst(rest, recordCount, k - 1);
    } else if names[0].name in Uuids(rest) {
      UuidsAreNamed(rest, names[0].name);
      var j :| 0 <= j < |rest| && rest[j] == Snapshot(Uuids(rest)[names[0].name], names[0].name);
      assert rest[j] == names[j + 1];
    }
  }

  lemma {:induction false} UuidsAreNamed(names: seq<Snapshot>, name: Text)
    requires name in Uuids(names)
    ensures Snapshot(Uuids(names)[name], name) in names
  {
    var rest := names[1..];
    assert names == [names[0]] + rest;
    if name in Uuids(rest) {
      UuidsAreNamed(rest, name);
    }
  }

  ghost predicate ShortNames(names: seq<Snapshot>) {
    forall i | 0 <= i < |names| :: GoodText(names[i].name, 65535) && names[i].uuid < 0x1_0000_0000_0000_0000
  }

  lemma TakePutSnapshot(s: Snapshot, rest: seq<Byte>)
    requires GoodText(s.name, 65535) && s.uuid < 0x1_0000_0000_0000_0000
    ensures TakeSnapshot(PutSnapshot(s) + rest) == Ok((s.uuid, Some(s.name)), rest)
  {
    var xs := [s.uuid, |s.name| + 1];
    EightBytes();
    TwoBytes();
    hide Limit, PutFields, TakeFields, TakeText;
    assert StoredName(s.name) == s.name + [0];
    FieldsAppend(xs, INDEX_WIDTHS, s.name + [0] + rest);
    TakePutFields(xs, INDEX_WIDTHS, s.name + [0] + rest);
    assert PutSnapshot(s) + rest == PutFields(xs, INDEX_WIDTHS, s.name + [0] + rest);
    TakePutText(s.name, rest);
  }

  lemma {:induction false} TakePutIndex(names: seq<Snapshot>, rest: seq<Byte>, uuids: map<Text, nat>)
    requires ShortNames(names)
    ensures TakeIndex(PutIndex(names) + rest, |names|, uuids) == Ok(uuids + Uuids(names), rest)
  {
    hide TakeSnapshot, PutSnapshot;
    if names == [] {
      assert PutIndex(names) + rest == rest && uuids + map[] == uuids;
    } else {
      var s, more := names[0], PutIndex(names[1..]);
      assert PutIndex(names) + rest == PutSnapshot(s) + (more + rest);
      TakePutSnapshot(s, more + rest);
      TakePutIndex(names[1..], rest, Entered(uuids, s.uuid, Some(s.name)));
      assert uuids[s.name := s.uuid] + Uuids(names[1..]) == uuids + Uuids(names);
    }
  }

  lemma FromAt(file: seq<Byte>, pos: nat, bs: seq<Byte>) returns (rest: seq<Byte>)
    requires At(file, pos, bs)
    ensures From(file, pos) == bs + rest
  {
    if bs == [] {
      rest := From(file, pos);
      assert [] + rest == rest;
    } else {
      rest := file[pos + |bs|..];
      assert file[pos..] == file[pos..pos + |bs|] + rest;
    }
  }

  /** The whole file is smaller than what 64 bits can count. */
  ghost predicate Addressable(templateSize: nat, recordSize: nat, recordCount: nat, indexCount: nat) {
    && Place(templateSize, recordSize, recordCount) < 0x1_0000_0000_0000_0000
    && recordSize < 0x1_0000_0000_0000_0000
    && recordCount < 0x1_0000_0000_0000_0000
    && indexCount < 0x1_0000_0000_0000_0000
  }

  lemma TakePutFileHeader(h: FileHeader, rest: seq<Byte>)
    requires Fits(HeaderFields(h), HEADER_WIDTHS)
    ensures TakeFileHeader(PutFileHeader(h) + rest) == Ok(h, rest)
  {
    FieldsAppend(HeaderFields(h), HEADER_WIDTHS, rest);
    hide TakeFields, PutFields, Limit, Fits;
    TakePutFields(HeaderFields(h), HEADER_WIDTHS, rest);
  }

  lemma HeaderFits(templateSize: nat, recordSize: nat, recordCount: nat, indexCount: nat)
    requires Addressable(templateSize, recordSize, recordCount, indexCount)
    ensures Fits(HeaderFields(HeaderFor(templateSize, recordSize, recordCount, indexCount)), HEADER_WIDTHS)
  {
    EightBytes();
    PlacesApart(templateSize, recordSize, 0, recordCount);
    FirstPlace(templateSize, recordSize);
    hide Limit, Place, RecordOffset;
    assert FILE_MAGIC < 0x1_0000_0000_0000_0000;
  }

  /** Opening a stored file finds its header, its template and its names. */
  lemma OpenStored(file: seq<Byte>, t: Template, recordSize: nat, records: seq<seq<Byte>>, names: seq<Snapshot>)
    requires Storable(t) && ShortNames(names)
    requires var dst := PutTemplate(t, []);
             && Stored(file, dst, recordSize, records, names)
             && Addressable(|dst|, recordSize, |records|, |names|)
    ensures TakeFile(file).Ok?
    ensures TakeFile(file).value == Opened(HeaderFor(|PutTemplate(t, [])|, recordSize, |records|, |names|), t, Uuids(names))
  {
    hide At, PutTemplate, TakeTemplate, TakeIndex, PutIndex, TakeFileHeader, PutFileHeader, From, Storable, Place, Addressable;
    var dst := PutTemplate(t, []);
    var header := HeaderFor(|dst|, recordSize, |records|, |names|);
    HeaderFits(|dst|, recordSize, |records|, |names|);
    var rest1 := FromAt(file, 0, PutFileHeader(header));
    FromStart(file);
    TakePutFileHeader(header, rest1);
    var rest2 := FromAt(file, HEADER_SIZE, dst);
    TemplateAppend(t, rest2);
    TakePutTemplate(t, rest2);
    var rest3 := FromAt(file, header.indexOffset, PutIndex(names));
    TakePutIndex(names, rest3, map[]);
    assert map[] + Uuids(names) == Uuids(names);
  }

  lemma FromStart(file: seq<Byte>)
    ensures From(file, 0) == file
  {
  }

  // ---- Records

  /** The bytes of a record as words. */
  function WordsOf(bs: seq<Byte>): (ws: seq<Word>)
    ensures |ws| == |bs| / 8
  {
    if |bs| < 8 then []
    else
      EightBytes();
      DecodeBound(bs[..8]);
      [Decode(bs[..8])] + WordsOf(bs[8..])
  }

  lemma {:induction false} WordAt(bs: seq<Byte>, k: nat)
    requires 8 * k + 8 <= |bs|
    ensures WordsOf(bs)[k] == Decode(bs[8 * k..8 * k + 8])
  {
    if k > 0 {
      WordAt(bs[8..], k - 1);
      assert bs[8..][8 * (k - 1)..8 * (k - 1) + 8] == bs[8 * k..8 * k + 8];
    }
  }

  /** A string in the words of a record, with its null and anything behind that, is read as it was. */
  lemma {:induction false} StoredText(t: Text, pad: seq<Byte>)
    requires 0 !in t && (|t| + 1 + |pad|) % 8 == 0
    ensures CText(WordsOf(t + [0] + pad)) == t
  {
    hide Encode, Decode, Limit;
    var bs := t + [0] + pad;
    WordBytes(bs[..8]);
    if |t| < 8 {
      assert bs[..8][|t|] == 0;
      assert bs[..8] == t + bs[|t|..8];
      BeforeNulAll(t, bs[|t|..8]);
    } else {
      assert bs[..8] == t[..8] && bs[8..] == t[8..] + [0] + pad;
      StoredText(t[8..], pad);
      assert t == t[..8] + t[8..];
      assert 0 !in t[..8];
    }
  }

  /** The bytes of a word are those it was read from. */
  lemma {:induction false} WordBytes(bs: seq<Byte>)
    ensures Encode(Decode(bs), |bs|) == bs
  {
    if bs != [] {
      WordBytes(bs[1..]);
      LowByte(bs[0], Decode(bs[1..]));
    }
  }

  lemma LowByte(b: Byte, n: nat)
    ensures (b + 256 * n) % 256 == b && (b + 256 * n) / 256 == n
  {
  }

  function RecordAt(header: FileHeader, file: seq<Byte>, uuid: nat): Option<seq<Word>> {
    var left := From(file, header.recordOffset + header.recordSize * uuid);
    if uuid >= header.recordCount || |left| < header.recordSize then None
    else Some(WordsOf(left[..header.recordSize]))
  }

  /** The records of a stored file are found by their numbers, and no others. */
  lemma StoredRecord(file: seq<Byte>, dst: seq<Byte>, recordSize: nat, records: seq<seq<Byte>>, names: seq<Snapshot>, uuid: nat)
    requires Stored(file, dst, recordSize, records, names)
    ensures RecordAt(HeaderFor(|dst|, recordSize, |records|, |names|), file, uuid)
         == if uuid < |records| then Some(WordsOf(records[uuid])) else None
  {
    hide WordsOf, PutIndex, PutFileHeader, At;
    if uuid < |records| {
      assert At(file, Place(|dst|, recordSize, uuid), records[uuid]);
      var rest := FromAt(file, Place(|dst|, recordSize, uuid), records[uuid]);
      PlaceIs(|dst|, recordSize, uuid);
      hide Place;
      assert (records[uuid] + rest)[..recordSize] == records[uuid];
    }
  }

  /** The tree of the difference of two records; none when either is missing. */
  function Delta(f: DoubleSub, h: Buckets, o: Opened, file: seq<Byte>, uuid: nat, uuidsub: nat): Option<Node>
    requires WellFormed(o.template) && Size(o.template) <= o.header.recordSize / 8
  {
    var p, q := RecordAt(o.header, file, uuid), RecordAt(o.header, file, uuidsub);
    if p.None? || q.None? then None
    else Some(Reconstruct(h, o.template, SubWords(f, o.template, p.value, q.value)))
  }

  /**
   What is read from a stored file as the difference of two records is the difference of their
   trees, if strings end before the next number in the first record.
   */
  lemma StoredDelta(f: DoubleSub, h: Buckets, file: seq<Byte>, t: Template, recordSize: nat, records: seq<seq<Byte>>,
                    names: seq<Snapshot>, uuid: nat, uuidsub: nat)
    requires Storable(t) && ShortNames(names)
    requires var dst := PutTemplate(t, []);
             && Stored(file, dst, recordSize, records, names)
             && Addressable(|dst|, recordSize, |records|, |names|)
    requires WellFormed(t) && Size(t) <= recordSize / 8
    requires uuid < |records| && uuidsub < |records|
    requires |WordsOf(records[uuid])| >= Size(t) && Contained(t, WordsOf(records[uuid]), [])
    ensures
      var r := TakeFile(file);
      && r.Ok? && r.value.template == t && r.value.header.recordSize == recordSize
      && var d := Delta(f, h, r.value, file, uuid, uuidsub);
      && d.Some?
      && NodeDifference(f, Reconstruct(h, t, WordsOf(records[uuid])), Reconstruct(h, t, WordsOf(records[uuidsub])), d.value)
  {
    hide NodeDifference, Reconstruct, SubWords, Contained, TakeFile, RecordAt, WordsOf, Storable, PutTemplate, HeaderFor, Addressable,
         WellFormed, Delta;
    var dst, p, q := PutTemplate(t, []), WordsOf(records[uuid]), WordsOf(records[uuidsub]);
    RecordSizes(file, dst, recordSize, records);
    hide HoldsData;
    OpenStored(file, t, recordSize, records, names);
    StoredRecord(file, dst, recordSize, records, names, uuid);
    StoredRecord(file, dst, recordSize, records, names, uuidsub);
    hide Stored;
    SameRecordSize(|dst|, recordSize, |records|, |names|);
    SubtractCommutes(f, h, t, p, q);
    DeltaIs(f, h, TakeFile(file).value, file, uuid, uuidsub, p, q);
  }

  lemma SameRecordSize(templateSize: nat, recordSize: nat, recordCount: nat, indexCount: nat)
    ensures HeaderFor(templateSize, recordSize, recordCount, indexCount).recordSize == recordSize
  {
  }

  lemma DeltaIs(f: DoubleSub, h: Buckets, o: Opened, file: seq<Byte>, uuid: nat, uuidsub: nat, p: seq<Word>, q: seq<Word>)
    requires WellFormed(o.template) && Size(o.template) <= o.header.recordSize / 8
    requires RecordAt(o.header, file, uuid) == Some(p) && RecordAt(o.header, file, uuidsub) == Some(q)
    ensures |p| == |q| == o.header.recordSize / 8
    ensures Delta(f, h, o, file, uuid, uuidsub) == Some(Reconstruct(h, o.template, SubWords(f, o.template, p, q)))
  {
    hide Reconstruct, SubWords, WordsOf, WellFormed;
  }

  lemma RecordSizes(file: seq<Byte>, dst: seq<Byte>, recordSize: nat, records: seq<seq<Byte>>)
    requires HoldsData(file, dst, recordSize, records)
    ensures forall i | 0 <= i < |records| :: |WordsOf(records[i])| == recordSize / 8
  {
  }

  // ---- Numbers as names

  predicate AllDigits(name: Text) {
    forall i | 0 <= i < |name| :: 0x30 <= name[i] <= 0x39
  }

  function Digit(b: Byte): int {
    (if b < 128 then b else b - 256) - 0x30
  }

  /** The number that a name says, in 64 bits. */
  function NumberOf(name: Text): Word {
    if name == [] then 0
    else
      var last := |name| - 1;
      (NumberOf(name[..last]) * 10 + Digit(name[last])) % 0x1_0000_0000_0000_0000
  }

  /** Decimal digits, without leading zeros. */
  function Decimal(n: nat): Text {
    if n < 10 then [0x30 + n] else Decimal(n / 10) + [0x30 + n % 10]
  }

  /** The decimal name of a record says its number. */
  lemma {:induction false} DecimalNames(n: nat)
    requires n < 0x1_0000_0000_0000_0000
    ensures AllDigits(Decimal(n)) && NumberOf(Decimal(n)) == n
  {
    var s := Decimal(n);
    if n < 10 {
      assert s[..0] == [] && NumberOf([]) == 0;
    } else {
      DecimalNames(n / 10);
      assert s[..|s| - 1] == Decimal(n / 10);
    }
  }

  // ---- The reader

  class StatsFileReader {
    var file: seq<Byte>
    var contents: Option<Opened>
    var buf: array<Word>
    var bufsub: array<Word>

    constructor ()
      ensures contents == None
    {
      file, contents := [], None;
      buf, bufsub := new Word[0], new Word[0];
    }

    ghost predicate Valid()
      reads this
    {
      && contents.Some?
      && TakeFile(file).Ok? && TakeFile(file).value == contents.value
      && buf != bufsub
      && buf.Length == bufsub.Length == contents.value.header.recordSize / 8
    }

    /** Opens a file, of which the bytes are given. */
    method Open(bytes: seq<Byte>) returns (ok: bool)
      modifies this
      ensures ok == TakeFile(bytes).Ok?
      ensures ok ==> Valid() && file == bytes && fresh(buf) && fresh(bufsub)
    {
      hide TakeFileHeader, TakeTemplate, TakeIndex, From;
      file := bytes;
      var ins := new InStream(file);
      var h := ReadFileHeader(ins);
      if h.None? {
        return false;
      }
      var header := h.value;
      ins := new InStream(From(file, header.templateOffset));
      var t := ReadTemplate(ins);
      if t.None? {
        return false;
      }
      ins := new InStream(From(file, header.indexOffset));
      var uuids := ReadIndex(header.indexCount, ins);
      if uuids.None? {
        return false;
      }
      contents := Some(Opened(header, t.value, uuids.value));
      buf, bufsub := new Word[header.recordSize / 8], new Word[header.recordSize / 8];
      return true;
    }

    /** Copies a record into a buffer; fails when it is not in the file. */
    method Load(uuid: nat, into: array<Word>) returns (ok: bool)
      requires Valid() && (into == buf || into == bufsub)
      modifies into
      ensures var r := RecordAt(contents.value.header, file, uuid);
              && ok == r.Some?
              && (ok ==> into[..] == r.value)
    {
      hide WordsOf, TakeFile;
      var header := contents.value.header;
      if uuid >= header.recordCount {
        return false;
      }
      var ins := new InStream(From(file, header.recordOffset + header.recordSize * uuid));
      var bs := ins.Read(header.recordSize);
      if bs.None? {
        return false;
      }
      Fill(into, bs.value);
      return true;
    }

    /** The tree of a record, none when it is not in the file. */
    method Get(h: Buckets, uuid: nat) returns (dsn: Option<Node>)
      requires Valid() && WellFormed(contents.value.template) && Size(contents.value.template) <= buf.Length
      modifies buf
      ensures
        var r := RecordAt(contents.value.header, file, uuid);
        dsn == if r.Some? then Some(Reconstruct(h, contents.value.template, r.value)) else None
    {
      hide RecordAt, TakeFile, Reconstruct;
      var ok := Load(uuid, buf);
      if !ok {
        return None;
      }
      assert buf[0..] == buf[..];
      var ds, end := Rebuild(h, contents.value.template, buf, 0);
      return Some(ds);
    }

    /** The tree of the difference of two records, none when either is not in the file. */
    method GetDelta(f: DoubleSub, h: Buckets, uuid: nat, uuidsub: nat) returns (dsn: Option<Node>)
      requires Valid() && WellFormed(contents.value.template) && Size(contents.value.template) <= buf.Length
      modifies buf, bufsub
      ensures dsn == Delta(f, h, contents.value, file, uuid, uuidsub)
    {
      hide RecordAt, TakeFile, Reconstruct, SubWords, AfterCells;
      var t := contents.value.template;
      var ok := Load(uuid, buf);
      if !ok || uuidsub >= contents.value.header.recordCount {
        NoRecord(contents.value.header, file, uuidsub);
        return None;
      }
      ok := Load(uuidsub, bufsub);
      if !ok {
        return None;
      }
      ghost var p, q := buf[..], bufsub[..];
      var end, endsub := Subtract(f, t, buf, bufsub, 0, 0);
      WholeRecord(f, t, p, q);
      assert buf[0..] == buf[..];
      var ds, end' := Rebuild(h, t, buf, 0);
      return Some(ds);
    }

    /** The number of a record that is given by its number or its name. */
    method UuidOfName(name: Text) returns (uuid: Option<nat>)
      requires Valid()
      ensures
        var uuids := contents.value.uuids;
        var id := if AllDigits(name) then Some(NumberOf(name)) else if name in uuids then Some(uuids[name]) else None;
        uuid == if id.Some? && id.value < 0x8000_0000_0000_0000 then id else None
    {
      hide AllDigits, NumberOf, TakeFile;
      var allNums, id: Word := true, 0;
      NoDigits(name);
      var i := 0;
      while i < |name|
        invariant i <= |name|
        invariant allNums == AllDigits(name[..i]) && id == NumberOf(name[..i])
      {
        NextDigit(name, i);
        allNums := allNums && 0x30 <= name[i] <= 0x39;
        id := (id * 10 + Digit(name[i])) % 0x1_0000_0000_0000_0000;
        i := i + 1;
      }
      NoDigits(name);
      if allNums {
        return if id < 0x8000_0000_0000_0000 then Some(id) else None;
      }
      if name !in contents.value.uuids {
        return None;
      }
      var found := contents.value.uuids[name];
      return if found < 0x8000_0000_0000_0000 then Some(found) else None;
    }
  }

  method Fill(into: array<Word>, bs: seq<Byte>)
    requires into.Length == |bs| / 8
    modifies into
    ensures into[..] == WordsOf(bs)
  {
    hide WordsOf, Decode, Limit;
    var k := 0;
    while k < into.Length
      invariant k <= into.Length
      invariant into[..k] == WordsOf(bs)[..k]
    {
      WordAt(bs, k);
      EightBytes();
      DecodeBound(bs[8 * k..8 * k + 8]);
      into[k] := Decode(bs[8 * k..8 * k + 8]);
      k := k + 1;
    }
  }

  lemma NextDigit(name: Text, i: nat)
    requires i < |name|
    ensures AllDigits(name[..i + 1]) == (AllDigits(name[..i]) && 0x30 <= name[i] <= 0x39)
    ensures NumberOf(name[..i + 1]) == (NumberOf(name[..i]) * 10 + Digit(name[i])) % 0x1_0000_0000_0000_0000
  {
    hide Digit;
    var more := name[..i + 1];
    assert more[..i] == name[..i] && more[i] == name[i];
    assert AllDigits(more) ==> AllDigits(name[..i]) by {
      assert forall k | 0 <= k < i :: more[k] == name[..i][k];
    }
    assert AllDigits(name[..i]) ==> forall k | 0 <= k < i :: 0x30 <= more[k] <= 0x39 by {
      assert forall k | 0 <= k < i :: more[k] == name[..i][k];
    }
  }

  lemma NoDigits(name: Text)
    ensures AllDigits([]) && NumberOf([]) == 0 && name[..0] == [] && name[..|name|] == name
  {
  }

  lemma WholeRecord(f: DoubleSub, t: Template, p: seq<Word>, q: seq<Word>)
    requires Size(t) <= |p| && Size(t) <= |q|
    ensures AfterCells(f, t, p, q, 0, 0) == SubWords(f, t, p, q)
  {
    hide SubWords;
    assert p[0..] == p && q[0..] == q && p[..0] == [];
  }

  lemma NoRecord(header: FileHeader, file: seq<Byte>, uuid: nat)
    ensures uuid >= header.recordCount ==> RecordAt(header, file, uuid) == None
  {
  }

  method ReadFileHeader(ins: InStream) returns (header: Option<FileHeader>)
    modifies ins
    ensures Took(header, ins.left, TakeFileHeader(old(ins.left)))
  {
    hide TakeFields, Limit;
    var r := ReadFields(HEADER_WIDTHS, ins);
    if r.None? || r.value[0] != FILE_MAGIC {
      return None;
    }
    var xs := r.value;
    return Some(FileHeader(xs[1], xs[2], xs[3], xs[4], xs[5], xs[6], xs[7]));
  }

  /** Reads n entries of the index in turn. */
  method ReadIndex(n: nat, ins: InStream) returns (uuids: Option<map<Text, nat>>)
    modifies ins
    ensures Took(uuids, ins.left, TakeIndex(old(ins.left), n, map[]))
  {
    hide TakeFields, TakeText, Limit;
    var found: map<Text, nat> := map[];
    var i := 0;
    while i < n
      invariant i <= n
      invariant TakeIndex(ins.left, n - i, found) == TakeIndex(old(ins.left), n, map[])
    {
      var xs := ReadFields(INDEX_WIDTHS, ins);
      if xs.None? {
        return None;
      }
      if xs.value[1] != 0 {
        var name := ReadText(xs.value[1], ins);
        if name.None? {
          return None;
        }
        found := found[name.value := xs.value[0]];
      }
      i := i + 1;
    }
    return Some(found);
  }
}
