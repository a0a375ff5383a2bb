/**
 Statistics files: a header, a template, records of a fixed size from a page boundary on, and an
 index of named records behind them. The index is rewritten by every flush, and the records that
 follow overwrite it.
 */
module StatsFiles {
  import opened Alignment
  import opened LittleEndian
  import opened StatsFormat
  import opened StatsTemplates
  import opened StatsTree

  // ---- Bytes of a file

  ghost predicate At(file: seq<Byte>, pos: nat, bs: seq<Byte>) {
    bs == [] || (pos + |bs| <= |file| && file[pos..pos + |bs|] == bs)
  }

  function Nulls(n: nat): (r: seq<Byte>)
    ensures |r| == n
  {
    if n == 0 then [] else [0] + Nulls(n - 1)
  }

  function Padded(file: seq<Byte>, n: nat): (r: seq<Byte>)
    ensures |r| == if |file| < n then n else |file|
    ensures r[..|file|] == file
  {
    if |file| < n then file + Nulls(n - |file|) else file
  }

  /** The file after bytes were written at a position, which may be behind its end. */
  function Overwritten(file: seq<Byte>, pos: nat, bs: seq<Byte>): seq<Byte> {
    if bs == [] then file
    else
      var p := Padded(file, pos + |bs|);
      p[..pos] + bs + p[pos + |bs|..]
  }

  lemma OverwrittenAt(file: seq<Byte>, pos: nat, bs: seq<Byte>)
    ensures At(Overwritten(file, pos, bs), pos, bs)
  {
  }

  lemma OverwrittenKeeps(file: seq<Byte>, pos: nat, bs: seq<Byte>, q: nat, cs: seq<Byte>)
    requires At(file, q, cs) && (q + |cs| <= pos || pos + |bs| <= q)
    ensures At(Overwritten(file, pos, bs), q, cs)
  {
    if cs != [] && bs != [] {
      var r := Overwritten(file, pos, bs);
      forall k | 0 <= k < |cs|
        ensures r[q + k] == cs[k]
      {
        OverwrittenElsewhere(file, pos, bs, q + k);
        assert file[q..q + |cs|][k] == cs[k];
      }
      assert r[q..q + |cs|] == cs;
    }
  }

  lemma OverwrittenElsewhere(file: seq<Byte>, pos: nat, bs: seq<Byte>, k: nat)
    requires bs != [] && k < |file| && !(pos <= k < pos + |bs|)
    ensures |Overwritten(file, pos, bs)| >= |file| && Overwritten(file, pos, bs)[k] == file[k]
  {
    assert Padded(file, pos + |bs|)[..|file|][k] == file[k];
  }

  lemma AtBoth(file: seq<Byte>, pos: nat, bs: seq<Byte>, cs: seq<Byte>)
    requires At(file, pos, bs) && At(file, pos + |bs|, cs)
    ensures At(file, pos, bs + cs)
  {
    if bs != [] && cs != [] {
      assert file[pos..pos + |bs| + |cs|] == file[pos..pos + |bs|] + file[pos + |bs|..pos + |bs| + |cs|];
    } else {
      assert bs == [] ==> bs + cs == cs;
      assert cs == [] ==> bs + cs == bs;
    }
  }

  class OutFile {
    var bytes: seq<Byte>
    var pos: nat

    constructor ()
      ensures bytes == [] && pos == 0
    {
      bytes, pos := [], 0;
    }

    method Write(bs: seq<Byte>)
      modifies this
      ensures bytes == Overwritten(old(bytes), old(pos), bs) && pos == old(pos) + |bs|
    {
      bytes, pos := Overwritten(bytes, pos, bs), pos + |bs|;
    }

    method Seek(p: nat)
      modifies this
      ensures bytes == old(bytes) && pos == p
    {
      pos := p;
    }
  }

  // ---- Layout

  const FILE_MAGIC: nat := 0x3130_7473_644c_5450
  const HEADER_SIZE: nat := 64
  const HEADER_WIDTHS: seq<nat> := [8, 8, 8, 8, 8, 8, 8, 8]

  datatype FileHeader = FileHeader(templateOffset: nat, templateSize: nat, recordOffset: nat, recordSize: nat,
                                   recordCount: nat, indexOffset: nat, indexCount: nat)

  function HeaderFields(h: FileHeader): (xs: seq<nat>)
    ensures |xs| == |HEADER_WIDTHS|
  {
    [FILE_MAGIC, h.templateOffset, h.templateSize, h.recordOffset, h.recordSize, h.recordCount, h.indexOffset, h.indexCount]
  }

  function PutFileHeader(h: FileHeader): (bs: seq<Byte>)
    ensures |bs| == HEADER_SIZE
  {
    FieldsLength(HeaderFields(h), HEADER_WIDTHS);
    PutFields(HeaderFields(h), HEADER_WIDTHS, [])
  }

  /** Which words of the header say what. */
  lemma HeaderLayout(h: FileHeader)
    requires Fits(HeaderFields(h), HEADER_WIDTHS)
    ensures var bs := PutFileHeader(h);
            && NumberAt(bs, 0, 8, 0x3130_7473_644c_5450)
            && NumberAt(bs, 8, 8, h.templateOffset) && NumberAt(bs, 16, 8, h.templateSize)
            && NumberAt(bs, 24, 8, h.recordOffset) && NumberAt(bs, 32, 8, h.recordSize) && NumberAt(bs, 40, 8, h.recordCount)
            && NumberAt(bs, 48, 8, h.indexOffset) && NumberAt(bs, 56, 8, h.indexCount)
  {
    hide Fits, PutFields, NumberAt;
    forall k | 0 <= k < 8
      ensures NumberAt(PutFileHeader(h), 8 * k, 8, HeaderFields(h)[k])
    {
      EightEach(k);
      FieldAt(HeaderFields(h), HEADER_WIDTHS, [], k, 8 * k);
    }
    var bs := PutFileHeader(h);
    assert NumberAt(bs, 8 * 0, 8, HeaderFields(h)[0]) && NumberAt(bs, 8 * 1, 8, HeaderFields(h)[1]);
    assert NumberAt(bs, 8 * 2, 8, HeaderFields(h)[2]) && NumberAt(bs, 8 * 3, 8, HeaderFields(h)[3]);
    assert NumberAt(bs, 8 * 4, 8, HeaderFields(h)[4]) && NumberAt(bs, 8 * 5, 8, HeaderFields(h)[5]);
    assert NumberAt(bs, 8 * 6, 8, HeaderFields(h)[6]) && NumberAt(bs, 8 * 7, 8, HeaderFields(h)[7]);
  }

  lemma {:induction false} EightEach(k: nat)
    requires k <= 8
    ensures Total(HEADER_WIDTHS[..k]) == 8 * k
  {
    if k > 0 {
      EightEach(k - 1);
      TotalMore(HEADER_WIDTHS, k - 1);
    }
  }

  lemma {:induction false} FieldsLength(xs: seq<nat>, widths: seq<nat>)
    requires |xs| == |widths|
    ensures |PutFields(xs, widths, [])| == Total(widths)
  {
    if xs != [] {
      FieldsLength(xs[1..], widths[1..]);
    }
  }

  /** The first page boundary behind the template. */
  function RecordOffset(templateSize: nat): (r: nat)
    ensures r % PAGE_SIZE == 0 && HEADER_SIZE + templateSize <= r < HEADER_SIZE + templateSize + PAGE_SIZE
  {
    CeilFacts(HEADER_SIZE + templateSize, PAGE_SIZE);
    CeilTo(HEADER_SIZE + templateSize, PAGE_SIZE)
  }

  /** Where record i is, or the index behind i records. */
  function Place(templateSize: nat, recordSize: nat, i: nat): nat {
    RecordOffset(templateSize) + recordSize * i
  }

  lemma PlacesApart(templateSize: nat, recordSize: nat, i: nat, j: nat)
    requires i <= j
    ensures HEADER_SIZE + templateSize <= Place(templateSize, recordSize, i) <= Place(templateSize, recordSize, j)
    ensures Place(templateSize, recordSize, i + 1) == Place(templateSize, recordSize, i) + recordSize
    ensures i < j ==> Place(templateSize, recordSize, i) + recordSize <= Place(templateSize, recordSize, j)
  {
    var d := j - i;
    assert recordSize * j == recordSize * i + recordSize * d;
    assert i < j ==> recordSize <= recordSize * d;
  }

  /** A named record. */
  datatype Snapshot = Snapshot(uuid: nat, name: Text)

  const INDEX_WIDTHS: seq<nat> := [8, 2]

  /** The name with its null, cut to what its 16-bit length says. */
  function StoredName(name: Text): (bs: seq<Byte>)
    ensures |bs| == (|name| + 1) % 65536
  {
    (name + [0])[..(|name| + 1) % 65536]
  }

  function PutSnapshot(s: Snapshot): seq<Byte> {
    PutFields([s.uuid, |s.name| + 1], INDEX_WIDTHS, []) + StoredName(s.name)
  }

  function PutIndex(names: seq<Snapshot>): seq<Byte> {
    if names == [] then [] else PutSnapshot(names[0]) + PutIndex(names[1..])
  }

  function HeaderFor(templateSize: nat, recordSize: nat, recordCount: nat, indexCount: nat): FileHeader {
    FileHeader(HEADER_SIZE, templateSize, RecordOffset(templateSize), recordSize, recordCount,
               Place(templateSize, recordSize, recordCount), indexCount)
  }

  /** The template and the records are in the file. */
  ghost predicate HoldsData(file: seq<Byte>, dst: seq<Byte>, recordSize: nat, records: seq<seq<Byte>>) {
    && At(file, HEADER_SIZE, dst)
    && forall i | 0 <= i < |records| ::
         |records[i]| == recordSize && At(file, Place(|dst|, recordSize, i), records[i])
  }

  /** The file can be read back: the header and the index are there too. */
  ghost predicate Stored(file: seq<Byte>, dst: seq<Byte>, recordSize: nat, records: seq<seq<Byte>>, names: seq<Snapshot>) {
    && HoldsData(file, dst, recordSize, records)
    && At(file, 0, PutFileHeader(HeaderFor(|dst|, recordSize, |records|, |names|)))
    && At(file, Place(|dst|, recordSize, |records|), PutIndex(names))
  }

  /** The names of records, the latest record first. */
  ghost predicate Dated(names: seq<Snapshot>, recordCount: nat) {
    && (forall i | 0 <= i < |names| :: names[i].uuid < recordCount && 0 !in names[i].name)
    && (forall i, j | 0 <= i < j < |names| :: names[i].uuid > names[j].uuid)
  }

  lemma NextDated(names: seq<Snapshot>, recordCount: nat, name: Option<Text>)
    requires Dated(names, recordCount) && (name.Some? ==> 0 !in name.value)
    ensures Dated(Named(names, recordCount, name), recordCount + 1)
  {
  }

  /** The names after another record was written, with a name or without. */
  function Named(names: seq<Snapshot>, recordCount: nat, name: Option<Text>): seq<Snapshot> {
    if name.Some? then [Snapshot(recordCount, name.value)] + names else names
  }

  /** Writing elsewhere keeps the data. */
  lemma KeepsData(file: seq<Byte>, dst: seq<Byte>, recordSize: nat, records: seq<seq<Byte>>, pos: nat, bs: seq<Byte>)
    requires HoldsData(file, dst, recordSize, records)
    requires pos >= Place(|dst|, recordSize, |records|) || pos + |bs| <= HEADER_SIZE
    ensures HoldsData(Overwritten(file, pos, bs), dst, recordSize, records)
  {
    hide Overwritten, At, Place;
    PlacesApart(|dst|, recordSize, 0, |records|);
    OverwrittenKeeps(file, pos, bs, HEADER_SIZE, dst);
    forall i | 0 <= i < |records|
      ensures At(Overwritten(file, pos, bs), Place(|dst|, recordSize, i), records[i])
    {
      PlacesApart(|dst|, recordSize, i, |records|);
      OverwrittenKeeps(file, pos, bs, Place(|dst|, recordSize, i), records[i]);
    }
  }

  /** Writing the next record behind the others. */
  lemma HoldsNext(file: seq<Byte>, dst: seq<Byte>, recordSize: nat, records: seq<seq<Byte>>, record: seq<Byte>)
    requires HoldsData(file, dst, recordSize, records) && |record| == recordSize
    ensures HoldsData(Overwritten(file, Place(|dst|, recordSize, |records|), record), dst, recordSize, records + [record])
  {
    hide Overwritten, At, Place;
    var pos := Place(|dst|, recordSize, |records|);
    KeepsData(file, dst, recordSize, records, pos, record);
    OverwrittenAt(file, pos, record);
  }

  class StatsFileWriter {
    const os: OutFile
    var header: FileHeader
    var namelist: seq<Snapshot> // most recent first
    ghost const dst: seq<Byte>
    ghost var records: seq<seq<Byte>>

    ghost predicate Valid()
      reads this, os
    {
      && header.(indexOffset := 0) == HeaderFor(|dst|, header.recordSize, |records|, |namelist|).(indexOffset := 0)
      && os.pos == Place(|dst|, header.recordSize, |records|)
      && HoldsData(os.bytes, dst, header.recordSize, records)
      && Dated(namelist, |records|)
    }

    /** Opens an empty file and stores the template. */
    constructor (template: seq<Byte>, recordSize: nat)
      ensures Valid() && fresh(os) && dst == template && header.recordSize == recordSize && records == [] && namelist == []
    {
      os := new OutFile();
      dst := template;
      records, namelist := [], [];
      header := FileHeader(HEADER_SIZE, |template|, RecordOffset(|template|), recordSize, 0, 0, 0);
      new;
      hide Place, Overwritten, At;
      os.Write(PutFileHeader(header));
      os.Seek(header.templateOffset);
      OverwrittenAt(os.bytes, os.pos, template);
      os.Write(template);
      os.Seek(header.recordOffset);
      FirstPlace(|template|, recordSize);
    }

    /** Appends a record, with a name or without. */
    method Write(record: seq<Byte>, name: Option<Text>)
      requires Valid() && |record| == header.recordSize && (name.Some? ==> 0 !in name.value)
      modifies this, os
      ensures Valid() && header.recordSize == old(header.recordSize)
      ensures records == old(records) + [record] && namelist == Named(old(namelist), |old(records)|, name)
    {
      hide Place, Overwritten, At;
      NextDated(namelist, |records|, name);
      PlacesApart(|dst|, header.recordSize, |records|, |records|);
      HoldsNext(os.bytes, dst, header.recordSize, records, record);
      if name.Some? {
        namelist := [Snapshot(header.recordCount, name.value)] + namelist;
        header := header.(indexCount := header.indexCount + 1);
      }
      os.Write(record);
      header := header.(recordCount := header.recordCount + 1);
      records := records + [record];
    }

    /** Writes the named records, the latest first, behind all records. */
    method WriteIndex()
      requires Valid()
      modifies os
      ensures HoldsData(os.bytes, dst, header.recordSize, records)
      ensures At(os.bytes, Place(|dst|, header.recordSize, |records|), PutIndex(namelist))
    {
      hide Place, Overwritten, At, HoldsData, PutSnapshot, Dated;
      ghost var start := os.pos;
      ghost var done: seq<Byte> := [];
      NothingWritten(os.bytes, start, namelist);
      var n := 0;
      while n < |namelist|
        invariant n <= |namelist| && os.pos == start + |done| && At(os.bytes, start, done)
        invariant done + PutIndex(namelist[n..]) == PutIndex(namelist)
        invariant HoldsData(os.bytes, dst, header.recordSize, records)
      {
        ghost var entry := PutSnapshot(namelist[n]);
        NextEntry(namelist, n);
        KeepsData(os.bytes, dst, header.recordSize, records, os.pos, entry);
        OverwrittenKeeps(os.bytes, os.pos, entry, start, done);
        OverwrittenAt(os.bytes, os.pos, entry);
        os.Write(PutSnapshot(namelist[n]));
        AtBoth(os.bytes, start, done, entry);
        done := done + entry;
        n := n + 1;
      }
      assert done == PutIndex(namelist);
    }

    /** Writes index and header, so that the file can be read; writing can go on afterwards. */
    method Flush()
      requires Valid()
      modifies this, os
      ensures Valid() && header.recordSize == old(header.recordSize)
      ensures records == old(records) && namelist == old(namelist)
      ensures Stored(os.bytes, dst, header.recordSize, records, namelist)
    {
      hide Place, Overwritten, At, HoldsData, PutIndex, Dated, PutFileHeader;
      header := header.(indexOffset := os.pos);
      WriteIndex();
      os.Seek(0);
      ghost var bs := PutFileHeader(header);
      PlacesApart(|dst|, header.recordSize, 0, |records|);
      KeepsData(os.bytes, dst, header.recordSize, records, 0, bs);
      OverwrittenKeeps(os.bytes, 0, bs, header.indexOffset, PutIndex(namelist));
      OverwrittenAt(os.bytes, 0, bs);
      os.Write(PutFileHeader(header));
      PlaceIs(|dst|, header.recordSize, |records|);
      os.Seek(header.recordOffset + header.recordSize * header.recordCount);
    }
  }

  lemma FirstPlace(templateSize: nat, recordSize: nat)
    ensures Place(templateSize, recordSize, 0) == RecordOffset(templateSize)
  {
  }

  lemma PlaceIs(templateSize: nat, recordSize: nat, i: nat)
    ensures Place(templateSize, recordSize, i) == RecordOffset(templateSize) + recordSize * i
  {
  }

  lemma NothingWritten(file: seq<Byte>, pos: nat, names: seq<Snapshot>)
    ensures At(file, pos, [])
    ensures [] + PutIndex(names[0..]) == PutIndex(names)
    ensures PutIndex(names[|names|..]) == []
  {
    assert names[0..] == names;
  }

  lemma NextEntry(names: seq<Snapshot>, n: nat)
    requires n < |names|
    ensures PutIndex(names[n..]) == PutSnapshot(names[n]) + PutIndex(names[n + 1..])
  {
    hide PutSnapshot;
    assert names[n..][1..] == names[n + 1..];
  }
}
