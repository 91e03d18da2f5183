/** Writing the tables of a backup: the records appended to one growing file, field by field, row by
    row, until a row cannot be carried. */
module BackupWriter {
  import opened Words
  import opened Power
  import opened ByteStrings
  import opened LittleEndian
  import opened XdrRow
  import opened XdrSlice
  import opened BackupRecords
  import opened BackupTables
  import opened BackupStream
  import opened BackupRestore
  import Framing = BlobFraming
  import RunLength
  import LongRuns
  import BackupReader

  // ------------------------------------------------------------------ metadata

  method WriteField(c: Column, out: Bytes) returns (r: Bytes)
    ensures r == out + Record(FIELD, FieldItems(c))
  {
    hide IntItem, TextItem, Record, FieldOptions, EncodeItems, FieldHead, Bounds;
    var rec := new Rec(out, FIELD);
    WriteHead(rec, c);
    WriteFlags(rec, c);
    WriteDefault(rec, c);
    OptionsJoin(c);
    ghost var items := rec.items;
    assert items == FieldHead(c) + FieldOptions(c);
    if c.dims.Some? {
      rec.Int(29, |c.dims.value|);
      WriteBounds(rec, c.dims.value, 32, 33);
      assert rec.items == items + FieldDims(c);
    } else {
      assert items + [] == items && FieldDims(c) == [];
    }
    assert rec.items == FieldItems(c);
    assert rec.before == out && rec.kind == FIELD;
    r := rec.End();
  }

  method WriteHead(rec: Rec, c: Column)
    requires rec.Valid() && rec.items == []
    modifies rec
    ensures rec.Valid() && rec.before == old(rec.before) && rec.items == FieldHead(c)
  {
    hide IntItem, TextItem, EncodeItems;
    rec.Text(1, c.name);
    rec.Text(48, PUBLIC);
    rec.Text(2, c.source);
    rec.Int(13, c.position);
    rec.Int(8, c.fieldType);
    ghost var first := [TextItem(1, c.name), TextItem(48, PUBLIC), TextItem(2, c.source), IntItem(13, c.position), IntItem(8, c.fieldType)];
    assert rec.items == first;
    WriteNumbers(rec, c);
  }

  method WriteNumbers(rec: Rec, c: Column)
    requires rec.Valid()
    modifies rec
    ensures rec.Valid() && rec.before == old(rec.before)
    ensures rec.items == old(rec.items) + [IntItem(10, c.length), IntItem(9, c.subType), IntItem(11, c.scale), IntItem(22, c.fieldId),
                                           IntItem(24, 0), IntItem(34, c.updateFlag)]
  {
    hide IntItem, TextItem, EncodeItems;
    ghost var start := rec.items;
    rec.Int(10, c.length);
    rec.Int(9, c.subType);
    rec.Int(11, c.scale);
    ghost var half := [IntItem(10, c.length), IntItem(9, c.subType), IntItem(11, c.scale)];
    assert rec.items == start + half;
    rec.Int(22, c.fieldId);
    rec.Int(24, 0);
    rec.Int(34, c.updateFlag);
    assert rec.items == start + (half + [IntItem(22, c.fieldId), IntItem(24, 0), IntItem(34, c.updateFlag)]);
  }

  function FlagItems(c: Column): seq<Item> {
    Optional(c.notNull, IntItem(38, 1)) + BackupTables.DescriptionItem(c) + Optional(c.charset, IntItem(42, 0)) + [IntItem(43, 0)]
  }

  lemma OptionsJoin(c: Column)
    ensures FieldOptions(c) == FlagItems(c) + (DefaultItems(c) + Optional(c.stored.computed, IntItem(23, 1)))
    ensures FieldHead(c) + FlagItems(c) + (DefaultItems(c) + Optional(c.stored.computed, IntItem(23, 1)))
            == FieldHead(c) + FieldOptions(c)
  {
    hide IntItem, FieldHead;
  }

  method WriteFlags(rec: Rec, c: Column)
    requires rec.Valid()
    modifies rec
    ensures rec.Valid() && rec.before == old(rec.before) && rec.items == old(rec.items) + FlagItems(c)
  {
    hide IntItem, TextItem, EncodeItems;
    ghost var start := rec.items;
    if c.notNull {
      rec.Int(38, 1);
    }
    if c.description.Some? {
      rec.Raw(35, c.description.value);
    }
    if c.charset {
      rec.Int(42, 0);
    }
    rec.Int(43, 0);
    assert rec.items == start + FlagItems(c);
  }

  method WriteDefault(rec: Rec, c: Column)
    requires rec.Valid()
    modifies rec
    ensures rec.Valid() && rec.before == old(rec.before)
    ensures rec.items == old(rec.items) + (DefaultItems(c) + Optional(c.stored.computed, IntItem(23, 1)))
  {
    hide IntItem, TextItem, EncodeItems;
    ghost var start := rec.items;
    if c.default.Some? {
      rec.Raw(15, c.default.value.0);
      if c.default.value.1 != [] {
        rec.Raw(39, c.default.value.1);
      }
    }
    if c.stored.computed {
      rec.Int(23, 1);
    }
    assert rec.items == start + (DefaultItems(c) + Optional(c.stored.computed, IntItem(23, 1)));
  }

  method WriteBounds(rec: Rec, dims: seq<(int, int)>, low: u8, high: u8)
    requires rec.Valid()
    modifies rec
    ensures rec.Valid() && rec.before == old(rec.before) && rec.items == old(rec.items) + Bounds(dims, low, high)
  {
    hide IntItem, EncodeItems;
    ghost var start := rec.items;
    assert start + [] == start;
    for k := 0 to |dims|
      invariant rec.Valid() && rec.before == old(rec.before)
      invariant rec.items + Bounds(dims[k..], low, high) == start + Bounds(dims, low, high)
    {
      ghost var items := rec.items;
      assert dims[k..][1..] == dims[k + 1..];
      rec.Int(low, dims[k].0);
      rec.Int(high, dims[k].1);
      assert rec.items + Bounds(dims[k + 1..], low, high)
             == items + ([IntItem(low, dims[k].0), IntItem(high, dims[k].1)] + Bounds(dims[k + 1..], low, high));
    }
    assert rec.items + [] == rec.items;
  }

  method WriteOptionalText(rec: Rec, tag: u8, text: Option<Bytes>)
    requires rec.Valid()
    modifies rec
    ensures rec.Valid() && rec.before == old(rec.before) && rec.items == old(rec.items) + OptionalText(tag, text)
  {
    if text.Some? {
      rec.Text(tag, text.value);
    }
  }

  method WriteRelation(t: Table, out: Bytes) returns (r: Bytes)
    ensures r == out + Record(RELATION, RelationItems(t))
  {
    hide IntItem, TextItem, Record, EncodeItems, OptionalText;
    var rec := new Rec(out, RELATION);
    rec.Text(21, PUBLIC);
    rec.Text(1, t.name);
    rec.Int(16, 1);
    ghost var h := [TextItem(21, PUBLIC), TextItem(1, t.name), IntItem(16, 1)];
    assert rec.items == h;
    WriteOptionalText(rec, 8, t.securityClass);
    WriteOptionalText(rec, 12, t.owner);
    WriteOptionalText(rec, 17, t.extFile);
    rec.Int(18, t.kind);
    ghost var items := rec.items;
    assert items + [] == items;
    if t.description.Some? {
      rec.Raw(13, t.description.value);
    }
    assert rec.items == items + BackupStream.DescriptionItem(t);
    assert rec.items == RelationItems(t);
    assert rec.before == out && rec.kind == RELATION;
    r := rec.End();
  }

  method WriteMeta(t: Table, out: Bytes) returns (r: Bytes)
    ensures r == out + MetaOf(t)
  {
    hide Record, FieldItems, RelationItems;
    r := WriteRelation(t, out);
    ghost var head := Record(RELATION, RelationItems(t));
    assert out + head + [] == out + head;
    for k := 0 to |t.cols|
      invariant r == out + head + FieldRecords(t.cols[..k])
    {
      assert t.cols[..k + 1][..k] == t.cols[..k];
      ghost var before := FieldRecords(t.cols[..k]);
      r := WriteField(t.cols[k], r);
      assert out + head + before + Record(FIELD, FieldItems(t.cols[k])) == out + head + (before + Record(FIELD, FieldItems(t.cols[k])));
    }
    assert t.cols[..|t.cols|] == t.cols;
    r := r + [RELATION_END];
    assert r == out + MetaOf(t);
  }

  // ------------------------------------------------------------------ rows

  /** A blob the writer can carry: segments within a 16-bit frame. */
  ghost predicate BlobWritable(image: Bytes, c: Column, store: Bytes -> Content) {
    WritesBlob(image, c) ==>
      var s := store(Id(image, c.stored));
      s.Segments? && Framing.Framable(s.segments)
  }

  ghost predicate ArrayWritable(image: Bytes, c: Column, store: Bytes -> Content) {
    WritesArray(image, c) ==>
      var e := store(Id(image, c.stored));
      e.Elements? && Sound(c.shape) && Slice(c.shape, e.data).Some?
  }

  /** A row the writer can carry. */
  ghost predicate RowWritable(image: Bytes, cols: seq<Column>, store: Bytes -> Content) {
    && Row(image, StoredCols(cols)).Some?
    && (forall c :: c in cols ==> BlobWritable(image, c, store))
    && forall c :: c in cols ==> ArrayWritable(image, c, store)
  }

  lemma {:induction false} LongestFits(segments: seq<Bytes>)
    ensures MaxLength(segments) < 0x1_0000 <==> Framing.Framable(segments)
  {
    if segments != [] {
      var n := |segments| - 1;
      LongestFits(segments[..n]);
      assert forall i :: 0 <= i < n ==> segments[..n][i] == segments[i];
      if Framing.Framable(segments[..n]) && |segments[n]| < 0x1_0000 {
        assert forall i :: 0 <= i < |segments| ==> segments[i] == if i < n then segments[..n][i] else segments[n];
      }
      if Framing.Framable(segments) {
        assert |segments[n]| < 0x1_0000;
      }
    }
  }

  method WriteBlob(c: Column, stream: bool, segments: seq<Bytes>, out: Bytes) returns (r: Option<Bytes>)
    ensures r.Some? <==> Framing.Framable(segments)
    ensures r.Some? ==> r.value == out + BlobRecord(c.fieldId, stream, segments)
  {
    hide IntItem, EncodeItems, Framing.Frame;
    LongestFits(segments);
    var longest := MaxLength(segments);
    if longest > 0xffff {
      return None;
    }
    var rec := new Rec(out, BLOB_REC);
    rec.Int(3, c.fieldId);
    rec.Int(6, longest);
    rec.Int(5, |segments|);
    rec.Int(4, if stream then 1 else 0);
    assert rec.items == BlobItems(c.fieldId, stream, segments);
    var b := rec.out + [7];
    ghost var head := b;
    assert b + [] == b;
    for k := 0 to |segments|
      invariant b + Framing.Frame(segments[k..]) == head + Framing.Frame(segments)
    {
      ghost var before := b;
      b := b + Le(|segments[k]|, 2) + segments[k];
      FrameStep(segments[k..]);
      assert segments[k..][1..] == segments[k + 1..];
      assert b + Framing.Frame(segments[k + 1..]) == before + (Le(|segments[k]|, 2) + segments[k] + Framing.Frame(segments[k + 1..]));
    }
    FrameEnd();
    assert b + [] == b;
    assert head + Framing.Frame(segments) == out + BlobRecord(c.fieldId, stream, segments);
    r := Some(b);
  }

  lemma FrameStep(segments: seq<Bytes>)
    requires segments != []
    ensures Framing.Frame(segments) == Le(|segments[0]|, 2) + segments[0] + Framing.Frame(segments[1..])
  {
  }

  lemma FrameEnd()
    ensures Framing.Frame([]) == []
  {
  }

  method WriteArray(c: Column, dims: seq<(int, int)>, data: Bytes, out: Bytes) returns (r: Option<Bytes>)
    requires Sound(c.shape)
    ensures r.Some? <==> Slice(c.shape, data).Some?
    ensures r.Some? ==> r.value == out + ArrayRecord(c.fieldId, dims, data, Slice(c.shape, data).value)
  {
    hide IntItem, EncodeItems, Slice, Bounds, Sound;
    var xdr := EncodeSlice(c.shape, data);
    if xdr == None {
      return None;
    }
    var rec := new Rec(out, ARRAY_REC);
    rec.Int(3, c.fieldId);
    rec.Int(14, |dims|);
    WriteBounds(rec, dims, 15, 16);
    assert rec.items == ArrayItems(c.fieldId, dims);
    var b := rec.out + [7] + Le(|data|, 4);
    if data != [] {
      b := b + [18] + Le(|xdr.value|, 4) + xdr.value;
    }
    assert b == out + ArrayRecord(c.fieldId, dims, data, xdr.value);
    r := Some(b);
  }

  method WriteBlobs(image: Bytes, cols: seq<Column>, store: Bytes -> Content, out: Bytes) returns (r: Option<Bytes>)
    ensures r.Some? <==> forall c :: c in cols ==> BlobWritable(image, c, store)
    ensures r.Some? ==> r.value == out + RowBlobs(image, cols, store)
  {
    hide HasId, BlobRecord, Framing.Framable;
    var b := out;
    assert out + [] == out;
    for k := 0 to |cols|
      invariant b == out + RowBlobs(image, cols[..k], store)
      invariant forall c :: c in cols[..k] ==> BlobWritable(image, c, store)
    {
      var c := cols[k];
      assert cols[..k + 1][..k] == cols[..k] && cols[..k + 1] == cols[..k] + [c];
      assert c in cols;
      ghost var before := RowBlobs(image, cols[..k], store);
      assert before + [] == before;
      if WritesBlob(image, c) {
        match store(Id(image, c.stored)) {
          case Elements(_, _) =>
            assert !BlobWritable(image, c, store);
            return None;
          case Segments(stream, segments) =>
            var next := WriteBlob(c, stream, segments, b);
            if next == None {
              assert !BlobWritable(image, c, store);
              return None;
            }
            b := next.value;
            assert out + before + BlobOf(image, c, store) == out + (before + BlobOf(image, c, store));
        }
      }
    }
    assert cols[..|cols|] == cols;
    r := Some(b);
  }

  method WriteArrays(image: Bytes, cols: seq<Column>, store: Bytes -> Content, out: Bytes) returns (r: Option<Bytes>)
    requires SoundShapes(cols)
    ensures r.Some? <==> forall c :: c in cols ==> ArrayWritable(image, c, store)
    ensures r.Some? ==> r.value == out + RowArrays(image, cols, store)
  {
    hide HasId, ArrayRecord, Sound, Slice, ZeroId, RowArrays;
    var b := out;
    assert out + [] == out;
    ArraysPushed(image, cols, store, 0);
    for k := 0 to |cols|
      invariant SoundShapes(cols[..k]) && b == out + RowArrays(image, cols[..k], store)
      invariant forall c :: c in cols[..k] ==> ArrayWritable(image, c, store)
    {
      var c := cols[k];
      assert cols[..k + 1] == cols[..k] + [c];
      assert c in cols;
      ArraysPushed(image, cols, store, k + 1);
      ghost var before := RowArrays(image, cols[..k], store);
      if WritesArray(image, c) {
        match store(Id(image, c.stored)) {
          case Segments(_, _) =>
            assert !ArrayWritable(image, c, store);
            return None;
          case Elements(dims, data) =>
            var next := WriteArray(c, dims, data, b);
            if next == None {
              assert !ArrayWritable(image, c, store);
              return None;
            }
            b := next.value;
            assert out + before + ArrayOf(image, c, store) == out + (before + ArrayOf(image, c, store));
        }
      }
    }
    assert cols[..|cols|] == cols;
    r := Some(b);
  }

  /** One row: encoded, packed, and followed by its blobs and arrays. */
  method WriteRow(image: Bytes, cols: seq<Column>, store: Bytes -> Content, out: Bytes)
    returns (r: Option<Bytes>, ghost tokens: seq<RunLength.Token>)
    requires SoundShapes(cols) && (Row(image, StoredCols(cols)).Some? ==> |Row(image, StoredCols(cols)).value| < 0x8000_0000)
    ensures r.Some? <==> RowWritable(image, cols, store)
    ensures r.Some? ==> PacksRow(image, cols, tokens) && r.value == out + RowBytes(image, cols, store, tokens)
    ensures r.Some? ==> RunLength.PackedAs(Row(image, StoredCols(cols)).value, tokens)
  {
    hide Row, IntItem, EncodeItems, EncodeItem, RowBlobs, RowArrays, BlobWritable, ArrayWritable, SoundShapes, StoredCols;
    hide RunLength.EncodeAll, RunLength.MeaningAll, RunLength.AllWellFormed, RunLength.Plain, RunLength.NoLongRun, RunLength.Tidy;
    tokens := [];
    var xdr := EncodeRow(image, StoredCols(cols));
    if xdr == None {
      return None, [];
    }
    var packed;
    packed, tokens := RunLength.Pack(xdr.value);
    var b := out + [DATA_REC] + EncodeItem(IntItem(1, |xdr.value|)) + EncodeItem(IntItem(17, |xdr.value|)) + [2] + packed;
    assert b == out + RowRecord(xdr.value, tokens);
    var blobs := WriteBlobs(image, cols, store, b);
    if blobs == None {
      return None, tokens;
    }
    r := WriteArrays(image, cols, store, blobs.value);
    if r.Some? {
      assert r.value == out + RowBytes(image, cols, store, tokens);
    }
  }

  // ------------------------------------------------------------------ tables

  /** What the writer's callers give it: array shapes as the catalog stores them, rows within the 32-bit
      length their records carry. */
  ghost predicate Given(t: Table) {
    && SoundShapes(t.cols)
    && forall image :: image in t.rows && Row(image, StoredCols(t.cols)).Some? ==> |Row(image, StoredCols(t.cols)).value| < 0x8000_0000
  }

  ghost predicate TableWritable(t: Table, store: Bytes -> Content) {
    forall image :: image in t.rows ==> RowWritable(image, t.cols, store)
  }

  /** No row of a table has a run of more than 128 equal bytes. */
  ghost predicate ShortRuns(t: Table) {
    forall image :: image in t.rows && Row(image, StoredCols(t.cols)).Some? ==> RunLength.NoLongRun(Row(image, StoredCols(t.cols)).value)
  }

  method WriteRows(t: Table, store: Bytes -> Content, out: Bytes) returns (r: Option<Bytes>, ghost packs: seq<seq<RunLength.Token>>)
    requires Given(t)
    ensures r.Some? <==> TableWritable(t, store)
    ensures r.Some? ==> PacksTable(t, packs) && forall p :: p in packs ==> RunLength.AllWellFormed(p)
    ensures r.Some? ==> r.value == out + RowsBytes(t.rows, t.cols, store, packs)
    ensures r.Some? && ShortRuns(t) ==> PlainRows(packs)
  {
    hide Row, RowWritable, RowBytes, PacksRow, RunLength.NoLongRun, RunLength.AllWellFormed, RunLength.Plain, SoundShapes, StoredCols;
    hide RowsBytes, RunLength.Tidy, RunLength.MeaningAll;
    packs := [];
    var b := out;
    NoRows(t.cols, store);
    assert out + [] == out && t.rows[..0] == [];
    for k := 0 to |t.rows|
      invariant |packs| == k && (forall i :: 0 <= i < k ==> PacksRow(t.rows[i], t.cols, packs[i]))
      invariant forall p :: p in packs ==> RunLength.AllWellFormed(p)
      invariant b == out + RowsBytes(t.rows[..k], t.cols, store, packs)
      invariant forall image :: image in t.rows[..k] ==> RowWritable(image, t.cols, store)
      invariant ShortRuns(t) ==> PlainRows(packs)
    {
      var image := t.rows[k];
      assert image in t.rows;
      assert t.rows[..k + 1] == t.rows[..k] + [image];
      var next;
      ghost var tokens;
      next, tokens := WriteRow(image, t.cols, store, b);
      if next == None {
        return None, packs;
      }
      PackedRow(image, t.cols, tokens);
      WritableRow(image, t.cols, store);
      RowsPushed(t.rows[..k], t.cols, store, packs, image, tokens);
      ghost var before := RowsBytes(t.rows[..k], t.cols, store, packs);
      assert out + before + RowBytes(image, t.cols, store, tokens) == out + (before + RowBytes(image, t.cols, store, tokens));
      b := next.value;
      packs := packs + [tokens];
    }
    assert t.rows[..|t.rows|] == t.rows;
    r := Some(b);
  }

  lemma NoRows(cols: seq<Column>, store: Bytes -> Content)
    requires SoundShapes(cols)
    ensures RowsBytes([], cols, store, []) == []
  {
  }

  lemma PackedRow(image: Bytes, cols: seq<Column>, tokens: seq<RunLength.Token>)
    requires PacksRow(image, cols, tokens)
    ensures RunLength.AllWellFormed(tokens)
  {
  }

  lemma WritableRow(image: Bytes, cols: seq<Column>, store: Bytes -> Content)
    requires RowWritable(image, cols, store)
    ensures Row(image, StoredCols(cols)).Some?
  {
  }

  lemma RowsPushed(rows: seq<Bytes>, cols: seq<Column>, store: Bytes -> Content, packs: seq<seq<RunLength.Token>>,
                   image: Bytes, tokens: seq<RunLength.Token>)
    requires |packs| == |rows| && SoundShapes(cols) && (forall p :: p in packs ==> RunLength.AllWellFormed(p))
    requires RunLength.AllWellFormed(tokens)
    ensures RowsBytes(rows + [image], cols, store, packs + [tokens])
            == RowsBytes(rows, cols, store, packs) + RowBytes(image, cols, store, tokens)
  {
    hide RowBytes, RunLength.AllWellFormed, SoundShapes;
    var n := |rows|;
    assert (rows + [image])[..n] == rows && (packs + [tokens])[..n] == packs;
    assert (rows + [image])[n] == image && (packs + [tokens])[n] == tokens;
  }

  method WriteData(t: Table, store: Bytes -> Content, out: Bytes) returns (r: Option<Bytes>, ghost packs: seq<seq<RunLength.Token>>)
    requires Given(t)
    ensures r.Some? <==> TableWritable(t, store)
    ensures r.Some? ==> PacksTable(t, packs) && SoundShapes(t.cols) && |packs| == |t.rows|
                        && forall p :: p in packs ==> RunLength.AllWellFormed(p)
    ensures r.Some? ==> r.value == out + DataOf(t, store, packs)
    ensures r.Some? && ShortRuns(t) ==> PlainRows(packs)
  {
    hide TableWritable, ShortRuns, PlainRows, RowsBytes, RunLength.AllWellFormed, EncodeItems, IntItem, TextItem, SoundShapes;
    var rec := new Rec(out, RELATION_DATA);
    rec.Text(21, PUBLIC);
    rec.Text(1, t.name);
    assert rec.items == DataItems(t);
    var b := rec.End();
    r, packs := WriteRows(t, store, b);
    if r.Some? {
      r := Some(r.value + [RELATION_END]);
      assert r.value == out + DataOf(t, store, packs);
    }
  }

  method WriteMetas(tables: seq<Table>) returns (r: Bytes)
    ensures r == MetaAll(tables)
  {
    hide MetaOf;
    r := [];
    for k := 0 to |tables|
      invariant r == MetaAll(tables[..k])
    {
      assert tables[..k + 1][..k] == tables[..k];
      r := WriteMeta(tables[k], r);
    }
    assert tables[..|tables|] == tables;
  }

  /** The data of every table, last table first. */
  method WriteDatas(tables: seq<Table>, store: Bytes -> Content, meta: Bytes)
    returns (r: Option<Bytes>, ghost packs: seq<seq<seq<RunLength.Token>>>)
    requires forall t :: t in tables ==> Given(t)
    ensures r.Some? <==> forall t :: t in tables ==> TableWritable(t, store)
    ensures r.Some? ==> PackedAll(tables, packs) && r.value == meta + DataAll(tables, store, packs)
    ensures r.Some? && (forall t :: t in tables ==> ShortRuns(t)) ==> forall p :: p in packs ==> PlainRows(p)
  {
    hide Given, TableWritable, ShortRuns, PlainRows, PacksTable, DataOf, SoundShapes, RunLength.AllWellFormed, PackedAll, DataAll;
    var b := meta;
    packs := [];
    var k := |tables|;
    NoData(store);
    assert meta + [] == meta && tables[k..] == [];
    while k > 0
      invariant 0 <= k <= |tables| && PackedAll(tables[k..], packs) && b == meta + DataAll(tables[k..], store, packs)
      invariant forall t :: t in tables[k..] ==> TableWritable(t, store)
      invariant (forall t :: t in tables ==> ShortRuns(t)) ==> forall p :: p in packs ==> PlainRows(p)
    {
      k := k - 1;
      var t := tables[k];
      assert t in tables;
      assert tables[k..] == [t] + tables[k + 1..];
      var next;
      ghost var rows;
      next, rows := WriteData(t, store, b);
      if next == None {
        return None, packs;
      }
      ghost var after, data := DataAll(tables[k + 1..], store, packs), DataOf(t, store, rows);
      DataPrepended(t, rows, tables[k + 1..], store, packs);
      assert meta + after + data == meta + (after + data);
      b := next.value;
      packs := [rows] + packs;
    }
    assert tables[0..] == tables;
    r := Some(b);
  }

  lemma NoData(store: Bytes -> Content)
    ensures PackedAll([], []) && DataAll([], store, []) == []
  {
  }

  /** The table part of a backup: it succeeds exactly when every row can be carried, and the file then
      holds the metadata in order and the data in reverse. Tables within the premises of the round trip,
      with distinct names and no long runs, are always written, and the file is read back as them. */
  method WriteTables(tables: seq<Table>, store: Bytes -> Content)
    returns (r: Option<Bytes>, ghost packs: seq<seq<seq<RunLength.Token>>>)
    requires forall t :: t in tables ==> Given(t)
    ensures r.Some? <==> forall t :: t in tables ==> TableWritable(t, store)
    ensures r.Some? ==> PackedAll(tables, packs) && r.value == Stream(tables, store, packs)
    ensures r.Some? && (forall t :: t in tables ==> ShortRuns(t)) ==> forall p :: p in packs ==> PlainRows(p)
    ensures (forall t :: t in tables ==> TableOk(t, store) && ShortRuns(t)) && DistinctNames(tables) ==>
              r.Some? && ReadsBack(tables, store, r.value)
  {
    hide Given, TableWritable, ShortRuns, PlainRows, PackedAll, DataAll, MetaAll, TableOk, DistinctNames, ReadsBack;
    var meta := WriteMetas(tables);
    r, packs := WriteDatas(tables, store, meta);
    if forall t :: t in tables ==> TableOk(t, store) && ShortRuns(t) {
      forall t | t in tables ensures TableWritable(t, store) {
        OkIsWritable(t, store);
      }
    }
    if r.Some? {
      r := Some(r.value + [END]);
      if (forall t :: t in tables ==> TableOk(t, store) && ShortRuns(t)) && DistinctNames(tables) {
        StreamReadsBack(tables, store, packs);
      }
    }
  }

  /** The first table's data comes last. */
  lemma {:induction false} DataPrepended(t: Table, rows: seq<seq<RunLength.Token>>, ts: seq<Table>, store: Bytes -> Content,
                                         packs: seq<seq<seq<RunLength.Token>>>)
    requires PackedAll(ts, packs) && PacksTable(t, rows) && SoundShapes(t.cols)
    requires |rows| == |t.rows| && forall p :: p in rows ==> RunLength.AllWellFormed(p)
    ensures PackedAll([t] + ts, [rows] + packs)
    ensures DataAll([t] + ts, store, [rows] + packs) == DataAll(ts, store, packs) + DataOf(t, store, rows)
    decreases |ts|
  {
    hide PacksTable, DataOf, SoundShapes, RunLength.AllWellFormed;
    PackedPrepended(t, rows, ts, packs);
    var n := |ts|;
    if n == 0 {
      assert [t] + ts == [t] && [rows] + packs == [rows] && [t][..0] == [] && [rows][..0] == [];
      assert DataOf(t, store, rows) + [] == DataOf(t, store, rows);
    } else {
      PackedPart(ts, packs);
      DataPrepended(t, rows, ts[..n - 1], store, packs[..n - 1]);
      assert ([t] + ts)[..n] == [t] + ts[..n - 1] && ([rows] + packs)[..n] == [rows] + packs[..n - 1];
      var a, b, c := DataOf(ts[n - 1], store, packs[n - 1]), DataAll(ts[..n - 1], store, packs[..n - 1]), DataOf(t, store, rows);
      assert a + (b + c) == (a + b) + c;
    }
  }

  lemma PackedPrepended(t: Table, rows: seq<seq<RunLength.Token>>, ts: seq<Table>, packs: seq<seq<seq<RunLength.Token>>>)
    requires PackedAll(ts, packs) && PacksTable(t, rows) && SoundShapes(t.cols)
    ensures PackedAll([t] + ts, [rows] + packs)
  {
    hide PacksTable, SoundShapes;
  }

  /** Tables within the premises of the round trip are always carried. */
  lemma OkIsWritable(t: Table, store: Bytes -> Content)
    requires TableOk(t, store)
    ensures TableWritable(t, store)
  {
    hide Carriable, Describes, CarriableTable, ContentOk, Row, StoredCols;
    TableRows(t, store);
    forall image | image in t.rows ensures RowWritable(image, t.cols, store) {
      StoredFull(image, t.cols);
      TypesKnown(image, StoredCols(t.cols));
      RowExists(image, StoredCols(t.cols));
      forall c | c in t.cols ensures BlobWritable(image, c, store) && ArrayWritable(image, c, store) {
        ContentWritable(image, c, store);
      }
    }
  }

  lemma RowExists(image: Bytes, cols: seq<Col>)
    requires forall c :: c in cols && !c.computed ==> c.dtype != OTHER
    ensures Row(image, cols).Some?
  {
    FieldsExist(image, cols);
  }

  lemma ContentWritable(image: Bytes, c: Column, store: Bytes -> Content)
    requires ContentOk(image, c, store)
    ensures BlobWritable(image, c, store) && ArrayWritable(image, c, store)
  {
    hide WritesBlob, WritesArray, Slice, Chunks, Sound;
  }

  // ------------------------------------------------------------------ rows that do not come back

  predicate AllZero(b: Bytes) {
    forall k :: 0 <= k < |b| ==> b[k] == 0
  }

  lemma ZeroField(image: Bytes, c: Col)
    requires AllZero(image) && c.dtype == LONG && c.offset + 4 <= |image|
    ensures !IsNull(image, c.bit) && Field(image, c) == Some([0, 0, 0, 0])
  {
    var b := StoredOrZero(image, c, 4);
    assert b == [0, 0, 0, 0];
    assert LeVal(b) == 0 by {
      Widths();
      LeRoundTrip(0, 4);
      assert Le(0, 4) == [0, 0, 0, 0];
    }
    assert Signed(0, 4) == 0 && Residue(0, 4) == 0;
    assert Be(0, 4) == [0, 0, 0, 0];
  }

  lemma {:induction false} ZeroRow(image: Bytes, cols: seq<Col>)
    requires AllZero(image) && forall c :: c in cols ==> !c.computed && c.dtype == LONG && c.offset + 4 <= |image|
    ensures Fields(image, cols) == Some(RunLength.Times(0, 4 * |cols|)) && Flags(image, cols) == RunLength.Times(0, 4 * |cols|)
  {
    hide Field, IsNull;
    if cols != [] {
      var n := |cols| - 1;
      assert cols[n] in cols;
      assert forall c :: c in cols[..n] ==> c in cols;
      ZeroRow(image, cols[..n]);
      ZeroField(image, cols[n]);
      assert RunLength.Times(0, 4 * n) + [0, 0, 0, 0] == RunLength.Times(0, 4 * n + 4);
    }
  }

  /** A row the writer has put into a file: the backup reader finds its length, and gets its bytes back
      and stops behind them exactly when they hold no run of more than 128 equal bytes. */
  lemma WrittenRowReadsExactly(image: Bytes, cols: seq<Column>, tokens: seq<RunLength.Token>, rest: Bytes)
    requires PacksRow(image, cols, tokens) && RunLength.PackedAs(Row(image, StoredCols(cols)).value, tokens)
    ensures var xdr := Row(image, StoredCols(cols)).value;
            var h := BackupReader.ReadHead(RowRecord(xdr, tokens)[1..] + rest);
            && h.Head? && h.want == |xdr|
            && (RunLength.Expand(h.rest, h.want, []) == RunLength.Row(xdr, rest) <==> RunLength.NoLongRun(xdr))
  {
    hide Row, StoredCols, BackupReader.ReadHead, RunLength.Expand, RunLength.EncodeAll, RunLength.MeaningAll, EncodeItem, IntItem;
    hide RunLength.Tidy, RunLength.Plain, RunLength.NoLongRun, RunLength.AllWellFormed;
    var xdr, body := Row(image, StoredCols(cols)).value, RunLength.EncodeAll(tokens) + rest;
    var heads := EncodeItem(IntItem(1, |xdr|)) + EncodeItem(IntItem(17, |xdr|)) + [2];
    assert RowRecord(xdr, tokens) == [DATA_REC] + (heads + RunLength.EncodeAll(tokens));
    assert RowRecord(xdr, tokens)[1..] + rest == heads + body;
    HeadRoundTrip(|xdr|, body);
    LongRuns.RowReadsExactly(xdr, tokens, rest);
  }

  /** Seventeen or more integer columns, all zero: the row is one long run of zeros, and the reader does
      not get it back, whatever follows it. */
  lemma ZeroRowsAreLost(image: Bytes, cols: seq<Col>, tokens: seq<RunLength.Token>, rest: Bytes)
    requires AllZero(image) && forall c :: c in cols ==> !c.computed && c.dtype == LONG && c.offset + 4 <= |image|
    requires 17 <= |cols| && Row(image, cols).Some? && RunLength.PackedAs(Row(image, cols).value, tokens)
    ensures var n := 8 * |cols|;
            && Row(image, cols) == Some(RunLength.Times(0, n))
            && RunLength.Expand(RunLength.EncodeAll(tokens) + rest, n, []) != RunLength.Row(Row(image, cols).value, rest)
  {
    hide RunLength.Expand, RunLength.EncodeAll, RunLength.MeaningAll, Fields, Flags, RunLength.Tidy, RunLength.Plain;
    var n := 8 * |cols|;
    ZeroRow(image, cols);
    assert RunLength.Times(0, 4 * |cols|) + RunLength.Times(0, 4 * |cols|) == RunLength.Times(0, n);
    LongRuns.RowReadsExactly(RunLength.Times(0, n), tokens, rest);
    assert RunLength.LongRunAt(RunLength.Times(0, n), 0);
  }
}
