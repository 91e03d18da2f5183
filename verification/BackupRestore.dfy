/** Restoring what was backed up: the reader rebuilds the columns, the rows, and the blobs and arrays in
    them, and takes exactly the bytes of each record the writer emits. */
module BackupRestore {
  import opened Words
  import opened Power
  import opened ByteStrings
  import opened LittleEndian
  import opened XdrRow
  import opened XdrSlice
  import opened BackupRecords
  import opened BackupTables
  import opened BackupStream
  import opened BackupReader
  import Framing = BlobFraming
  import RunLength

  // ------------------------------------------------------------------ what is written

  function StoredCols(cols: seq<Column>): (r: seq<Col>)
    ensures |r| == |cols|
  {
    seq(|cols|, k requires 0 <= k < |cols| => cols[k].stored)
  }

  predicate AllCarriable(cols: seq<Column>) {
    forall c :: c in cols ==> Carriable(c)
  }

  function FieldRecords(cols: seq<Column>): Bytes {
    if cols == [] then [] else FieldRecords(cols[..|cols| - 1]) + Record(FIELD, FieldItems(cols[|cols| - 1]))
  }

  /** A table's metadata. */
  function MetaOf(t: Table): Bytes {
    Record(RELATION, RelationItems(t)) + FieldRecords(t.cols) + [RELATION_END]
  }

  /** The eight bytes of a blob id, where the record has one. */
  predicate HasId(image: Bytes, c: Col) {
    !IsNull(image, c.bit) && c.offset + 8 <= |image|
  }

  function Id(image: Bytes, c: Col): (id: Bytes)
    requires HasId(image, c)
    ensures |id| == 8
  {
    image[c.offset..c.offset + 8]
  }

  /** Relation word and record number both zero. */
  predicate ZeroId(id: Bytes)
    requires |id| == 8
  {
    id[0] == 0 && id[1] == 0 && id[3] == 0 && id[4..] == [0, 0, 0, 0]
  }

  predicate WritesBlob(image: Bytes, c: Column) {
    c.stored.dtype == BLOB && HasId(image, c.stored)
  }

  predicate WritesArray(image: Bytes, c: Column) {
    c.dims.Some? && HasId(image, c.stored) && !ZeroId(Id(image, c.stored))
  }

  function BlobOf(image: Bytes, c: Column, store: Bytes -> Content): Bytes
    requires WritesBlob(image, c)
  {
    match store(Id(image, c.stored))
    case Segments(stream, segments) => BlobRecord(c.fieldId, stream, segments)
    case Elements(_, _) => []
  }

  function ArrayOf(image: Bytes, c: Column, store: Bytes -> Content): Bytes
    requires WritesArray(image, c) && Sound(c.shape)
  {
    match store(Id(image, c.stored))
    case Segments(_, _) => []
    case Elements(dims, data) =>
      ArrayRecord(c.fieldId, dims, data, match Slice(c.shape, data) case None => [] case Some(x) => x)
  }

  /** The blob records behind a row, in column order. */
  function RowBlobs(image: Bytes, cols: seq<Column>, store: Bytes -> Content): Bytes {
    if cols == [] then [] else
      var c := cols[|cols| - 1];
      RowBlobs(image, cols[..|cols| - 1], store) + if WritesBlob(image, c) then BlobOf(image, c, store) else []
  }

  predicate SoundShapes(cols: seq<Column>) {
    forall c :: c in cols ==> Sound(c.shape)
  }

  /** The array records behind them. */
  function RowArrays(image: Bytes, cols: seq<Column>, store: Bytes -> Content): Bytes
    requires SoundShapes(cols)
  {
    if cols == [] then [] else
      var c := cols[|cols| - 1];
      RowArrays(image, cols[..|cols| - 1], store) + if WritesArray(image, c) then ArrayOf(image, c, store) else []
  }

  /** A data record: the row's length twice, the bare data tag, and the packed row. */
  function RowRecord(xdr: Bytes, tokens: seq<RunLength.Token>): Bytes
    requires RunLength.AllWellFormed(tokens)
  {
    [DATA_REC] + EncodeItem(IntItem(1, |xdr|)) + EncodeItem(IntItem(17, |xdr|)) + [2] + RunLength.EncodeAll(tokens)
  }

  // ------------------------------------------------------------------ what is read

  /** A stored value as it must come back, with its blob or array. */
  function FinalValue(image: Bytes, c: Column, store: Bytes -> Content): RVal
    requires c.stored.computed || Holds(image, c.stored)
    requires Sound(c.shape)
  {
    if c.stored.computed then Null
    else if WritesBlob(image, c) then
      match store(Id(image, c.stored))
      case Segments(stream, segments) => RVal.Blob(stream, segments)
      case Elements(_, _) => ValueAt(image, c.stored)
    else if WritesArray(image, c) then
      match store(Id(image, c.stored))
      case Segments(_, _) => ValueAt(image, c.stored)
      case Elements(dims, data) => RVal.Array(NativeOf(c.shape, data), dims)
    else ValueAt(image, c.stored)
  }

  /** An array's elements as the reader leaves them. */
  function NativeOf(sh: Shape, data: Bytes): Bytes
    requires Sound(sh)
  {
    if sh.length == 0 || |data| % sh.length != 0 then data
    else
      ChunksJoin(data, sh.length);
      NormalAll(sh, Chunks(data, sh.length))
  }

  /** A row once the first `kb` columns' blobs and the first `ka` columns' arrays have been read. */
  function PartialRow(image: Bytes, cols: seq<Column>, store: Bytes -> Content, kb: nat, ka: nat): (r: seq<RVal>)
    requires RowOk(image, cols)
    ensures |r| == |cols|
  {
    seq(|cols|, j requires 0 <= j < |cols| =>
      if cols[j].stored.computed then Null
      else if (WritesBlob(image, cols[j]) && j < kb) || (WritesArray(image, cols[j]) && j < ka) then FinalValue(image, cols[j], store)
      else ValueAt(image, cols[j].stored))
  }

  ghost predicate RowOk(image: Bytes, cols: seq<Column>) {
    forall c :: c in cols ==> Sound(c.shape) && (c.stored.computed || Holds(image, c.stored))
  }

  function FinalRow(image: Bytes, cols: seq<Column>, store: Bytes -> Content): (r: seq<RVal>)
    requires RowOk(image, cols)
  {
    seq(|cols|, j requires 0 <= j < |cols| => FinalValue(image, cols[j], store))
  }

  // ------------------------------------------------------------------ what the source promises for

  /** A column whose records say what its descriptor says. */
  predicate Consistent(c: Column) {
    && Carriable(c) && Sound(c.shape)
    && Describes(RColOf(Rebuilt(c)), c.stored)
    && (c.dims.Some? <==> c.stored.dtype == ARRAY)
    && (c.stored.computed ==> c.stored.dtype != BLOB && c.stored.dtype != ARRAY)
    && (c.stored.dtype == ARRAY ==>
          Supported(c.shape.dtype) && c.shape.length > 0 && CountsFit(c.shape) && DescribesElement(RColOf(Rebuilt(c)), c.shape))
  }

  /** The contents of a record's blobs and arrays: frames that fit, arrays that are not empty. */
  ghost predicate ContentOk(image: Bytes, c: Column, store: Bytes -> Content) {
    && (WritesBlob(image, c) ==>
          var s := store(Id(image, c.stored));
          s.Segments? && Framing.Framable(s.segments) && |s.segments| < 0x8000_0000)
    && (WritesArray(image, c) ==>
          var e := store(Id(image, c.stored));
          && e.Elements? && BoundsFit(e.dims) && |e.dims| < 0x8000_0000
          && e.data != [] && |e.data| < 0x1_0000_0000 && c.shape.length > 0 && |e.data| % c.shape.length == 0
          && Product(e.dims) == |Chunks(e.data, c.shape.length)|
          && Sound(c.shape) && Slice(c.shape, e.data).Some? && |Slice(c.shape, e.data).value| < 0x1_0000_0000)
  }

  predicate AllConsistent(cols: seq<Column>) {
    AllCarriable(cols) && forall c :: c in cols ==> Consistent(c)
  }

  predicate DistinctIds(cols: seq<Column>) {
    forall i, j :: 0 <= i < j < |cols| ==> cols[i].fieldId != cols[j].fieldId
  }

  ghost predicate TableOk(t: Table, store: Bytes -> Content) {
    && CarriableTable(t) && DistinctIds(t.cols)
    && AllConsistent(t.cols)
    && forall image, c :: image in t.rows && c in t.cols ==>
         (c.stored.computed || Holds(image, c.stored)) && ContentOk(image, c, store)
  }

  function RebuiltAll(cols: seq<Column>): (r: seq<ReadCol>)
    requires AllCarriable(cols)
    ensures |r| == |cols|
  {
    seq(|cols|, k requires 0 <= k < |cols| =>
      assert cols[k] in cols;
      Rebuilt(cols[k]))
  }

  // ------------------------------------------------------------------ reading the metadata

  lemma RecordHead(kind: u8, items: seq<Item>, rest: Bytes)
    ensures var f := Record(kind, items) + rest;
            f != [] && f[0] == kind && f[1..] == EncodeItems(items) + [0] + rest
  {
    assert Record(kind, items) + rest == [kind] + (EncodeItems(items) + [0] + rest);
  }

  lemma ReadsRelation(s: State, t: Table, rest: Bytes)
    requires s.Valid() && CarriableTable(t)
    ensures var blank := ReadTable(t.name, t.kind, t.extFile, [], []);
            ReadOne(s, Record(RELATION, RelationItems(t)) + rest)
            == Next(s.(tables := s.tables + [blank], current := Some(|s.tables|)), rest)
  {
    hide ReadAtts, RelationOf, RelationItems, EncodeItems;
    RecordHead(RELATION, RelationItems(t), rest);
    RelationFramed(t);
    ItemsRoundTrip(RelationItems(t), rest, RELATION_BLOBS);
    RelationRead(t);
  }

  lemma RelationFramed(t: Table)
    requires CarriableTable(t)
    ensures AllFramed(RelationItems(t), RELATION_BLOBS)
  {
    hide IntItem, Carriable, TextItem, Framed, OptionalText, BackupStream.DescriptionItem;
    IntFramed(16, 1, RELATION_BLOBS);
    IntFramed(18, t.kind, RELATION_BLOBS);
    TextFramed(21, PUBLIC);
    TextFramed(1, t.name);
    OptionalFramed(8, t.securityClass);
    OptionalFramed(12, t.owner);
    OptionalFramed(17, t.extFile);
    DescriptionFramed(t);
  }

  lemma TextFramed(tag: u8, text: Bytes)
    requires tag == 1 || tag == 21
    ensures Framed(TextItem(tag, text), RELATION_BLOBS)
  {
  }

  lemma DescriptionFramed(t: Table)
    requires CarriableTable(t)
    ensures AllFramed(BackupStream.DescriptionItem(t), RELATION_BLOBS)
  {
    hide Carriable;
  }

  lemma OptionalFramed(tag: u8, text: Option<Bytes>)
    requires tag == 8 || tag == 12 || tag == 17
    ensures AllFramed(OptionalText(tag, text), RELATION_BLOBS)
  {
  }

  lemma ReadsField(s: State, c: Column, rest: Bytes)
    requires s.Valid() && s.current.Some? && Carriable(c)
    ensures var k := s.current.value; var t := s.tables[k];
            ReadOne(s, Record(FIELD, FieldItems(c)) + rest)
            == Next(s.(tables := s.tables[k := t.(cols := t.cols + [Rebuilt(c)])]), rest)
  {
    hide ReadAtts, FieldOf, FieldItems, EncodeItems, Carriable;
    RecordHead(FIELD, FieldItems(c), rest);
    BackupTables.FieldRoundTrip(c, |s.tables[s.current.value].cols|, rest);
  }

  lemma ReadsEnd(s: State, rest: Bytes)
    requires s.Valid()
    ensures ReadOne(s, [RELATION_END] + rest) == Next(s.(current := None, data := None), rest)
  {
    assert ([RELATION_END] + rest)[1..] == rest;
  }

  lemma {:induction false} ReadsFields(s: State, cols: seq<Column>, rest: Bytes)
    requires s.Valid() && s.current.Some? && s.tables[s.current.value].cols == []
    requires AllCarriable(cols)
    ensures var k := s.current.value; var t := s.tables[k].(cols := RebuiltAll(cols));
            ReadAll(s, FieldRecords(cols) + rest) == ReadAll(s.(tables := s.tables[k := t]), rest)
  {
    hide ReadAll, Carriable, FieldItems, ReadOne, Rebuilt, Record;
    var k := s.current.value;
    if cols == [] {
      assert FieldRecords(cols) + rest == rest;
      assert s.tables[k].(cols := RebuiltAll(cols)) == s.tables[k];
      assert s.tables[k := s.tables[k]] == s.tables;
    } else {
      var n := |cols| - 1;
      var c := cols[n];
      assert c in cols;
      assert forall d :: d in cols[..n] ==> d in cols;
      var tail := Record(FIELD, FieldItems(c)) + rest;
      assert FieldRecords(cols) + rest == FieldRecords(cols[..n]) + tail;
      ReadsFields(s, cols[..n], tail);
      var mid := s.(tables := s.tables[k := s.tables[k].(cols := RebuiltAll(cols[..n]))]);
      ReadsField(mid, c, rest);
      RecordHead(FIELD, FieldItems(c), rest);
      assert RebuiltAll(cols) == RebuiltAll(cols[..n]) + [Rebuilt(c)];
      var t := mid.tables[k].(cols := mid.tables[k].cols + [Rebuilt(c)]);
      AllAfterOne(mid, tail, mid.(tables := mid.tables[k := t]), rest);
      assert mid.tables[k := t] == s.tables[k := s.tables[k].(cols := RebuiltAll(cols))];
    }
  }

  function EmptyRead(t: Table): ReadTable
    requires AllCarriable(t.cols)
  {
    ReadTable(t.name, t.kind, t.extFile, RebuiltAll(t.cols), [])
  }

  /** Reading a table's metadata appends the table, empty. */
  lemma ReadsMeta(s: State, t: Table, rest: Bytes)
    requires s.Valid() && s.current == None && s.data == None && CarriableTable(t)
    ensures ReadAll(s, MetaOf(t) + rest) == ReadAll(s.(tables := s.tables + [EmptyRead(t)]), rest)
  {
    hide ReadAll, Carriable, FieldItems, RelationItems, ReadOne, Record, FieldRecords, RebuiltAll;
    var blank := ReadTable(t.name, t.kind, t.extFile, [], []);
    var a, b, e := Record(RELATION, RelationItems(t)), FieldRecords(t.cols), [RELATION_END];
    assert MetaOf(t) + rest == a + (b + (e + rest));
    ReadsRelation(s, t, b + (e + rest));
    RecordHead(RELATION, RelationItems(t), b + (e + rest));
    var s1 := s.(tables := s.tables + [blank], current := Some(|s.tables|));
    AllAfterOne(s, a + (b + (e + rest)), s1, b + (e + rest));
    ReadsFields(s1, t.cols, e + rest);
    var s2 := s1.(tables := s1.tables[|s.tables| := blank.(cols := RebuiltAll(t.cols))]);
    assert s2.tables == s.tables + [EmptyRead(t)];
    ReadsEnd(s2, rest);
    AllAfterOne(s2, e + rest, s2.(current := None, data := None), rest);
  }

  // ------------------------------------------------------------------ reading one row

  lemma IntBytes(tag: u8, n: nat)
    requires n < 0x8000_0000
    ensures EncodeItem(IntItem(tag, n)) == [tag, 4] + Le(Residue(n, 4), 4) && AttInt(Le(Residue(n, 4), 4)) == n
  {
    hide Le, Residue, AttInt;
    FitsCount(n);
    IntRoundTrip(n);
  }

  lemma HeadRoundTrip(n: nat, rest: Bytes)
    requires n < 0x8000_0000
    ensures ReadHead(EncodeItem(IntItem(1, n)) + EncodeItem(IntItem(17, n)) + [2] + rest) == Head(n, rest)
  {
    hide Le, Residue, AttInt, EncodeItem, IntItem;
    var code := Le(Residue(n, 4), 4);
    IntBytes(1, n);
    IntBytes(17, n);
    var h := [2] + rest;
    var g := [17, 4] + code + h;
    var f := [1, 4] + code + g;
    assert EncodeItem(IntItem(1, n)) + EncodeItem(IntItem(17, n)) + [2] + rest == f;
    assert f[1] == 4 && f[6..] == g && g[1] == 4 && g[2..6] == code && g[6..] == h && h[1..] == rest;
  }

  lemma ColumnsDescribe(cols: seq<Column>)
    requires AllConsistent(cols)
    ensures DescribesAll(RCols(RebuiltAll(cols)), StoredCols(cols))
  {
    hide Carriable, Sound, Describes, Rebuilt, Supported, CountsFit, DescribesElement;
    forall k | 0 <= k < |cols| ensures Describes(RCols(RebuiltAll(cols))[k], StoredCols(cols)[k]) {
      assert cols[k] in cols;
    }
  }

  lemma StoredFull(image: Bytes, cols: seq<Column>)
    requires RowOk(image, cols)
    ensures FullLength(image, StoredCols(cols))
  {
    hide Holds, Sound;
    forall c | c in StoredCols(cols) && !c.computed ensures Holds(image, c) {
      var k :| 0 <= k < |cols| && cols[k].stored == c;
      assert cols[k] in cols;
    }
  }

  /** The row alone: every value, with blobs and arrays still empty. */
  lemma ReadsRow(s: State, image: Bytes, cols: seq<Column>, store: Bytes -> Content, tokens: seq<RunLength.Token>, rest: Bytes)
    requires s.Valid() && s.data.Some? && AllConsistent(cols) && RowOk(image, cols)
    requires s.tables[s.data.value].cols == RebuiltAll(cols)
    requires RunLength.AllWellFormed(tokens) && RunLength.Plain(tokens)
    requires Row(image, StoredCols(cols)) == Some(RunLength.MeaningAll(tokens)) && |RunLength.MeaningAll(tokens)| < 0x8000_0000
    ensures var k := s.data.value;
            ReadOne(s, RowRecord(RunLength.MeaningAll(tokens), tokens) + rest)
            == Next(s.(tables := s.tables[k := WithRow(s.tables[k], PartialRow(image, cols, store, 0, 0))]), rest)
  {
    hide ReadHead, Row, Decode, RunLength.Expand, RunLength.EncodeAll, RunLength.MeaningAll, EncodeItem, IntItem, ValueAt, FinalValue;
    hide Consistent, Holds, Sound, Describes, RebuiltAll, RCols, WritesBlob, WritesArray;
    var xdr := RunLength.MeaningAll(tokens);
    var body := RunLength.EncodeAll(tokens) + rest;
    var heads := EncodeItem(IntItem(1, |xdr|)) + EncodeItem(IntItem(17, |xdr|)) + [2];
    var f := RowRecord(xdr, tokens) + rest;
    assert f == [DATA_REC] + (heads + body);
    assert f[0] == DATA_REC && f[1..] == heads + body;
    HeadRoundTrip(|xdr|, body);
    RunLength.PackedRowReads(xdr, tokens, rest);
    ColumnsDescribe(cols);
    StoredFull(image, cols);
    RowRoundTrip(image, StoredCols(cols), RCols(RebuiltAll(cols)));
    assert ValuesOf(image, StoredCols(cols)) == PartialRow(image, cols, store, 0, 0) by {
      FirstValues(image, cols, store);
    }
  }

  lemma FirstValues(image: Bytes, cols: seq<Column>, store: Bytes -> Content)
    requires RowOk(image, cols) && FullLength(image, StoredCols(cols))
    ensures ValuesOf(image, StoredCols(cols)) == PartialRow(image, cols, store, 0, 0)
  {
    hide Holds, Sound, ValueAt, FinalValue, WritesBlob, WritesArray;
  }

  // ------------------------------------------------------------------ reading its blobs and arrays

  lemma ColumnFound(cols: seq<Column>, k: nat)
    requires k < |cols| && DistinctIds(cols) && AllCarriable(cols)
    ensures ColumnOf(RebuiltAll(cols), cols[k].fieldId) == Some(k)
  {
    hide Carriable;
    var r := RebuiltAll(cols);
    assert r[k].fieldId == cols[k].fieldId;
    forall j | 0 <= j < |cols| ensures r[j].fieldId == cols[j].fieldId {
    }
  }

  predicate HasLast(s: State) {
    s.data.Some? && s.data.value < |s.tables| && s.tables[s.data.value].rows != []
  }

  /** The table being read, with its last row as given. */
  function WithLast(s: State, row: seq<RVal>): State
    requires HasLast(s)
  {
    var k := s.data.value;
    var t := s.tables[k];
    s.(tables := s.tables[k := t.(rows := t.rows[|t.rows| - 1 := row])])
  }

  /** Reading data of a table of these columns, its last row this one. */
  ghost predicate AtRow(s: State, cols: seq<Column>, row: seq<RVal>)
    requires AllCarriable(cols)
  {
    && s.Valid() && s.data.Some?
    && var t := s.tables[s.data.value];
    && t.cols == RebuiltAll(cols) && t.rows != [] && t.rows[|t.rows| - 1] == row
  }

  lemma SetsValue(s: State, cols: seq<Column>, row: seq<RVal>, k: nat, v: RVal)
    requires AllCarriable(cols) && AtRow(s, cols, row) && k < |row|
    ensures var i := s.data.value;
            WithLast(s, row[k := v]) == s.(tables := s.tables[i := WithValue(s.tables[i], k, v)])
    ensures AtRow(WithLast(s, row[k := v]), cols, row[k := v])
  {
    hide Carriable, RebuiltAll;
  }

  lemma ReadsBlob(s: State, cols: seq<Column>, row: seq<RVal>, k: nat, stream: bool, segments: seq<Bytes>, rest: Bytes)
    requires AllCarriable(cols) && DistinctIds(cols) && AtRow(s, cols, row) && k < |cols| == |row|
    requires row[k].Blob? && Framing.Framable(segments) && |segments| < 0x8000_0000
    ensures ReadOne(s, BlobRecord(cols[k].fieldId, stream, segments) + rest)
            == Next(WithLast(s, row[k := RVal.Blob(stream, segments)]), rest)
  {
    hide ReadBlob, RebuiltAll, EncodeItems, Framing.Frame, Carriable, DistinctIds;
    assert cols[k] in cols;
    IdFits(cols[k]);
    var record := BlobRecord(cols[k].fieldId, stream, segments);
    var f := record + rest;
    assert record[0] == BLOB_REC && f[0] == BLOB_REC && f[1..] == record[1..] + rest;
    BlobRoundTrip(cols[k].fieldId, stream, segments, rest);
    ColumnFound(cols, k);
    SetsValue(s, cols, row, k, RVal.Blob(stream, segments));
  }

  lemma IdFits(c: Column)
    requires Carriable(c)
    ensures Fits(c.fieldId, 4)
  {
  }

  lemma ReadsArray(s: State, cols: seq<Column>, row: seq<RVal>, k: nat, dims: seq<(int, int)>, data: Bytes, rest: Bytes)
    requires AllConsistent(cols) && DistinctIds(cols) && AtRow(s, cols, row) && k < |cols| == |row|
    requires row[k].Array? && cols[k].stored.dtype == ARRAY
    requires BoundsFit(dims) && |dims| < 0x8000_0000 && data != [] && |data| < 0x1_0000_0000
    requires cols[k].shape.length > 0 && |data| % cols[k].shape.length == 0 && Sound(cols[k].shape)
    requires Product(dims) == |Chunks(data, cols[k].shape.length)|
    requires Slice(cols[k].shape, data).Some? && |Slice(cols[k].shape, data).value| < 0x1_0000_0000
    ensures ReadOne(s, ArrayRecord(cols[k].fieldId, dims, data, Slice(cols[k].shape, data).value) + rest)
            == Next(WithLast(s, row[k := RVal.Array(NativeOf(cols[k].shape, data), dims)]), rest)
  {
    hide ReadArray, RebuiltAll, EncodeItems, Carriable, DistinctIds, Slice, DecodeElements, NormalAll, Chunks, Product, Sound, ReadOne;
    hide DescribesElement, Describes, CountsFit, Supported, BoundsFit, AllSignsFit, NativeOf, ArrayRecord, WithLast;
    var c := cols[k];
    assert c in cols;
    IdFits(c);
    var xdr := Slice(c.shape, data).value;
    var record := ArrayRecord(c.fieldId, dims, data, xdr);
    var f := record + rest;
    ArrayFirst(c.fieldId, dims, data, xdr, rest);
    ArrayRoundTrip(c.fieldId, dims, data, xdr, rest);
    ColumnFound(cols, k);
    SliceRoundTrip(c.shape, data, RColOf(Rebuilt(c)));
    ChunksJoin(data, c.shape.length);
    ShortEnough(c.shape, Chunks(data, c.shape.length));
    NativeLength(c.shape, data);
    assert RColOf(s.tables[s.data.value].cols[k]) == RColOf(Rebuilt(c)) by {
      RebuiltAt(cols, k);
    }
    SetsValue(s, cols, row, k, RVal.Array(NativeOf(c.shape, data), dims));
    ArrayStep(s, f, c.fieldId, dims, xdr, rest, k, NativeOf(c.shape, data));
  }

  lemma ArrayFirst(fieldId: int, dims: seq<(int, int)>, data: Bytes, xdr: Bytes, rest: Bytes)
    ensures var f := ArrayRecord(fieldId, dims, data, xdr) + rest;
            f != [] && f[0] == ARRAY_REC && f[1..] == ArrayRecord(fieldId, dims, data, xdr)[1..] + rest
    ensures ArrayRecord(fieldId, dims, data, xdr) != []
  {
    assert ArrayRecord(fieldId, dims, data, xdr)[0] == ARRAY_REC;
  }

  /** The ARRAY arm, once its record has been read. */
  lemma ArrayStep(s: State, f: Bytes, fieldId: int, dims: seq<(int, int)>, xdr: Bytes, rest: Bytes, k: nat, elements: Bytes)
    requires s.Valid() && s.data.Some? && f != [] && f[0] == ARRAY_REC && ColumnOf(s.tables[s.data.value].cols, fieldId) == Some(k)
    requires ReadArray(f[1..], NO_ATTS) == ArrayRead(ArrayAtts(fieldId, None, dims, Some(|elements|)), xdr, rest)
    requires DecodeElements(xdr, RColOf(s.tables[s.data.value].cols[k]), Product(dims)).Native?
    requires DecodeElements(xdr, RColOf(s.tables[s.data.value].cols[k]), Product(dims)).element == elements
    requires LastIs(s.tables[s.data.value], k) && s.tables[s.data.value].rows[|s.tables[s.data.value].rows| - 1][k].Array?
    ensures var i := s.data.value;
            ReadOne(s, f) == Next(s.(tables := s.tables[i := WithValue(s.tables[i], k, RVal.Array(elements, dims))]), rest)
  {
    hide ReadArray, ColumnOf, DecodeElements, Product;
  }

  lemma RebuiltAt(cols: seq<Column>, k: nat)
    requires k < |cols| && AllCarriable(cols)
    ensures cols[k] in cols && RebuiltAll(cols)[k] == Rebuilt(cols[k])
  {
    hide Carriable;
  }

  lemma NativeLength(sh: Shape, data: Bytes)
    requires Sound(sh) && sh.length > 0 && |data| % sh.length == 0
    ensures AllOf(sh, Chunks(data, sh.length)) && NativeOf(sh, data) == NormalAll(sh, Chunks(data, sh.length))
    ensures |NativeOf(sh, data)| == |data|
  {
    hide Chunks, Join, NormalAll;
    ChunksJoin(data, sh.length);
    NormalLength(sh, Chunks(data, sh.length));
  }

  // ------------------------------------------------------------------ a row with everything behind it

  lemma PartialSteps(image: Bytes, cols: seq<Column>, store: Bytes -> Content, k: nat)
    requires RowOk(image, cols) && k < |cols| && AllConsistent(cols)
    ensures var n := |cols|; var c := cols[k];
            && PartialRow(image, cols, store, k + 1, 0)
               == (if WritesBlob(image, c) then PartialRow(image, cols, store, k, 0)[k := FinalValue(image, c, store)]
                   else PartialRow(image, cols, store, k, 0))
            && PartialRow(image, cols, store, n, k + 1)
               == (if WritesArray(image, c) then PartialRow(image, cols, store, n, k)[k := FinalValue(image, c, store)]
                   else PartialRow(image, cols, store, n, k))
  {
    hide WritesBlob, WritesArray, FinalValue, ValueAt, Holds, Sound, HasId, Carriable, Describes, AllCarriable;
    var n, c := |cols|, cols[k];
    assert c in cols;
    Exclusive(image, c);
    NoBlobWhenComputed(image, c);
    var a, b := PartialRow(image, cols, store, k, 0), PartialRow(image, cols, store, k + 1, 0);
    assert forall j :: 0 <= j < n && j != k ==> a[j] == b[j];
    var d, e := PartialRow(image, cols, store, n, k), PartialRow(image, cols, store, n, k + 1);
    assert forall j :: 0 <= j < n && j != k ==> d[j] == e[j];
  }

  lemma Exclusive(image: Bytes, c: Column)
    requires Consistent(c)
    ensures !(WritesBlob(image, c) && WritesArray(image, c))
  {
    hide Carriable, Describes, Sound;
  }

  lemma NoBlobWhenComputed(image: Bytes, c: Column)
    requires Consistent(c)
    ensures c.stored.computed ==> !WritesBlob(image, c) && !WritesArray(image, c)
  {
    hide Carriable, Describes, Sound;
  }

  /** Before its blob or array is read, the value is an empty one. */
  lemma ValueWaits(image: Bytes, cols: seq<Column>, store: Bytes -> Content, k: nat)
    requires RowOk(image, cols) && k < |cols| && AllConsistent(cols)
    ensures WritesBlob(image, cols[k]) ==> PartialRow(image, cols, store, k, 0)[k].Blob?
    ensures WritesArray(image, cols[k]) ==> PartialRow(image, cols, store, |cols|, k)[k].Array? && cols[k].stored.dtype == ARRAY
  {
    hide Carriable, Describes, Sound, FinalValue, AllCarriable;
    assert cols[k] in cols;
    var c := cols[k];
    if c.stored.computed {
      NoBlobWhenComputed(image, c);
    } else if WritesArray(image, c) {
      Exclusive(image, c);
    }
  }

  lemma {:induction false} ReadsBlobs(s: State, image: Bytes, cols: seq<Column>, store: Bytes -> Content, k: nat, rest: Bytes)
    requires k <= |cols| && AllConsistent(cols) && DistinctIds(cols) && RowOk(image, cols)
    requires forall c :: c in cols ==> ContentOk(image, c, store)
    requires AtRow(s, cols, PartialRow(image, cols, store, 0, 0))
    ensures AtRow(WithLast(s, PartialRow(image, cols, store, k, 0)), cols, PartialRow(image, cols, store, k, 0))
    ensures ReadAll(s, RowBlobs(image, cols[..k], store) + rest)
            == ReadAll(WithLast(s, PartialRow(image, cols, store, k, 0)), rest)
  {
    hide ReadAll, ReadOne, Consistent, Holds, Sound, BlobRecord, PartialRow, FinalValue, Carriable, RebuiltAll, WritesBlob, DistinctIds, AtRow, ContentOk, WithLast;
    var first := PartialRow(image, cols, store, 0, 0);
    AtRowValid(s, cols, first);
    SameLast(s, cols, first);
    if k == 0 {
      assert RowBlobs(image, cols[..0], store) + rest == rest;
    } else {
      var c := cols[k - 1];
      assert c in cols;
      var row, next := PartialRow(image, cols, store, k - 1, 0), PartialRow(image, cols, store, k, 0);
      var mid := WithLast(s, row);
      PartialSteps(image, cols, store, k - 1);
      assert cols[..k][..k - 1] == cols[..k - 1];
      if WritesBlob(image, c) {
        var tail := BlobOf(image, c, store) + rest;
        assert RowBlobs(image, cols[..k], store) + rest == RowBlobs(image, cols[..k - 1], store) + tail;
        ReadsBlobs(s, image, cols, store, k - 1, tail);
        ValueWaits(image, cols, store, k - 1);
        OneBlob(mid, image, cols, store, k - 1, row, rest);
        LastTwice(s, cols, first, row, next);
      } else {
        assert RowBlobs(image, cols[..k], store) + rest == RowBlobs(image, cols[..k - 1], store) + rest;
        ReadsBlobs(s, image, cols, store, k - 1, rest);
      }
    }
  }

  lemma SameLast(s: State, cols: seq<Column>, row: seq<RVal>)
    requires AllCarriable(cols) && AtRow(s, cols, row)
    ensures HasLast(s) && WithLast(s, row) == s
  {
    hide AllCarriable, RebuiltAll;
    var k := s.data.value;
    var t := s.tables[k];
    assert t.rows[|t.rows| - 1 := row] == t.rows;
    assert s.tables[k := t] == s.tables;
  }

  lemma LastTwice(s: State, cols: seq<Column>, first: seq<RVal>, row: seq<RVal>, next: seq<RVal>)
    requires AllCarriable(cols) && AtRow(s, cols, first) && AtRow(WithLast(s, row), cols, row)
    ensures WithLast(WithLast(s, row), next) == WithLast(s, next)
  {
    hide AllCarriable, RebuiltAll;
    var k := s.data.value;
    var t, u := s.tables[k], WithLast(s, row).tables[k];
    assert u.rows[|u.rows| - 1 := next] == t.rows[|t.rows| - 1 := next];
  }

  /** One blob record, read into the row. */
  lemma OneBlob(s: State, image: Bytes, cols: seq<Column>, store: Bytes -> Content, k: nat, row: seq<RVal>, rest: Bytes)
    requires AllConsistent(cols) && DistinctIds(cols) && RowOk(image, cols) && k < |cols| == |row| && AtRow(s, cols, row)
    requires WritesBlob(image, cols[k]) && ContentOk(image, cols[k], store) && row[k].Blob?
    ensures ReadAll(s, BlobOf(image, cols[k], store) + rest) == ReadAll(WithLast(s, row[k := FinalValue(image, cols[k], store)]), rest)
    ensures AtRow(WithLast(s, row[k := FinalValue(image, cols[k], store)]), cols, row[k := FinalValue(image, cols[k], store)])
  {
    hide ReadAll, ReadOne, Holds, Sound, BlobRecord, Carriable, RebuiltAll, DistinctIds, AtRow, WithLast, AllConsistent, AllCarriable, HasId;
    var c := cols[k];
    ConsistentAt(cols, k);
    if c.stored.computed {
      NoBlobWhenComputed(image, c);
    }
    var content := store(Id(image, c.stored));
    var f := BlobRecord(c.fieldId, content.stream, content.segments) + rest;
    AllConsistentCarriable(cols);
    ReadsBlob(s, cols, row, k, content.stream, content.segments, rest);
    SetsValue(s, cols, row, k, RVal.Blob(content.stream, content.segments));
    StartsWith(c.fieldId, content.stream, content.segments, rest);
    AtRowValid(s, cols, row);
    AllAfterOne(s, f, WithLast(s, row[k := RVal.Blob(content.stream, content.segments)]), rest);
  }

  lemma AtRowValid(s: State, cols: seq<Column>, row: seq<RVal>)
    requires AllCarriable(cols) && AtRow(s, cols, row)
    ensures s.Valid() && HasLast(s)
  {
  }

  lemma AllConsistentCarriable(cols: seq<Column>)
    requires AllConsistent(cols)
    ensures AllCarriable(cols)
  {
  }

  lemma ConsistentAt(cols: seq<Column>, k: nat)
    requires AllConsistent(cols) && k < |cols|
    ensures Consistent(cols[k]) && cols[k] in cols
  {
    hide Consistent;
  }

  lemma StartsWith(fieldId: int, stream: bool, segments: seq<Bytes>, rest: Bytes)
    ensures BlobRecord(fieldId, stream, segments) + rest != []
    ensures (BlobRecord(fieldId, stream, segments) + rest)[0] != END
  {
    assert BlobRecord(fieldId, stream, segments)[0] == BLOB_REC;
  }

  lemma StartsWithArray(fieldId: int, dims: seq<(int, int)>, data: Bytes, xdr: Bytes, rest: Bytes)
    ensures ArrayRecord(fieldId, dims, data, xdr) + rest != []
    ensures (ArrayRecord(fieldId, dims, data, xdr) + rest)[0] != END
  {
    assert ArrayRecord(fieldId, dims, data, xdr)[0] == ARRAY_REC;
  }

  /** One array record, read into the row. */
  lemma OneArray(s: State, image: Bytes, cols: seq<Column>, store: Bytes -> Content, k: nat, row: seq<RVal>, rest: Bytes)
    requires AllConsistent(cols) && DistinctIds(cols) && RowOk(image, cols) && k < |cols| == |row| && AtRow(s, cols, row)
    requires WritesArray(image, cols[k]) && ContentOk(image, cols[k], store) && row[k].Array? && cols[k].stored.dtype == ARRAY
    requires Sound(cols[k].shape)
    ensures ReadAll(s, ArrayOf(image, cols[k], store) + rest) == ReadAll(WithLast(s, row[k := FinalValue(image, cols[k], store)]), rest)
    ensures AtRow(WithLast(s, row[k := FinalValue(image, cols[k], store)]), cols, row[k := FinalValue(image, cols[k], store)])
  {
    hide ReadAll, ReadOne, Holds, Sound, ArrayRecord, Carriable, RebuiltAll, DistinctIds, AtRow, WithLast, AllConsistent, AllCarriable, HasId, Slice, NativeOf, Chunks, Product, BoundsFit;
    var c := cols[k];
    ConsistentAt(cols, k);
    if c.stored.computed {
      NoBlobWhenComputed(image, c);
    }
    Exclusive(image, c);
    var content := store(Id(image, c.stored));
    var xdr := Slice(c.shape, content.data).value;
    var f := ArrayRecord(c.fieldId, content.dims, content.data, xdr) + rest;
    AllConsistentCarriable(cols);
    ReadsArray(s, cols, row, k, content.dims, content.data, rest);
    var v := RVal.Array(NativeOf(c.shape, content.data), content.dims);
    SetsValue(s, cols, row, k, v);
    StartsWithArray(c.fieldId, content.dims, content.data, xdr, rest);
    AtRowValid(s, cols, row);
    AllAfterOne(s, f, WithLast(s, row[k := v]), rest);
  }

  lemma ArraysPushed(image: Bytes, cols: seq<Column>, store: Bytes -> Content, k: nat)
    requires k <= |cols| && SoundShapes(cols)
    ensures SoundShapes(cols[..k]) && (k == 0 ==> RowArrays(image, cols[..k], store) == [])
    ensures k > 0 ==>
      && SoundShapes(cols[..k - 1]) && Sound(cols[k - 1].shape)
      && RowArrays(image, cols[..k - 1], store) + [] == RowArrays(image, cols[..k - 1], store)
      && RowArrays(image, cols[..k], store)
         == RowArrays(image, cols[..k - 1], store) + if WritesArray(image, cols[k - 1]) then ArrayOf(image, cols[k - 1], store) else []
  {
    hide Sound, WritesArray, ArrayOf;
    assert forall c :: c in cols[..k] ==> c in cols;
    if k > 0 {
      assert forall c :: c in cols[..k - 1] ==> c in cols;
      assert cols[k - 1] in cols;
      assert cols[..k][..k - 1] == cols[..k - 1];
    }
  }

  lemma {:induction false} ReadsArrays(s: State, image: Bytes, cols: seq<Column>, store: Bytes -> Content, k: nat, rest: Bytes)
    requires k <= |cols| && AllConsistent(cols) && DistinctIds(cols) && RowOk(image, cols)
    requires forall c :: c in cols ==> ContentOk(image, c, store)
    requires AtRow(s, cols, PartialRow(image, cols, store, |cols|, 0)) && SoundShapes(cols)
    ensures AtRow(WithLast(s, PartialRow(image, cols, store, |cols|, k)), cols, PartialRow(image, cols, store, |cols|, k))
    ensures ReadAll(s, RowArrays(image, cols[..k], store) + rest)
            == ReadAll(WithLast(s, PartialRow(image, cols, store, |cols|, k)), rest)
  {
    hide ReadAll, ReadOne, Consistent, Holds, Sound, ArrayRecord, PartialRow, FinalValue, Carriable, RebuiltAll, WritesArray, DistinctIds, AtRow, ContentOk, WithLast;
    hide RowArrays, ArrayOf, SoundShapes, AllConsistent, AllCarriable, RowOk;
    var n := |cols|;
    var first := PartialRow(image, cols, store, n, 0);
    AllConsistentCarriable(cols);
    AtRowValid(s, cols, first);
    SameLast(s, cols, first);
    ArraysPushed(image, cols, store, k);
    if k == 0 {
      assert RowArrays(image, cols[..0], store) + rest == rest;
    } else {
      var c := cols[k - 1];
      assert c in cols;
      var row, next := PartialRow(image, cols, store, n, k - 1), PartialRow(image, cols, store, n, k);
      var mid := WithLast(s, row);
      PartialSteps(image, cols, store, k - 1);
      if WritesArray(image, c) {
        var tail := ArrayOf(image, c, store) + rest;
        assert RowArrays(image, cols[..k], store) + rest == RowArrays(image, cols[..k - 1], store) + tail;
        ReadsArrays(s, image, cols, store, k - 1, tail);
        ValueWaits(image, cols, store, k - 1);
        OneArray(mid, image, cols, store, k - 1, row, rest);
        LastTwice(s, cols, first, row, next);
      } else {
        ReadsArrays(s, image, cols, store, k - 1, rest);
      }
    }
  }

  // ------------------------------------------------------------------ a table's data

  /** A row's token list is what the row packs to. */
  ghost predicate PacksRow(image: Bytes, cols: seq<Column>, tokens: seq<RunLength.Token>) {
    && RunLength.AllWellFormed(tokens)
    && Row(image, StoredCols(cols)) == Some(RunLength.MeaningAll(tokens)) && |RunLength.MeaningAll(tokens)| < 0x8000_0000
  }

  /** Literals and short repeats only. */
  ghost predicate PlainRows(packs: seq<seq<RunLength.Token>>) {
    forall p :: p in packs ==> RunLength.Plain(p)
  }

  ghost predicate PacksTable(t: Table, packs: seq<seq<RunLength.Token>>) {
    |packs| == |t.rows| && forall i :: 0 <= i < |t.rows| ==> PacksRow(t.rows[i], t.cols, packs[i])
  }

  /** A row's records: the row, its blobs, its arrays. */
  ghost function RowBytes(image: Bytes, cols: seq<Column>, store: Bytes -> Content, tokens: seq<RunLength.Token>): Bytes
    requires RunLength.AllWellFormed(tokens) && SoundShapes(cols)
  {
    RowRecord(RunLength.MeaningAll(tokens), tokens) + RowBlobs(image, cols, store) + RowArrays(image, cols, store)
  }

  ghost function RowsBytes(rows: seq<Bytes>, cols: seq<Column>, store: Bytes -> Content, packs: seq<seq<RunLength.Token>>): Bytes
    requires |packs| == |rows| && SoundShapes(cols) && forall p :: p in packs ==> RunLength.AllWellFormed(p)
  {
    if rows == [] then [] else
      var n := |rows| - 1;
      RowsBytes(rows[..n], cols, store, packs[..n]) + RowBytes(rows[n], cols, store, packs[n])
  }

  ghost function FinalRows(rows: seq<Bytes>, cols: seq<Column>, store: Bytes -> Content): (r: seq<seq<RVal>>)
    requires forall image :: image in rows ==> RowOk(image, cols)
    ensures |r| == |rows|
  {
    seq(|rows|, i requires 0 <= i < |rows| =>
      assert rows[i] in rows;
      FinalRow(rows[i], cols, store))
  }

  /** The table's rows, its data read into them. */
  function WithRows(s: State, rows: seq<seq<RVal>>): State
    requires s.data.Some? && s.data.value < |s.tables|
  {
    s.(tables := s.tables[s.data.value := s.tables[s.data.value].(rows := rows)])
  }

  /** One whole row. */
  lemma ReadsRowBytes(s: State, image: Bytes, cols: seq<Column>, store: Bytes -> Content, tokens: seq<RunLength.Token>, rest: Bytes)
    requires s.Valid() && s.data.Some? && AllConsistent(cols) && DistinctIds(cols) && RowOk(image, cols) && SoundShapes(cols)
    requires (forall c :: c in cols ==> ContentOk(image, c, store)) && PacksRow(image, cols, tokens) && RunLength.Plain(tokens)
    requires s.tables[s.data.value].cols == RebuiltAll(cols)
    ensures ReadAll(s, RowBytes(image, cols, store, tokens) + rest)
            == ReadAll(WithRows(s, s.tables[s.data.value].rows + [FinalRow(image, cols, store)]), rest)
  {
    hide ReadAll, ReadOne, Consistent, Holds, Sound, PartialRow, FinalValue, Carriable, RebuiltAll, DistinctIds, ContentOk, RowRecord, RowBlobs, RowArrays;
    hide RunLength.AllWellFormed, RunLength.Plain, RunLength.MeaningAll, Row, StoredCols, SoundShapes, AllConsistent, AllCarriable, RowOk;
    var n := |cols|;
    AllConsistentCarriable(cols);
    var a := RowRecord(RunLength.MeaningAll(tokens), tokens);
    var b, c := RowBlobs(image, cols, store), RowArrays(image, cols, store);
    assert RowBytes(image, cols, store, tokens) + rest == a + (b + (c + rest));
    var t := s.tables[s.data.value];
    var first, mid, last := PartialRow(image, cols, store, 0, 0), PartialRow(image, cols, store, n, 0), PartialRow(image, cols, store, n, n);
    ReadsRow(s, image, cols, store, tokens, b + (c + rest));
    var s1 := WithRows(s, t.rows + [first]);
    assert WithRow(t, first) == t.(rows := t.rows + [first]);
    DataFirst(RunLength.MeaningAll(tokens), tokens, b + (c + rest));
    AllAfterOne(s, a + (b + (c + rest)), s1, b + (c + rest));
    assert cols[..n] == cols;
    assert AtRow(s1, cols, first);
    ReadsBlobs(s1, image, cols, store, n, c + rest);
    var s2 := WithLast(s1, mid);
    assert s2 == WithRows(s, t.rows + [mid]) by {
      LastReplaced(s, t.rows, first, mid);
    }
    ReadsArrays(s2, image, cols, store, n, rest);
    assert WithLast(s2, last) == WithRows(s, t.rows + [last]) by {
      LastReplaced(s, t.rows, mid, last);
    }
    AllFinal(image, cols, store);
  }

  lemma LastReplaced(s: State, rows: seq<seq<RVal>>, a: seq<RVal>, b: seq<RVal>)
    requires s.data.Some? && s.data.value < |s.tables|
    ensures HasLast(WithRows(s, rows + [a])) && WithLast(WithRows(s, rows + [a]), b) == WithRows(s, rows + [b])
  {
    var n := |rows|;
    assert (rows + [a])[n := b] == rows + [b];
    var k := s.data.value;
    assert s.tables[k := s.tables[k].(rows := rows + [a])][k := s.tables[k].(rows := rows + [b])]
           == s.tables[k := s.tables[k].(rows := rows + [b])];
  }

  lemma DataFirst(xdr: Bytes, tokens: seq<RunLength.Token>, rest: Bytes)
    requires RunLength.AllWellFormed(tokens)
    ensures RowRecord(xdr, tokens) + rest != [] && (RowRecord(xdr, tokens) + rest)[0] != END
  {
    assert RowRecord(xdr, tokens)[0] == DATA_REC;
  }

  lemma AllFinal(image: Bytes, cols: seq<Column>, store: Bytes -> Content)
    requires RowOk(image, cols) && AllConsistent(cols)
    ensures PartialRow(image, cols, store, |cols|, |cols|) == FinalRow(image, cols, store)
  {
    hide Holds, Sound, ValueAt, Consistent, AllCarriable, WritesBlob, WritesArray;
    forall j | 0 <= j < |cols| ensures PartialRow(image, cols, store, |cols|, |cols|)[j] == FinalRow(image, cols, store)[j] {
      assert cols[j] in cols;
    }
  }

  lemma {:induction false} ReadsRows(s: State, rows: seq<Bytes>, cols: seq<Column>, store: Bytes -> Content,
                                     packs: seq<seq<RunLength.Token>>, rest: Bytes)
    requires s.Valid() && s.data.Some? && AllConsistent(cols) && DistinctIds(cols) && SoundShapes(cols)
    requires |packs| == |rows| && (forall p :: p in packs ==> RunLength.AllWellFormed(p))
    requires (forall i :: 0 <= i < |rows| ==> PacksRow(rows[i], cols, packs[i])) && PlainRows(packs)
    requires forall image :: image in rows ==> RowOk(image, cols)
    requires forall image, c :: image in rows && c in cols ==> ContentOk(image, c, store)
    requires s.tables[s.data.value].cols == RebuiltAll(cols) && s.tables[s.data.value].rows == []
    ensures ReadAll(s, RowsBytes(rows, cols, store, packs) + rest) == ReadAll(WithRows(s, FinalRows(rows, cols, store)), rest)
  {
    hide ReadAll, ReadOne, Consistent, Holds, Sound, FinalRow, Carriable, RebuiltAll, DistinctIds, ContentOk, RowBytes, SoundShapes;
    hide PacksRow, RowOk, AllConsistent, AllCarriable, RunLength.AllWellFormed;
    var k := s.data.value;
    var t := s.tables[k];
    if rows == [] {
      assert RowsBytes(rows, cols, store, packs) + rest == rest;
      assert FinalRows(rows, cols, store) == t.rows;
      assert s.tables[k := t.(rows := t.rows)] == s.tables;
    } else {
      var n := |rows| - 1;
      assert rows[n] in rows && packs[n] in packs;
      assert forall image :: image in rows[..n] ==> image in rows;
      assert forall p :: p in packs[..n] ==> p in packs;
      var front, last := RowsBytes(rows[..n], cols, store, packs[..n]), RowBytes(rows[n], cols, store, packs[n]);
      assert RowsBytes(rows, cols, store, packs) + rest == front + (last + rest);
      ReadsRows(s, rows[..n], cols, store, packs[..n], last + rest);
      var before := FinalRows(rows[..n], cols, store);
      var mid := WithRows(s, before);
      ReadsRowBytes(mid, rows[n], cols, store, packs[n], rest);
      assert FinalRows(rows, cols, store) == before + [FinalRow(rows[n], cols, store)];
      RowsTwice(s, before, before + [FinalRow(rows[n], cols, store)]);
    }
  }

  lemma RowsTwice(s: State, a: seq<seq<RVal>>, b: seq<seq<RVal>>)
    requires s.data.Some? && s.data.value < |s.tables|
    ensures WithRows(WithRows(s, a), b) == WithRows(s, b)
  {
    var k := s.data.value;
    assert s.tables[k := s.tables[k].(rows := a)][k := s.tables[k].(rows := b)] == s.tables[k := s.tables[k].(rows := b)];
  }

  function DataItems(t: Table): seq<Item> {
    [TextItem(21, PUBLIC), TextItem(1, t.name)]
  }

  /** A table's data. */
  ghost function DataOf(t: Table, store: Bytes -> Content, packs: seq<seq<RunLength.Token>>): Bytes
    requires |packs| == |t.rows| && SoundShapes(t.cols) && forall p :: p in packs ==> RunLength.AllWellFormed(p)
  {
    Record(RELATION_DATA, DataItems(t)) + RowsBytes(t.rows, t.cols, store, packs) + [RELATION_END]
  }

  lemma ReadsDataHead(s: State, t: Table, k: nat, rest: Bytes)
    requires s.Valid() && CarriableTable(t) && TableNamed(s.tables, t.name) == Some(k)
    ensures ReadOne(s, Record(RELATION_DATA, DataItems(t)) + rest) == Next(s.(order := s.order + [k], data := Some(k)), rest)
  {
    hide ReadAtts, EncodeItems, TableNamed, Find;
    RecordHead(RELATION_DATA, DataItems(t), rest);
    ItemsRoundTrip(DataItems(t), rest, {});
    CutWhole(t.name);
    FoundAt(DataItems(t), 1, 1);
  }

  /** The restored table. */
  ghost function Restored(t: Table, store: Bytes -> Content): ReadTable
    requires TableOk(t, store)
  {
    TableRows(t, store);
    EmptyRead(t).(rows := FinalRows(t.rows, t.cols, store))
  }

  lemma TableRows(t: Table, store: Bytes -> Content)
    requires TableOk(t, store)
    ensures SoundShapes(t.cols) && AllCarriable(t.cols)
    ensures forall image :: image in t.rows ==> RowOk(image, t.cols)
    ensures forall image, c :: image in t.rows && c in t.cols ==> ContentOk(image, c, store)
  {
    hide Carriable, Sound, Holds, ContentOk, Describes, CarriableTable;
  }

  lemma {:induction false} PacksFormed(t: Table, packs: seq<seq<RunLength.Token>>)
    requires PacksTable(t, packs)
    ensures |packs| == |t.rows| && forall p :: p in packs ==> RunLength.AllWellFormed(p)
  {
    hide Row, RunLength.MeaningAll;
    forall p | p in packs ensures RunLength.AllWellFormed(p) {
      var i :| 0 <= i < |packs| && packs[i] == p;
      assert PacksRow(t.rows[i], t.cols, packs[i]);
    }
  }

  /** Reading a table's data fills the table of its name. */
  lemma ReadsData(s: State, t: Table, store: Bytes -> Content, packs: seq<seq<RunLength.Token>>, k: nat, rest: Bytes)
    requires s.Valid() && s.current == None && s.data == None && TableOk(t, store) && PacksTable(t, packs)
    requires |packs| == |t.rows| && SoundShapes(t.cols) && (forall p :: p in packs ==> RunLength.AllWellFormed(p)) && PlainRows(packs)
    requires TableNamed(s.tables, t.name) == Some(k) && AllCarriable(t.cols) && s.tables[k] == EmptyRead(t)
    ensures ReadAll(s, DataOf(t, store, packs) + rest)
            == ReadAll(s.(tables := s.tables[k := Restored(t, store)], order := s.order + [k]), rest)
  {
    hide ReadAll, ReadOne, Consistent, Holds, Sound, FinalRows, Carriable, RebuiltAll, DistinctIds, ContentOk, RowsBytes, SoundShapes, PacksRow;
    hide RowOk, AllConsistent, AllCarriable, RunLength.AllWellFormed, Record, TableNamed, CarriableTable;
    TableRows(t, store);
    var a, b, e := Record(RELATION_DATA, DataItems(t)), RowsBytes(t.rows, t.cols, store, packs), [RELATION_END];
    assert DataOf(t, store, packs) + rest == a + (b + (e + rest));
    ReadsDataHead(s, t, k, b + (e + rest));
    RecordHead(RELATION_DATA, DataItems(t), b + (e + rest));
    var s1 := s.(order := s.order + [k], data := Some(k));
    AllAfterOne(s, a + (b + (e + rest)), s1, b + (e + rest));
    ReadsRows(s1, t.rows, t.cols, store, packs, e + rest);
    var s2 := WithRows(s1, FinalRows(t.rows, t.cols, store));
    ReadsEnd(s2, rest);
    AllAfterOne(s2, e + rest, s2.(current := None, data := None), rest);
  }

  // ------------------------------------------------------------------ a whole file

  function MetaAll(tables: seq<Table>): Bytes {
    if tables == [] then [] else MetaAll(tables[..|tables| - 1]) + MetaOf(tables[|tables| - 1])
  }

  /** The data of the first n tables, last table first. */
  ghost function DataAll(tables: seq<Table>, store: Bytes -> Content, packs: seq<seq<seq<RunLength.Token>>>): Bytes
    requires PackedAll(tables, packs)
  {
    if tables == [] then [] else
      var n := |tables| - 1;
      PackedPart(tables, packs);
      DataOf(tables[n], store, packs[n]) + DataAll(tables[..n], store, packs[..n])
  }

  ghost predicate PacksAll(tables: seq<Table>, store: Bytes -> Content, packs: seq<seq<seq<RunLength.Token>>>) {
    PackedAll(tables, packs) && forall t :: t in tables ==> TableOk(t, store)
  }

  /** Every row of every table, packed. */
  ghost predicate PackedAll(tables: seq<Table>, packs: seq<seq<seq<RunLength.Token>>>) {
    && |packs| == |tables|
    && (forall t :: t in tables ==> SoundShapes(t.cols))
    && forall i :: 0 <= i < |tables| ==> PacksTable(tables[i], packs[i])
  }

  lemma PackedPart(tables: seq<Table>, packs: seq<seq<seq<RunLength.Token>>>)
    requires PackedAll(tables, packs) && tables != []
    ensures var n := |tables| - 1;
            && PackedAll(tables[..n], packs[..n]) && PacksTable(tables[n], packs[n])
            && |packs[n]| == |tables[n].rows| && SoundShapes(tables[n].cols)
            && forall p :: p in packs[n] ==> RunLength.AllWellFormed(p)
  {
    hide PacksTable, SoundShapes;
    var n := |tables| - 1;
    assert tables[n] in tables;
    assert forall t :: t in tables[..n] ==> t in tables;
    PacksFormed(tables[n], packs[n]);
  }

  lemma PacksPart(tables: seq<Table>, store: Bytes -> Content, packs: seq<seq<seq<RunLength.Token>>>)
    requires PacksAll(tables, store, packs) && tables != []
    ensures var n := |tables| - 1;
            && PacksAll(tables[..n], store, packs[..n]) && TableOk(tables[n], store) && PacksTable(tables[n], packs[n])
            && |packs[n]| == |tables[n].rows| && SoundShapes(tables[n].cols) && AllCarriable(tables[n].cols)
            && forall p :: p in packs[n] ==> RunLength.AllWellFormed(p)
  {
    hide TableOk, PacksTable, SoundShapes;
    var n := |tables| - 1;
    assert tables[n] in tables;
    assert forall t :: t in tables[..n] ==> t in tables;
    TableRows(tables[n], store);
    PackedPart(tables, packs);
  }

  /** The table part of a backup file: metadata in order, then data in reverse order, then the end. */
  ghost function Stream(tables: seq<Table>, store: Bytes -> Content, packs: seq<seq<seq<RunLength.Token>>>): Bytes
    requires PackedAll(tables, packs)
  {
    MetaAll(tables) + DataAll(tables, store, packs) + [END]
  }

  predicate DistinctNames(tables: seq<Table>) {
    forall i, j :: 0 <= i < j < |tables| ==> tables[i].name != tables[j].name
  }

  ghost function EmptyAll(tables: seq<Table>): (r: seq<ReadTable>)
    requires forall t :: t in tables ==> AllCarriable(t.cols)
    ensures |r| == |tables|
  {
    seq(|tables|, i requires 0 <= i < |tables| =>
      assert tables[i] in tables;
      EmptyRead(tables[i]))
  }

  lemma {:induction false} ReadsMetas(tables: seq<Table>, rest: Bytes)
    requires forall t :: t in tables ==> CarriableTable(t) && AllCarriable(t.cols)
    ensures ReadAll(START, MetaAll(tables) + rest) == ReadAll(START.(tables := EmptyAll(tables)), rest)
  {
    hide ReadAll, CarriableTable, AllCarriable, MetaOf, EmptyRead;
    if tables == [] {
      assert MetaAll(tables) + rest == rest;
    } else {
      var n := |tables| - 1;
      assert tables[n] in tables;
      assert forall t :: t in tables[..n] ==> t in tables;
      assert MetaAll(tables) + rest == MetaAll(tables[..n]) + (MetaOf(tables[n]) + rest);
      ReadsMetas(tables[..n], MetaOf(tables[n]) + rest);
      ReadsMeta(START.(tables := EmptyAll(tables[..n])), tables[n], rest);
      assert EmptyAll(tables) == EmptyAll(tables[..n]) + [EmptyRead(tables[n])];
    }
  }

  /** The tables when those from the n-th on have their data. */
  ghost function Filled(tables: seq<Table>, store: Bytes -> Content, n: nat): (r: seq<ReadTable>)
    requires forall t :: t in tables ==> TableOk(t, store) && AllCarriable(t.cols)
    ensures |r| == |tables|
  {
    seq(|tables|, i requires 0 <= i < |tables| =>
      assert tables[i] in tables;
      if i < n then EmptyRead(tables[i]) else Restored(tables[i], store))
  }

  /** n - 1, n - 2, ... 0. */
  function Descending(n: nat): (r: seq<nat>)
    ensures |r| == n && forall i :: 0 <= i < n ==> r[i] == n - 1 - i
  {
    if n == 0 then [] else [n - 1] + Descending(n - 1)
  }

  lemma NameFound(tables: seq<Table>, store: Bytes -> Content, n: nat, k: nat)
    requires (forall t :: t in tables ==> TableOk(t, store) && AllCarriable(t.cols)) && DistinctNames(tables) && k < |tables|
    ensures TableNamed(Filled(tables, store, n), tables[k].name) == Some(k)
  {
    hide TableOk, AllCarriable, FinalRows, RebuiltAll;
    var r := Filled(tables, store, n);
    forall i | 0 <= i < |tables| ensures r[i].name == tables[i].name {
      assert tables[i] in tables;
    }
  }

  lemma {:induction false} ReadsDatas(tables: seq<Table>, store: Bytes -> Content, packs: seq<seq<seq<RunLength.Token>>>, n: nat,
                                      order: seq<nat>, rest: Bytes)
    requires PacksAll(tables, store, packs) && DistinctNames(tables) && n <= |tables|
    requires PacksAll(tables[..n], store, packs[..n]) && forall t :: t in tables ==> AllCarriable(t.cols)
    requires forall p :: p in packs ==> PlainRows(p)
    ensures ReadAll(State(Filled(tables, store, n), order, None, None), DataAll(tables[..n], store, packs[..n]) + rest)
            == ReadAll(State(Filled(tables, store, 0), order + Descending(n), None, None), rest)
  {
    hide ReadAll, TableOk, AllCarriable, DataOf, Restored, EmptyRead, PacksTable, SoundShapes, TableNamed, RunLength.AllWellFormed;
    if n == 0 {
      assert DataAll(tables[..0], store, packs[..0]) + rest == rest;
      assert order + Descending(0) == order;
    } else {
      var k := n - 1;
      var t := tables[k];
      assert t in tables;
      PacksPart(tables[..n], store, packs[..n]);
      assert tables[..n][..k] == tables[..k] && packs[..n][..k] == packs[..k] && tables[..n][k] == t && packs[..n][k] == packs[k];
      var s := State(Filled(tables, store, n), order, None, None);
      NameFound(tables, store, n, k);
      var tail := DataAll(tables[..k], store, packs[..k]);
      assert DataAll(tables[..n], store, packs[..n]) + rest == DataOf(t, store, packs[k]) + (tail + rest);
      assert packs[k] in packs;
      ReadsData(s, t, store, packs[k], k, tail + rest);
      assert s.tables[k := Restored(t, store)] == Filled(tables, store, k);
      ReadsDatas(tables, store, packs, k, order + [k], rest);
      assert order + [k] + Descending(k) == order + Descending(n);
    }
  }

  /** Any list of tables, written and read back: the same tables, columns and rows, with the blobs and
      arrays in them; and the data came in the reverse order of the metadata. */
  lemma BackupRoundTrip(tables: seq<Table>, store: Bytes -> Content, packs: seq<seq<seq<RunLength.Token>>>, rest: Bytes)
    requires PacksAll(tables, store, packs) && DistinctNames(tables) && forall t :: t in tables ==> AllCarriable(t.cols)
    requires forall p :: p in packs ==> PlainRows(p)
    ensures ReadAll(START, Stream(tables, store, packs) + rest)
            == Some(State(Filled(tables, store, 0), Descending(|tables|), None, None))
  {
    hide ReadAll, TableOk, AllCarriable, PacksTable, Restored, EmptyRead, MetaAll, DataAll, CarriableTable;
    var n := |tables|;
    var data := DataAll(tables, store, packs);
    assert tables[..n] == tables && packs[..n] == packs;
    assert Stream(tables, store, packs) + rest == MetaAll(tables) + (data + ([END] + rest));
    forall t | t in tables ensures CarriableTable(t) && AllCarriable(t.cols) {
      OkCarriable(t, store);
    }
    ReadsMetas(tables, data + ([END] + rest));
    assert EmptyAll(tables) == Filled(tables, store, n);
    ReadsDatas(tables, store, packs, n, [], [END] + rest);
    assert [] + Descending(n) == Descending(n);
    AtEnd(State(Filled(tables, store, 0), Descending(n), None, None), rest);
  }

  lemma OkCarriable(t: Table, store: Bytes -> Content)
    requires TableOk(t, store)
    ensures CarriableTable(t) && AllCarriable(t.cols)
  {
  }

  lemma AllOkCarriable(tables: seq<Table>, store: Bytes -> Content)
    requires forall t :: t in tables ==> TableOk(t, store)
    ensures forall t :: t in tables ==> AllCarriable(t.cols)
  {
    hide TableOk, AllCarriable;
    forall t | t in tables ensures AllCarriable(t.cols) {
      OkCarriable(t, store);
    }
  }

  /** Every file that begins with `f` is read back as those tables, with all their rows. */
  ghost predicate ReadsBack(tables: seq<Table>, store: Bytes -> Content, f: Bytes)
    requires forall t :: t in tables ==> TableOk(t, store)
  {
    AllOkCarriable(tables, store);
    forall rest: Bytes :: ReadAll(START, f + rest) == Some(State(Filled(tables, store, 0), Descending(|tables|), None, None))
  }

  lemma StreamReadsBack(tables: seq<Table>, store: Bytes -> Content, packs: seq<seq<seq<RunLength.Token>>>)
    requires PackedAll(tables, packs) && (forall t :: t in tables ==> TableOk(t, store)) && DistinctNames(tables)
    requires forall p :: p in packs ==> PlainRows(p)
    ensures ReadsBack(tables, store, Stream(tables, store, packs))
  {
    hide ReadAll, TableOk, AllCarriable, PackedAll, DistinctNames, PlainRows, Stream, Filled;
    AllOkCarriable(tables, store);
    forall rest: Bytes
      ensures ReadAll(START, Stream(tables, store, packs) + rest)
              == Some(State(Filled(tables, store, 0), Descending(|tables|), None, None))
    {
      BackupRoundTrip(tables, store, packs, rest);
    }
  }

  lemma AtEnd(s: State, rest: Bytes)
    requires s.Valid()
    ensures ReadAll(s, [END] + rest) == Some(s)
  {
  }
}
