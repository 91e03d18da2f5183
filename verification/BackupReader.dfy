/** The reader's walk over the records of a backup file's tables. */
module BackupReader {
  import opened Words
  import opened Power
  import opened ByteStrings
  import opened LittleEndian
  import opened XdrRow
  import opened XdrSlice
  import opened BackupRecords
  import opened BackupTables
  import opened BackupStream
  import Framing = BlobFraming
  import RunLength

  // ------------------------------------------------------------------ the reader's state

  /** The tables so far, the order their data came in, the relation whose fields are being read, and the
      one whose data is. */
  datatype State = State(tables: seq<ReadTable>, order: seq<nat>, current: Option<nat>, data: Option<nat>) {
    predicate Valid() {
      && (current.Some? ==> current.value < |tables|)
      && (data.Some? ==> data.value < |tables|)
    }
  }

  datatype Next = Next(state: State, rest: Bytes) | Reject

  const START := State([], [], None, None)

  // ------------------------------------------------------------------ the arms

  function ReadRelation(s: State, f: Bytes): Next {
    match ReadAtts(f, RELATION_BLOBS)
    case Refused => Reject
    case Parsed(atts, blobs, rest) =>
      match RelationOf(atts, blobs)
      case None => Reject
      case Some(t) => Next(s.(tables := s.tables + [t], current := Some(|s.tables|)), rest)
  }

  function ReadField(s: State, f: Bytes): Next
    requires s.Valid()
  {
    match ReadAtts(f, FIELD_BLOBS)
    case Refused => Reject
    case Parsed(atts, blobs, rest) =>
      if s.current == None then Reject
      else
        var k := s.current.value;
        var t := s.tables[k];
        match FieldOf(atts, blobs, |t.cols|)
        case None => Reject
        case Some(c) => Next(s.(tables := s.tables[k := t.(cols := t.cols + [c])]), rest)
  }

  /** The first table of a name. */
  function TableNamed(tables: seq<ReadTable>, name: Bytes): (k: Option<nat>)
    ensures k.Some? ==> k.value < |tables| && tables[k.value].name == name
                        && forall j :: 0 <= j < k.value ==> tables[j].name != name
    ensures k == None ==> forall j :: 0 <= j < |tables| ==> tables[j].name != name
  {
    if tables == [] then None
    else if tables[0].name == name then Some(0)
    else
      var rest := TableNamed(tables[1..], name);
      assert forall j :: 0 < j < |tables| ==> tables[j] == tables[1..][j - 1];
      match rest case None => None case Some(k) => Some(k + 1)
  }

  function ReadRelationData(s: State, f: Bytes): Next {
    match ReadAtts(f, {})
    case Refused => Reject
    case Parsed(atts, _, rest) =>
      match Find(atts, 1)
      case None => Reject
      case Some(name) =>
        match TableNamed(s.tables, name)
        case None => Reject
        case Some(k) => Next(s.(order := s.order + [k], data := Some(k)), rest)
  }

  datatype Head = Head(want: nat, rest: Bytes) | NoHead

  /** A data record's two lengths and its bare data tag. */
  function ReadHead(f: Bytes): Head {
    if |f| < 2 || 2 + f[1] as nat > |f| then NoHead
    else
      var g := f[2 + f[1] as nat..];
      if |g| < 2 || 2 + g[1] as nat > |g| then NoHead
      else
        var want := AttInt(g[2..2 + g[1] as nat]);
        var h := g[2 + g[1] as nat..];
        if h == [] || h[0] != 2 || want < 0 then NoHead else Head(want, h[1..])
  }

  function RColOf(r: ReadCol): RCol {
    RCol(r.fieldType, r.length, r.dims, r.computed)
  }

  function RCols(cols: seq<ReadCol>): (r: seq<RCol>)
    ensures |r| == |cols|
  {
    seq(|cols|, k requires 0 <= k < |cols| => RColOf(cols[k]))
  }

  function ReadData(s: State, f: Bytes): Next
    requires s.Valid()
  {
    if s.data == None then Reject
    else match ReadHead(f)
      case NoHead => Reject
      case Head(want, g) =>
        match RunLength.Expand(g, want, [])
        case Ended(_) => Reject
        case Row(xdr, rest) =>
          var k := s.data.value;
          match Decode(xdr, RCols(s.tables[k].cols))
          case Err(_) => Reject
          case Ok(row) => Next(s.(tables := s.tables[k := WithRow(s.tables[k], row)]), rest)
  }

  function WithRow(t: ReadTable, row: seq<RVal>): ReadTable {
    t.(rows := t.rows + [row])
  }

  /** The first column of a field id. */
  function ColumnOf(cols: seq<ReadCol>, fieldId: int): (k: Option<nat>)
    ensures k.Some? ==> k.value < |cols| && cols[k.value].fieldId == fieldId
                        && forall j :: 0 <= j < k.value ==> cols[j].fieldId != fieldId
    ensures k == None ==> forall j :: 0 <= j < |cols| ==> cols[j].fieldId != fieldId
  {
    if cols == [] then None
    else if cols[0].fieldId == fieldId then Some(0)
    else
      var rest := ColumnOf(cols[1..], fieldId);
      assert forall j :: 0 < j < |cols| ==> cols[j] == cols[1..][j - 1];
      match rest case None => None case Some(k) => Some(k + 1)
  }

  /** The last row with one value replaced. */
  function WithValue(t: ReadTable, k: nat, v: RVal): ReadTable
    requires t.rows != [] && k < |t.rows[|t.rows| - 1]|
  {
    var n := |t.rows| - 1;
    t.(rows := t.rows[n := t.rows[n][k := v]])
  }

  /** There is a last row, and it has a value for the column. */
  predicate LastIs(t: ReadTable, k: nat) {
    t.rows != [] && k < |t.rows[|t.rows| - 1]|
  }

  function ReadBlobValue(s: State, f: Bytes): Next
    requires s.Valid()
  {
    if s.data == None then Reject
    else match ReadBlob(f)
      case BlobRefused => Reject
      case BlobRead(fieldId, stream, segments, rest) =>
        var i := s.data.value;
        var t := s.tables[i];
        match ColumnOf(t.cols, fieldId)
        case None => Reject
        case Some(k) =>
          if !LastIs(t, k) || !t.rows[|t.rows| - 1][k].Blob? then Reject
          else Next(s.(tables := s.tables[i := WithValue(t, k, RVal.Blob(stream, segments))]), rest)
  }

  /** The elements the bounds make room for, counted in a 64-bit word. */
  function Product(dims: seq<(int, int)>): nat {
    if dims == [] then 1 else
      Product(dims[..|dims| - 1]) * Extent(dims[|dims| - 1]) % 0x1_0000_0000_0000_0000
  }

  /** One dimension's length, a signed 32-bit number that wraps around; a negative one counts as zero. */
  function Extent(d: (int, int)): nat {
    var n := Narrow(d.1 - d.0 + 1, 4);
    if n < 0 then 0 else n
  }

  function ReadArrayValue(s: State, f: Bytes): Next
    requires s.Valid()
  {
    if s.data == None then Reject
    else match ReadArray(f, NO_ATTS)
      case ArrayRefused => Reject
      case ArrayRead(a, xdr, rest) =>
        var i := s.data.value;
        var t := s.tables[i];
        match ColumnOf(t.cols, a.fieldId)
        case None => Reject
        case Some(k) =>
          match DecodeElements(xdr, RColOf(t.cols[k]), Product(a.dims))
          case Bad(_) => Reject
          case Native(elements, _) =>
            if (a.rawLength.Some? && a.rawLength.value != |elements|) || !LastIs(t, k) || !t.rows[|t.rows| - 1][k].Array? then Reject
            else Next(s.(tables := s.tables[i := WithValue(t, k, RVal.Array(elements, a.dims))]), rest)
  }

  /** One record of the table part of a file; other record types are not part of this walk. */
  function ReadOne(s: State, f: Bytes): Next
    requires s.Valid() && f != []
  {
    var body := f[1..];
    if f[0] == RELATION then ReadRelation(s, body)
    else if f[0] == FIELD then ReadField(s, body)
    else if f[0] == RELATION_END then Next(s.(current := None, data := None), body)
    else if f[0] == RELATION_DATA then ReadRelationData(s, body)
    else if f[0] == DATA_REC then ReadData(s, body)
    else if f[0] == BLOB_REC then ReadBlobValue(s, body)
    else if f[0] == ARRAY_REC then ReadArrayValue(s, body)
    else Reject
  }

  // ------------------------------------------------------------------ every record makes progress

  lemma {:induction false} AttsShorter(f: Bytes, blobTags: set<u8>)
    ensures ReadAtts(f, blobTags).Parsed? ==> |ReadAtts(f, blobTags).rest| < |f|
    decreases |f|
  {
    hide LeVal;
    if f != [] && f[0] != 0 && |f| >= 2 && 2 + f[1] as nat <= |f| {
      var n := f[1] as nat;
      if f[0] !in blobTags {
        AttsShorter(f[2 + n..], blobTags);
      } else {
        var len := LeVal(First(f[2..2 + n], 8));
        if 2 + n + len <= |f| {
          AttsShorter(f[2 + n + len..], blobTags);
        }
      }
    }
  }

  lemma {:induction false} BareShorter(f: Bytes, stop: u8)
    ensures ReadBare(f, stop).Parsed? ==> |ReadBare(f, stop).rest| < |f|
    decreases |f|
  {
    if f != [] && f[0] != stop && |f| >= 2 && 2 + f[1] as nat <= |f| {
      BareShorter(f[2 + f[1] as nat..], stop);
    }
  }

  lemma {:induction false} SegmentsShorter(f: Bytes, n: nat)
    ensures ReadSegments(f, n).SegmentsRead? ==> |ReadSegments(f, n).rest| <= |f|
  {
    if n > 0 && |f| >= 2 && 2 + LeAt(f, 0, 2) <= |f| {
      SegmentsShorter(f[2 + LeAt(f, 0, 2)..], n - 1);
    }
  }

  lemma {:induction false} ArrayShorter(f: Bytes, a: ArrayAtts)
    ensures ReadArray(f, a).ArrayRead? ==> |ReadArray(f, a).rest| < |f|
    decreases |f|
  {
    hide LeVal, WithAtt;
    if f == [] {
    } else if f[0] == 7 || f[0] == 18 {
      if |f| >= 5 && f[0] == 7 {
        ArrayShorter(f[5..], a.(rawLength := Some(LeAt(f, 1, 4))));
      }
    } else if |f| >= 2 && 2 + f[1] as nat <= |f| {
      ArrayShorter(f[2 + f[1] as nat..], WithAtt(a, f[0], f[2..2 + f[1] as nat]));
    }
  }

  /** An array record comes back, and the reader stops behind it, exactly when the array has elements:
      of an empty one no slice is written, and the reader goes on into whatever record comes next. */
  lemma ArrayReadsExactly(fieldId: int, dims: seq<(int, int)>, data: Bytes, xdr: Bytes, rest: Bytes)
    requires Fits(fieldId, 4) && BoundsFit(dims) && |dims| < 0x8000_0000
    requires |data| < 0x1_0000_0000 && |xdr| < 0x1_0000_0000
    ensures data != [] <==>
            ReadArray(ArrayRecord(fieldId, dims, data, xdr)[1..] + rest, NO_ATTS)
            == ArrayRead(ArrayAtts(fieldId, None, dims, Some(|data|)), xdr, rest)
  {
    hide ReadArray, Fits, BoundsFit, EncodeItems, ArrayItems, Le;
    if data != [] {
      ArrayRoundTrip(fieldId, dims, data, xdr, rest);
    } else {
      assert ArrayRecord(fieldId, dims, data, xdr) == ArrayRecord(fieldId, dims, [], []);
      EmptyArrayRunsOn(fieldId, dims, rest);
      ArrayShorter(rest, ArrayAtts(fieldId, None, dims, Some(0)));
    }
  }

  lemma OneShorter(s: State, f: Bytes)
    requires s.Valid() && f != []
    ensures ReadOne(s, f).Next? ==> |ReadOne(s, f).rest| < |f|
  {
    hide ReadAtts, ReadBare, ReadSegments, ReadArray, RunLength.Expand, Decode, DecodeElements, FieldOf, RelationOf, AttInt;
    var body := f[1..];
    AttsShorter(body, RELATION_BLOBS);
    AttsShorter(body, FIELD_BLOBS);
    AttsShorter(body, {});
    ArrayShorter(body, NO_ATTS);
    BareShorter(body, 7);
    if f[0] == BLOB_REC && ReadBare(body, 7).Parsed? {
      var n := IntLastOr(ReadBare(body, 7).atts, 5, 0);
      SegmentsShorter(ReadBare(body, 7).rest, if n < 0 then 0 else n);
    }
    if f[0] == DATA_REC && ReadHead(body).Head? {
      RunLength.ExpandConsumes(ReadHead(body).rest, ReadHead(body).want, []);
    }
  }

  lemma OneValid(s: State, f: Bytes)
    requires s.Valid() && f != []
    ensures ReadOne(s, f).Next? ==> ReadOne(s, f).state.Valid()
  {
    hide ReadAtts, ReadBlob, ReadArray, ReadHead, RunLength.Expand, DecodeElements, FieldOf, RelationOf;
  }

  /** The records up to the end mark. */
  function ReadAll(s: State, f: Bytes): Option<State>
    requires s.Valid()
    decreases |f|
  {
    if f == [] then None
    else if f[0] == END then Some(s)
    else match ReadOne(s, f)
      case Reject => None
      case Next(t, rest) =>
        OneShorter(s, f);
        OneValid(s, f);
        ReadAll(t, rest)
  }

  /** `read_backup` over the table part of a file. */
  method ReadBackup(f: Bytes) returns (r: Option<State>)
    ensures r == ReadAll(START, f)
  {
    hide ReadOne;
    var s, rest := START, f;
    while rest != []
      invariant s.Valid() && ReadAll(START, f) == ReadAll(s, rest)
      decreases |rest|
    {
      if rest[0] == END {
        return Some(s);
      }
      OneShorter(s, rest);
      OneValid(s, rest);
      match ReadOne(s, rest) {
        case Reject =>
          return None;
        case Next(t, after) =>
          s, rest := t, after;
      }
    }
    r := None;
  }

  /** Reading one record and then the rest. */
  lemma AllAfterOne(s: State, f: Bytes, t: State, rest: Bytes)
    requires s.Valid() && f != [] && f[0] != END && ReadOne(s, f) == Next(t, rest)
    ensures t.Valid() && ReadAll(s, f) == ReadAll(t, rest)
  {
    hide ReadOne;
    OneShorter(s, f);
    OneValid(s, f);
  }
}
