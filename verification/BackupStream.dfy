/** The tables of a backup file: metadata in order, data in reverse order, rows with the blobs and
    arrays behind them, and the reader's state machine over the records. */
module BackupStream {
  import opened Words
  import opened Power
  import opened ByteStrings
  import opened LittleEndian
  import opened XdrRow
  import opened XdrSlice
  import opened BackupRecords
  import opened BackupTables
  import Framing = BlobFraming
  import RunLength

  const DATA_REC: u8 := 6
  const BLOB_REC: u8 := 7
  const RELATION_DATA: u8 := 8
  const RELATION_END: u8 := 9
  const END: u8 := 10
  const ARRAY_REC: u8 := 23

  /** What a blob id in a record names: a blob's segments - at most one for a stream - or an array. */
  datatype Content = Segments(stream: bool, segments: seq<Bytes>) | Elements(dims: seq<(int, int)>, data: Bytes)

  datatype Table = Table(
    name: Bytes, securityClass: Option<Bytes>, owner: Option<Bytes>, extFile: Option<Bytes>, kind: nat,
    description: Option<Bytes>, cols: seq<Column>, rows: seq<Bytes>)

  datatype ReadTable = ReadTable(name: Bytes, kind: int, extFile: Option<Bytes>, cols: seq<ReadCol>, rows: seq<seq<RVal>>)

  // ------------------------------------------------------------------ the relation record

  function OptionalText(tag: u8, text: Option<Bytes>): seq<Item> {
    match text case None => [] case Some(b) => [TextItem(tag, b)]
  }

  function RelationItems(t: Table): seq<Item> {
    [TextItem(21, PUBLIC), TextItem(1, t.name), IntItem(16, 1)]
    + OptionalText(8, t.securityClass) + OptionalText(12, t.owner) + OptionalText(17, t.extFile)
    + [IntItem(18, t.kind)]
    + DescriptionItem(t)
  }

  /** The last attribute with a tag: a relation's attributes overwrite each other. */
  function FindLast(atts: seq<Att>, tag: u8): Option<Bytes> {
    if atts == [] then None
    else if atts[|atts| - 1].tag == tag then Some(atts[|atts| - 1].data)
    else FindLast(atts[..|atts| - 1], tag)
  }

  /** A relation's kind: up to eight bytes, least first, as a 64-bit word. */
  function KindOf(data: Bytes): int {
    Signed(LeVal(First(data, 8)), 8)
  }

  /** The RELATION arm on the attributes read, tables only. */
  function RelationOf(atts: seq<Att>, blobs: seq<Att>): Option<ReadTable> {
    if exists a :: a in atts && (a.tag !in {1, 8, 12, 16, 17, 18, 21} || (a.tag == 18 && KindOf(a.data) == 3)) then None
    else if Find(blobs, 2) != None then None
    else
      var kind := match FindLast(atts, 18) case None => 0 case Some(data) => KindOf(data);
      var name := match FindLast(atts, 1) case None => [] case Some(b) => b;
      if name == [] then None
      else Some(ReadTable(name, kind, FindLast(atts, 17), [], []))
  }

  predicate CarriableTable(t: Table) {
    && 0 < |t.name| <= 255 && t.kind < 0x8000_0000 && t.kind != 3
    && (t.securityClass.Some? ==> |t.securityClass.value| <= 255) && (t.owner.Some? ==> |t.owner.value| <= 255)
    && (t.extFile.Some? ==> |t.extFile.value| <= 255) && (t.description.Some? ==> |t.description.value| < 0x1_0000_0000)
    && forall c :: c in t.cols ==> Carriable(c)
  }

  lemma {:induction false} FindLastConcat(a: seq<Att>, b: seq<Att>, tag: u8)
    ensures FindLast(a + b, tag) == if FindLast(b, tag) == None then FindLast(a, tag) else FindLast(b, tag)
  {
    if b == [] {
      assert a + b == a;
    } else {
      FindLastConcat(a, b[..|b| - 1], tag);
      assert (a + b)[..|a + b| - 1] == a + b[..|b| - 1];
    }
  }

  lemma FindLastOne(att: Att, tag: u8)
    ensures FindLast([att], tag) == if att.tag == tag then Some(att.data) else None
    ensures FindLast([], tag) == None
  {
    assert [att][..0] == [];
  }

  lemma OptionalTextRead(tag: u8, text: Option<Bytes>, wanted: u8)
    requires text.Some? ==> |text.value| <= 255
    ensures FindLast(PlainOf(OptionalText(tag, text)), wanted) == if tag == wanted then text else None
    ensures BlobsOf(OptionalText(tag, text)) == []
    ensures forall a :: a in PlainOf(OptionalText(tag, text)) ==> a.tag == tag
  {
    if text.Some? {
      CutWhole(text.value);
      PlainOne(TextItem(tag, text.value));
      FindLastOne(Att(tag, text.value), wanted);
    } else {
      FindLastOne(Att(0, []), wanted);
    }
  }

  lemma PlainOne(item: Item)
    ensures PlainOf([item]) == PlainPart(item) && BlobsOf([item]) == BlobPart(item)
  {
    assert [item][1..] == [];
  }

  function DescriptionItem(t: Table): seq<Item> {
    match t.description case None => [] case Some(d) => [BlobItem(13, d)]
  }

  lemma RelationFound(t: Table, tag: u8)
    requires CarriableTable(t) && (tag == 1 || tag == 17 || tag == 18)
    ensures FindLast(PlainOf(RelationItems(t)), tag)
            == if tag == 1 then Some(t.name) else if tag == 18 then Some(Le(Residue(t.kind, 4), 4)) else t.extFile
  {
    hide FindLast, Carriable, PlainOf, OptionalText, IntItem, Cut;
    var h0, h1, h2 := [TextItem(21, PUBLIC)], [TextItem(1, t.name)], [IntItem(16, 1)];
    var a, b, c := OptionalText(8, t.securityClass), OptionalText(12, t.owner), OptionalText(17, t.extFile);
    var k, d := [IntItem(18, t.kind)], DescriptionItem(t);
    assert RelationItems(t) == h0 + h1 + h2 + a + b + c + k + d;
    RelationLast(h0, h1, h2, a, b, c, k, d, tag);
    CutWhole(t.name);
    OneLast(TextItem(21, PUBLIC), tag);
    OneLast(TextItem(1, t.name), tag);
    IntLast(16, 1, tag);
    IntLast(18, t.kind, tag);
    OptionalTextRead(8, t.securityClass, tag);
    OptionalTextRead(12, t.owner, tag);
    OptionalTextRead(17, t.extFile, tag);
    DescriptionPart(t, tag);
  }

  lemma OneLast(item: Item, tag: u8)
    requires item.PlainItem?
    ensures FindLast(PlainOf([item]), tag) == if item.tag == tag then Some(item.data) else None
  {
    PlainOne(item);
    FindLastOne(Att(item.tag, item.data), tag);
  }

  lemma IntLast(att: u8, v: int, tag: u8)
    ensures FindLast(PlainOf([IntItem(att, v)]), tag) == if att == tag then Some(Le(Residue(v, 4), 4)) else None
  {
    OneLast(IntItem(att, v), tag);
  }

  /** A relation record holds only attributes a reader knows, and no view. */
  lemma RelationTags(t: Table)
    ensures forall a :: a in PlainOf(RelationItems(t)) ==> a.tag in {1, 8, 12, 16, 17, 18, 21}
    ensures forall a :: a in PlainOf(RelationItems(t)) && a.tag == 18 ==> a.data == Le(Residue(t.kind, 4), 4)
    ensures Find(BlobsOf(RelationItems(t)), 2) == None
  {
    var items := RelationItems(t);
    RelationItemTags(t);
    PlainIn(items);
    NotFound(items, 2);
  }

  lemma RelationItemTags(t: Table)
    ensures forall item :: item in RelationItems(t) ==> item.tag != 2
    ensures forall item :: item in RelationItems(t) && item.PlainItem? ==> item.tag in {1, 8, 12, 16, 17, 18, 21}
    ensures forall item :: item in RelationItems(t) && item.tag == 18 ==> item == PlainItem(18, Le(Residue(t.kind, 4), 4))
  {
    hide Cut, Residue, Le;
  }

  /** The plain attributes of a record are its plain items. */
  lemma {:induction false} PlainIn(items: seq<Item>)
    ensures forall a :: a in PlainOf(items) <==> PlainItem(a.tag, a.data) in items
  {
    if items != [] {
      PlainIn(items[1..]);
      assert items == [items[0]] + items[1..];
      assert forall a: Att :: PlainItem(a.tag, a.data) in items <==> PlainItem(a.tag, a.data) == items[0] || PlainItem(a.tag, a.data) in items[1..];
    }
  }

  lemma RelationRead(t: Table)
    requires CarriableTable(t)
    ensures RelationOf(PlainOf(RelationItems(t)), BlobsOf(RelationItems(t))) == Some(ReadTable(t.name, t.kind, t.extFile, [], []))
  {
    hide FindLast, Find, Carriable, RelationItems, PlainOf, BlobsOf, KindOf, LeVal, Residue;
    RelationFound(t, 1);
    RelationFound(t, 17);
    RelationFound(t, 18);
    RelationTags(t);
    KindRead(t.kind);
  }

  lemma KindRead(v: nat)
    requires v < 0x8000_0000
    ensures KindOf(Le(Residue(v, 4), 4)) == v
  {
    hide Le, LeVal, Pow;
    Widths();
    DivModUnique(v, Pow(256, 4), 0, v);
    LeRoundTrip(v, 4);
    assert First(Le(v, 4), 8) == Le(v, 4);
  }

  lemma DescriptionPart(t: Table, tag: u8)
    ensures var d := DescriptionItem(t); PlainOf(d) == [] && FindLast(PlainOf(d), tag) == None && Find(BlobsOf(d), 2) == None
  {
    if t.description.Some? {
      PlainOne(BlobItem(13, t.description.value));
      FindInOne(BlobPart(BlobItem(13, t.description.value)), 2);
    }
  }

  lemma RelationLast(h0: seq<Item>, h1: seq<Item>, h2: seq<Item>, a: seq<Item>, b: seq<Item>, c: seq<Item>, k: seq<Item>, d: seq<Item>, tag: u8)
    ensures var f := (s: seq<Item>) => FindLast(PlainOf(s), tag);
            f(h0 + h1 + h2 + a + b + c + k + d)
            == if f(d) != None then f(d) else if f(k) != None then f(k) else if f(c) != None then f(c)
               else if f(b) != None then f(b) else if f(a) != None then f(a) else if f(h2) != None then f(h2)
               else if f(h1) != None then f(h1) else f(h0)
  {
    hide FindLast;
    LastOfItems(h0 + h1 + h2 + a + b + c + k, d, tag);
    LastOfItems(h0 + h1 + h2 + a + b + c, k, tag);
    LastOfItems(h0 + h1 + h2 + a + b, c, tag);
    LastOfItems(h0 + h1 + h2 + a, b, tag);
    LastOfItems(h0 + h1 + h2, a, tag);
    LastOfItems(h0 + h1, h2, tag);
    LastOfItems(h0, h1, tag);
  }

  lemma LastOfItems(a: seq<Item>, b: seq<Item>, tag: u8)
    ensures FindLast(PlainOf(a + b), tag)
            == if FindLast(PlainOf(b), tag) == None then FindLast(PlainOf(a), tag) else FindLast(PlainOf(b), tag)
  {
    PlainConcat(a, b);
    FindLastConcat(PlainOf(a), PlainOf(b), tag);
  }

  // ------------------------------------------------------------------ records without an end mark

  /** Attributes up to a bare tag, which carries no length: how blob records open. */
  function ReadBare(f: Bytes, stop: u8): Parsed
    decreases |f|
  {
    if f == [] then Refused
    else if f[0] == stop then Parsed([], [], f[1..])
    else if |f| < 2 || 2 + f[1] as nat > |f| then Refused
    else
      var n := f[1] as nat;
      More(ReadBare(f[2 + n..], stop), Att(f[0], f[2..2 + n]), false)
  }

  lemma BareItem(item: Item, stop: u8, tail: Bytes)
    requires item.PlainItem? && item.tag != stop && |item.data| <= 255
    ensures ReadBare(EncodeItem(item) + tail, stop) == More(ReadBare(tail, stop), Att(item.tag, item.data), false)
  {
    hide More;
    var f := EncodeItem(item) + tail;
    var n := |item.data|;
    assert f[0] == item.tag && f[1] as nat == n && f[2..2 + n] == item.data && f[2 + n..] == tail;
  }

  lemma {:induction false} BareRoundTrip(items: seq<Item>, stop: u8, rest: Bytes)
    requires forall item :: item in items ==> item.PlainItem? && item.tag != stop && |item.data| <= 255
    ensures ReadBare(EncodeItems(items) + [stop] + rest, stop) == Parsed(PlainOf(items), [], rest)
  {
    hide EncodeItem, ReadBare;
    if items == [] {
      assert EncodeItems(items) + [stop] + rest == [stop] + rest;
      BareStop(stop, rest);
    } else {
      var item, tail := items[0], EncodeItems(items[1..]) + [stop] + rest;
      assert item in items;
      assert forall other :: other in items[1..] ==> other in items;
      BareRoundTrip(items[1..], stop, rest);
      assert EncodeItems(items) + [stop] + rest == EncodeItem(item) + tail;
      BareItem(item, stop, tail);
    }
  }

  lemma BareStop(stop: u8, rest: Bytes)
    ensures ReadBare([stop] + rest, stop) == Parsed([], [], rest)
  {
    assert ([stop] + rest)[1..] == rest;
  }

  function IntLastOr(atts: seq<Att>, tag: u8, otherwise: int): int {
    match FindLast(atts, tag) case None => otherwise case Some(data) => AttInt(data)
  }

  // ------------------------------------------------------------------ blobs behind a row

  function MaxLength(segments: seq<Bytes>): nat {
    if segments == [] then 0 else
      var rest := MaxLength(segments[..|segments| - 1]);
      if |segments[|segments| - 1]| > rest then |segments[|segments| - 1]| else rest
  }

  function BlobItems(fieldId: int, stream: bool, segments: seq<Bytes>): seq<Item> {
    [IntItem(3, fieldId), IntItem(6, MaxLength(segments)), IntItem(5, |segments|), IntItem(4, if stream then 1 else 0)]
  }

  /** The blob record: its attributes, the bare data tag, and the framed segments. */
  function BlobRecord(fieldId: int, stream: bool, segments: seq<Bytes>): Bytes {
    [BLOB_REC] + EncodeItems(BlobItems(fieldId, stream, segments)) + [7] + Framing.Frame(segments)
  }

  datatype SegmentsRead = SegmentsRead(segments: seq<Bytes>, rest: Bytes) | Broken

  function ReadSegments(f: Bytes, n: nat): SegmentsRead {
    if n == 0 then SegmentsRead([], f)
    else if |f| < 2 then Broken
    else
      var len := LeAt(f, 0, 2);
      if 2 + len > |f| then Broken
      else match ReadSegments(f[2 + len..], n - 1)
        case Broken => Broken
        case SegmentsRead(segments, rest) => SegmentsRead([f[2..2 + len]] + segments, rest)
  }

  lemma OneSegment(segment: Bytes, tail: Bytes, n: nat)
    requires |segment| < 0x1_0000 && n > 0 && ReadSegments(tail, n - 1).SegmentsRead?
    ensures var r := ReadSegments(tail, n - 1);
            ReadSegments(Le(|segment|, 2) + segment + tail, n) == SegmentsRead([segment] + r.segments, r.rest)
  {
    hide Le, LeVal;
    var f := Le(|segment|, 2) + segment + tail;
    Widths();
    LeRoundTrip(|segment|, 2);
    assert f[0..2] == Le(|segment|, 2) && f[2..2 + |segment|] == segment && f[2 + |segment|..] == tail;
  }

  lemma {:induction false} SegmentsRoundTrip(segments: seq<Bytes>, rest: Bytes)
    requires Framing.Framable(segments)
    ensures ReadSegments(Framing.Frame(segments) + rest, |segments|) == SegmentsRead(segments, rest)
  {
    hide Le, ReadSegments;
    if segments == [] {
      assert Framing.Frame(segments) + rest == rest;
      NoSegments(rest);
    } else {
      var first, tail := segments[0], Framing.Frame(segments[1..]) + rest;
      SegmentsRoundTrip(segments[1..], rest);
      assert Framing.Frame(segments) + rest == Le(|first|, 2) + first + tail;
      OneSegment(first, tail, |segments|);
    }
  }

  lemma NoSegments(f: Bytes)
    ensures ReadSegments(f, 0) == SegmentsRead([], f)
  {
  }

  /** The BLOB arm up to its value: the field it names, its kind and its segments. */
  datatype BlobRead = BlobRead(fieldId: int, stream: bool, segments: seq<Bytes>, rest: Bytes) | BlobRefused

  function ReadBlob(f: Bytes): BlobRead {
    match ReadBare(f, 7)
    case Refused => BlobRefused
    case Parsed(atts, _, rest) =>
      var n := IntLastOr(atts, 5, 0);
      match ReadSegments(rest, if n < 0 then 0 else n)
      case Broken => BlobRefused
      case SegmentsRead(segments, after) => BlobRead(IntLastOr(atts, 3, 0), IntLastOr(atts, 4, 0) == 1, segments, after)
  }

  lemma BlobRoundTrip(fieldId: int, stream: bool, segments: seq<Bytes>, rest: Bytes)
    requires Fits(fieldId, 4) && Framing.Framable(segments) && |segments| < 0x8000_0000
    ensures ReadBlob(BlobRecord(fieldId, stream, segments)[1..] + rest) == BlobRead(fieldId, stream, segments, rest)
  {
    hide Residue, Le, LeVal, Pow, FindLast, MaxLength, EncodeItems, AttInt, Fits;
    var items, frames := BlobItems(fieldId, stream, segments), Framing.Frame(segments);
    var f := BlobRecord(fieldId, stream, segments)[1..] + rest;
    assert f == EncodeItems(items) + [7] + (frames + rest);
    BareRoundTrip(items, 7, frames + rest);
    BlobAtts(fieldId, stream, segments);
    SegmentsRoundTrip(segments, rest);
  }

  lemma BlobAtts(fieldId: int, stream: bool, segments: seq<Bytes>)
    requires Fits(fieldId, 4) && |segments| < 0x8000_0000
    ensures var atts := PlainOf(BlobItems(fieldId, stream, segments));
            && IntLastOr(atts, 3, 0) == fieldId && IntLastOr(atts, 5, 0) == |segments|
            && IntLastOr(atts, 4, 0) == if stream then 1 else 0
  {
    hide Residue, Le, LeVal, MaxLength, FindLast;
    Widths();
    var a, b, c, d := [IntItem(3, fieldId)], [IntItem(6, MaxLength(segments))], [IntItem(5, |segments|)], [IntItem(4, if stream then 1 else 0)];
    assert BlobItems(fieldId, stream, segments) == a + b + c + d;
    forall tag: u8 | tag == 3 || tag == 4 || tag == 5
      ensures FindLast(PlainOf(a + b + c + d), tag)
              == if tag == 3 then Some(a[0].data) else if tag == 4 then Some(d[0].data) else Some(c[0].data)
    {
      LastOfItems(a + b + c, d, tag);
      LastOfItems(a + b, c, tag);
      LastOfItems(a, b, tag);
      OneLast(a[0], tag);
      OneLast(b[0], tag);
      OneLast(c[0], tag);
      OneLast(d[0], tag);
    }
    IntRoundTrip(fieldId);
    IntRoundTrip(|segments|);
    IntRoundTrip(if stream then 1 else 0);
  }

  // ------------------------------------------------------------------ arrays behind a row

  function ArrayItems(fieldId: int, dims: seq<(int, int)>): seq<Item> {
    [IntItem(3, fieldId), IntItem(14, |dims|)] + Bounds(dims, 15, 16)
  }

  /** The array record: its attributes, the raw length bare, and - unless it is empty - the canonical
      slice behind its own length. */
  function ArrayRecord(fieldId: int, dims: seq<(int, int)>, data: Bytes, xdr: Bytes): Bytes {
    [ARRAY_REC] + EncodeItems(ArrayItems(fieldId, dims)) + [7] + Le(|data|, 4)
    + if data == [] then [] else [18] + Le(|xdr|, 4) + xdr
  }

  datatype ArrayAtts = ArrayAtts(fieldId: int, low: Option<int>, dims: seq<(int, int)>, rawLength: Option<nat>)

  datatype ArrayRead = ArrayRead(atts: ArrayAtts, xdr: Bytes, rest: Bytes) | ArrayRefused

  function WithAtt(a: ArrayAtts, tag: u8, data: Bytes): ArrayAtts {
    if tag == 3 then a.(fieldId := AttInt(data))
    else if tag == 15 then a.(low := Some(Narrow(AttInt(data), 4)))
    else if tag == 16 then
      a.(dims := a.dims + [((match a.low case None => 1 case Some(l) => l), Narrow(AttInt(data), 4))], low := None)
    else a
  }

  /** The ARRAY arm's attribute loop: it ends at the canonical slice. */
  function ReadArray(f: Bytes, a: ArrayAtts): ArrayRead
    decreases |f|
  {
    if f == [] then ArrayRefused
    else if f[0] == 7 || f[0] == 18 then
      if |f| < 5 then ArrayRefused
      else
        var n := LeAt(f, 1, 4);
        if f[0] == 7 then ReadArray(f[5..], a.(rawLength := Some(n)))
        else if 5 + n > |f| then ArrayRefused
        else ArrayRead(a, f[5..5 + n], f[5 + n..])
    else if |f| < 2 || 2 + f[1] as nat > |f| then ArrayRefused
    else ReadArray(f[2 + f[1] as nat..], WithAtt(a, f[0], f[2..2 + f[1] as nat]))
  }

  const NO_ATTS := ArrayAtts(0, None, [], None)

  lemma ArrayInt(tag: u8, v: int, tail: Bytes, a: ArrayAtts)
    requires Fits(v, 4) && tag != 7 && tag != 18
    ensures ReadArray(EncodeItem(IntItem(tag, v)) + tail, a) == ReadArray(tail, WithAtt(a, tag, Le(Residue(v, 4), 4)))
    ensures AttInt(Le(Residue(v, 4), 4)) == v && Narrow(v, 4) == v
  {
    hide Le, LeVal, Residue, Pow, Fits, AttInt, WithAtt;
    var code := Le(Residue(v, 4), 4);
    var f := EncodeItem(IntItem(tag, v)) + tail;
    assert f[0] == tag && f[1] == 4 && f[2..6] == code && f[6..] == tail;
    IntRoundTrip(v);
    NarrowFits(v, 4);
  }

  lemma {:induction false} ArrayBounds(dims: seq<(int, int)>, tail: Bytes, a: ArrayAtts)
    requires BoundsFit(dims) && a.low == None
    ensures ReadArray(EncodeItems(Bounds(dims, 15, 16)) + tail, a) == ReadArray(tail, a.(dims := a.dims + dims))
  {
    hide EncodeItem, IntItem, Fits, AttInt, Le, Residue, ReadArray;
    if dims == [] {
      assert EncodeItems([]) + tail == tail && a.dims + [] == a.dims;
    } else {
      var (low, high) := dims[0];
      var more := EncodeItems(Bounds(dims[1..], 15, 16));
      var two := [IntItem(15, low), IntItem(16, high)];
      EncodeConcat(two, Bounds(dims[1..], 15, 16));
      EncodeTwo(two);
      var i, j := EncodeItem(two[0]), EncodeItem(two[1]);
      assert EncodeItems(Bounds(dims, 15, 16)) + tail == i + (j + (more + tail));
      ArrayInt(15, low, j + (more + tail), a);
      var mid := a.(low := Some(low));
      ArrayInt(16, high, more + tail, mid);
      var next := a.(dims := a.dims + [(low, high)]);
      assert BoundsFit(dims[1..]);
      ArrayBounds(dims[1..], tail, next);
      assert a.dims + [(low, high)] + dims[1..] == a.dims + dims;
    }
  }

  lemma EncodeTwo(two: seq<Item>)
    requires |two| == 2
    ensures EncodeItems(two) == EncodeItem(two[0]) + EncodeItem(two[1])
  {
    assert two == [two[0]] + [two[1]];
    EncodeConcat([two[0]], [two[1]]);
    EncodeOne(two[0]);
    EncodeOne(two[1]);
  }

  lemma ArrayTail(dataLength: nat, xdr: Bytes, rest: Bytes, a: ArrayAtts)
    requires dataLength < 0x1_0000_0000 && |xdr| < 0x1_0000_0000
    ensures ReadArray([7] + Le(dataLength, 4) + ([18] + Le(|xdr|, 4) + xdr) + rest, a)
            == ArrayRead(a.(rawLength := Some(dataLength)), xdr, rest)
  {
    hide Le, LeVal, Pow;
    Widths();
    LeRoundTrip(dataLength, 4);
    LeRoundTrip(|xdr|, 4);
    var f := [7] + Le(dataLength, 4) + ([18] + Le(|xdr|, 4) + xdr) + rest;
    var g := [18] + Le(|xdr|, 4) + xdr + rest;
    assert f[1..5] == Le(dataLength, 4) && f[5..] == g;
    assert g[1..5] == Le(|xdr|, 4) && g[5..5 + |xdr|] == xdr && g[5 + |xdr|..] == rest;
  }

  /** The attributes of an array record, up to its bare lengths. */
  lemma ArrayHead(fieldId: int, dims: seq<(int, int)>, tail: Bytes)
    requires Fits(fieldId, 4) && BoundsFit(dims) && |dims| < 0x8000_0000
    ensures ReadArray(EncodeItems(ArrayItems(fieldId, dims)) + tail, NO_ATTS) == ReadArray(tail, ArrayAtts(fieldId, None, dims, None))
  {
    hide EncodeItem, EncodeItems, IntItem, Fits, AttInt, Le, Residue, ReadArray, Bounds, Narrow, BoundsFit;
    var two, more := [IntItem(3, fieldId), IntItem(14, |dims|)], Bounds(dims, 15, 16);
    EncodeConcat(two, more);
    EncodeTwo(two);
    var i, j := EncodeItem(two[0]), EncodeItem(two[1]);
    assert EncodeItems(ArrayItems(fieldId, dims)) + tail == i + (j + (EncodeItems(more) + tail));
    FitsCount(|dims|);
    ArrayInt(3, fieldId, j + (EncodeItems(more) + tail), NO_ATTS);
    var a := NO_ATTS.(fieldId := fieldId);
    ArrayInt(14, |dims|, EncodeItems(more) + tail, a);
    ArrayBounds(dims, tail, a);
    assert a.dims + dims == dims;
  }

  lemma ArrayRoundTrip(fieldId: int, dims: seq<(int, int)>, data: Bytes, xdr: Bytes, rest: Bytes)
    requires Fits(fieldId, 4) && BoundsFit(dims) && |dims| < 0x8000_0000 && data != []
    requires |data| < 0x1_0000_0000 && |xdr| < 0x1_0000_0000
    ensures ReadArray(ArrayRecord(fieldId, dims, data, xdr)[1..] + rest, NO_ATTS)
            == ArrayRead(ArrayAtts(fieldId, None, dims, Some(|data|)), xdr, rest)
  {
    hide EncodeItems, ArrayItems, Fits, Le, ReadArray, BoundsFit;
    var head, tail := EncodeItems(ArrayItems(fieldId, dims)), [7] + Le(|data|, 4) + ([18] + Le(|xdr|, 4) + xdr) + rest;
    assert ArrayRecord(fieldId, dims, data, xdr)[1..] + rest == head + tail;
    ArrayHead(fieldId, dims, tail);
    ArrayTail(|data|, xdr, rest, ArrayAtts(fieldId, None, dims, None));
  }

  /** An empty array has no canonical slice, and the slice is the only end the reader knows: it reads on
      into whatever record comes next. */
  lemma EmptyArrayRunsOn(fieldId: int, dims: seq<(int, int)>, rest: Bytes)
    requires Fits(fieldId, 4) && BoundsFit(dims) && |dims| < 0x8000_0000
    ensures ReadArray(ArrayRecord(fieldId, dims, [], [])[1..] + rest, NO_ATTS)
            == ReadArray(rest, ArrayAtts(fieldId, None, dims, Some(0)))
  {
    hide EncodeItems, ArrayItems, Fits, Le, ReadArray, BoundsFit;
    var head, tail := EncodeItems(ArrayItems(fieldId, dims)), [7] + Le(0, 4) + rest;
    assert ArrayRecord(fieldId, dims, [], [])[1..] + rest == head + tail;
    ArrayHead(fieldId, dims, tail);
    RawLengthOnly(rest, ArrayAtts(fieldId, None, dims, None));
  }

  lemma RawLengthOnly(rest: Bytes, a: ArrayAtts)
    ensures ReadArray([7] + Le(0, 4) + rest, a) == ReadArray(rest, a.(rawLength := Some(0)))
  {
    hide Le, LeVal, Pow;
    Widths();
    LeRoundTrip(0, 4);
    var f := [7] + Le(0, 4) + rest;
    assert f[1..5] == Le(0, 4) && f[5..] == rest;
  }

  lemma FitsCount(n: nat)
    requires n < 0x8000_0000
    ensures Fits(n, 4)
  {
    Widths();
  }
}
