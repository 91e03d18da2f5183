/** A table's metadata in a backup file: the relation record and one field record for each column, as
    written, and as the reader picks the attributes out again. */
module BackupTables {
  import opened Words
  import opened Power
  import opened ByteStrings
  import opened LittleEndian
  import opened XdrRow
  import opened XdrSlice
  import opened BackupRecords

  const RELATION: u8 := 3
  const FIELD: u8 := 4

  const RELATION_BLOBS: set<u8> := {2, 3, 13, 14, 34}
  const FIELD_BLOBS: set<u8> := {35, 15, 39}

  /** PUBLIC, the schema every record names. */
  const PUBLIC: Bytes := [80, 85, 66, 76, 73, 67]

  /** A column as the writer carries it; `stored` is its place in the record image, `shape` the element
      of an array. */
  datatype Column = Column(
    name: Bytes, source: Bytes, position: int, fieldType: int, length: int, subType: int, scale: int, fieldId: int,
    updateFlag: int, notNull: bool, description: Option<Bytes>, charset: bool, default: Option<(Bytes, Bytes)>,
    dims: Option<seq<(int, int)>>, shape: Shape, stored: Col)

  /** A column as the reader rebuilds it. */
  datatype ReadCol = ReadCol(
    name: Bytes, fieldType: int, length: nat, scale: int, subType: int, position: int, fieldId: int, notNull: bool,
    source: Bytes, dims: int, computed: bool, default: Option<(Bytes, Bytes)>)

  // ------------------------------------------------------------------ the field record

  function Optional(b: bool, item: Item): seq<Item> {
    if b then [item] else []
  }

  function Bounds(dims: seq<(int, int)>, low: u8, high: u8): seq<Item> {
    if dims == [] then [] else [IntItem(low, dims[0].0), IntItem(high, dims[0].1)] + Bounds(dims[1..], low, high)
  }

  function FieldHead(c: Column): seq<Item> {
    [TextItem(1, c.name), TextItem(48, PUBLIC), TextItem(2, c.source), IntItem(13, c.position), IntItem(8, c.fieldType),
     IntItem(10, c.length), IntItem(9, c.subType), IntItem(11, c.scale), IntItem(22, c.fieldId), IntItem(24, 0),
     IntItem(34, c.updateFlag)]
  }

  function DescriptionItem(c: Column): seq<Item> {
    match c.description case None => [] case Some(d) => [BlobItem(35, d)]
  }

  function DefaultItems(c: Column): seq<Item> {
    match c.default case None => [] case Some(d) => [BlobItem(15, d.0)] + Optional(d.1 != [], BlobItem(39, d.1))
  }

  function FieldOptions(c: Column): seq<Item> {
    Optional(c.notNull, IntItem(38, 1))
    + DescriptionItem(c)
    + Optional(c.charset, IntItem(42, 0))
    + [IntItem(43, 0)]
    + DefaultItems(c)
    + Optional(c.stored.computed, IntItem(23, 1))
  }

  function FieldDims(c: Column): seq<Item> {
    match c.dims case None => [] case Some(dims) => [IntItem(29, |dims|)] + Bounds(dims, 32, 33)
  }

  function FieldItems(c: Column): seq<Item> {
    FieldHead(c) + FieldOptions(c) + FieldDims(c)
  }

  /** `as u16` of an attribute's integer. */
  function U16(v: int): nat {
    v % 0x1_0000
  }

  /** `as i8`, `as i16`, `as i32`. */
  function Narrow(v: int, k: nat): int {
    Signed(Residue(v, k), k)
  }

  lemma NarrowFits(v: int, k: nat)
    requires Fits(v, k)
    ensures Narrow(v, k) == v
  {
    var m := Pow(256, k);
    if v >= 0 {
      DivModUnique(v, m, 0, v);
    } else {
      DivModUnique(v, m, -1, v + m);
    }
  }

  function IntOr(atts: seq<Att>, tag: u8, otherwise: int): int {
    match Find(atts, tag) case None => otherwise case Some(data) => AttInt(data)
  }

  /** The field types a reader accepts. */
  predicate KnownFieldType(t: int) {
    t in {7, 8, 9, 10, 12, 13, 14, 16, 23, 26, 27, 35, 37, 261}
  }

  /** The FIELD arm, on the attributes read: the n-th column of its table. */
  function FieldOf(atts: seq<Att>, blobs: seq<Att>, n: nat): Option<ReadCol> {
    if Find(atts, 8) == None || Find(atts, 1) == None then None
    else
      var ftype := Narrow(IntOr(atts, 8, 0), 4);
      if !KnownFieldType(ftype) then None
      else Some(ReadCol(Find(atts, 1).value, ftype, U16(IntOr(atts, 10, 0)),
                        if ftype == 261 then 0 else Narrow(IntOr(atts, 11, 0), 1),
                        Narrow(IntOr(atts, 9, 0), 2), Narrow(IntOr(atts, 13, n), 4), Narrow(IntOr(atts, 22, n + 1), 4),
                        IntOr(atts, 38, 0) == 1,
                        (match Find(atts, 2) case None => [] case Some(t) => t),
                        Narrow(IntOr(atts, 29, 0), 4), IntOr(atts, 23, 0) != 0,
                        match Find(blobs, 15)
                        case None => None
                        case Some(blr) => Some((blr, match Find(blobs, 39) case None => [] case Some(d) => d))))
  }

  /** Values inside the widths the attributes are read back through. */
  predicate Carriable(c: Column) {
    && |c.name| <= 255 && |c.source| <= 255
    && Fits(c.position, 4) && KnownFieldType(c.fieldType) && 0 <= c.length < 0x1_0000 && Fits(c.subType, 2)
    && Fits(c.scale, 1) && (c.fieldType == 261 ==> c.scale == 0) && Fits(c.fieldId, 4) && Fits(c.updateFlag, 4)
    && (match c.description case None => true case Some(d) => |d| < 0x1_0000_0000)
    && (match c.default case None => true case Some(d) => |d.0| < 0x1_0000_0000 && |d.1| < 0x1_0000_0000)
    && (match c.dims case None => true case Some(dims) => |dims| < 0x8000_0000 && BoundsFit(dims))
  }

  predicate BoundsFit(dims: seq<(int, int)>) {
    forall i :: 0 <= i < |dims| ==> Fits(dims[i].0, 4) && Fits(dims[i].1, 4)
  }

  /** What the reader must rebuild. */
  function Rebuilt(c: Column): ReadCol
    requires Carriable(c)
  {
    ReadCol(c.name, c.fieldType, c.length, c.scale, c.subType, c.position, c.fieldId, c.notNull, c.source,
            match c.dims case None => 0 case Some(dims) => |dims|, c.stored.computed, c.default)
  }

  lemma {:induction false} BoundsFramed(dims: seq<(int, int)>, low: u8, high: u8, blobTags: set<u8>)
    requires low != 0 && high != 0 && low !in blobTags && high !in blobTags
    ensures AllFramed(Bounds(dims, low, high), blobTags) && BlobsOf(Bounds(dims, low, high)) == []
    ensures forall tag: u8 :: tag != low && tag != high ==> Find(PlainOf(Bounds(dims, low, high)), tag) == None
  {
    if dims != [] {
      BoundsFramed(dims[1..], low, high, blobTags);
      var two := [IntItem(low, dims[0].0), IntItem(high, dims[0].1)];
      PlainConcat(two, Bounds(dims[1..], low, high));
      PlainTwo(two);
      forall tag: u8 | tag != low && tag != high ensures Find(PlainOf(Bounds(dims, low, high)), tag) == None {
        FindConcat(PlainOf(two), PlainOf(Bounds(dims[1..], low, high)), tag);
        FindTwo(PlainOf(two), tag);
      }
    }
  }

  lemma PlainTwo(two: seq<Item>)
    requires |two| == 2 && two[0].PlainItem? && two[1].PlainItem?
    ensures PlainOf(two) == [Att(two[0].tag, two[0].data), Att(two[1].tag, two[1].data)] && BlobsOf(two) == []
  {
    assert two[1..][1..] == [];
    assert PlainOf(two[1..]) == PlainPart(two[1]) + PlainOf(two[1..][1..]);
    assert BlobsOf(two[1..]) == BlobPart(two[1]) + BlobsOf(two[1..][1..]);
  }

  lemma FindTwo(atts: seq<Att>, tag: u8)
    requires |atts| == 2 && atts[0].tag != tag && atts[1].tag != tag
    ensures Find(atts, tag) == None
  {
    assert atts[1..][1..] == [];
    assert Find(atts[1..], tag) == Find(atts[1..][1..], tag);
  }

  // ------------------------------------------------------------------ finding an item again

  /** The data a tag's first plain item carries. */
  function FindItem(items: seq<Item>, tag: u8): Option<Bytes> {
    Find(PlainOf(items), tag)
  }

  function FindBlob(items: seq<Item>, tag: u8): Option<Bytes> {
    Find(BlobsOf(items), tag)
  }

  lemma FindItemConcat(a: seq<Item>, b: seq<Item>, tag: u8)
    ensures FindItem(a + b, tag) == if FindItem(a, tag) == None then FindItem(b, tag) else FindItem(a, tag)
    ensures FindBlob(a + b, tag) == if FindBlob(a, tag) == None then FindBlob(b, tag) else FindBlob(a, tag)
  {
    PlainConcat(a, b);
    FindConcat(PlainOf(a), PlainOf(b), tag);
    FindConcat(BlobsOf(a), BlobsOf(b), tag);
  }

  /** One item at the front. */
  lemma FindItemFirst(items: seq<Item>, tag: u8)
    requires items != []
    ensures FindItem(items, tag)
            == if items[0].PlainItem? && items[0].tag == tag then Some(items[0].data) else FindItem(items[1..], tag)
    ensures FindBlob(items, tag)
            == if items[0].BlobItem? && items[0].tag == tag then Some(items[0].raw) else FindBlob(items[1..], tag)
  {
    var plain, blobs := PlainPart(items[0]), BlobPart(items[0]);
    FindConcat(plain, PlainOf(items[1..]), tag);
    FindConcat(blobs, BlobsOf(items[1..]), tag);
    FindInOne(plain, tag);
    FindInOne(blobs, tag);
  }

  lemma FindInOne(atts: seq<Att>, tag: u8)
    requires |atts| <= 1
    ensures Find(atts, tag) == if atts != [] && atts[0].tag == tag then Some(atts[0].data) else None
  {
  }

  lemma FindNothing(tag: u8)
    ensures FindItem([], tag) == None && FindBlob([], tag) == None
  {
  }

  /** Where an item stands decides what is found: for a tag that only ever is plain, or only blob. */
  lemma {:induction false} FoundAt(items: seq<Item>, tag: u8, i: nat)
    requires i < |items| && items[i].tag == tag && forall k :: 0 <= k < i ==> items[k].tag != tag
    ensures items[i].PlainItem? ==> FindItem(items, tag) == Some(items[i].data)
    ensures items[i].BlobItem? ==> FindBlob(items, tag) == Some(items[i].raw)
  {
    hide FindItem, FindBlob;
    FindItemFirst(items, tag);
    if i > 0 {
      assert items[0].tag != tag;
      assert forall k :: 0 <= k < i - 1 ==> items[1..][k] == items[k + 1];
      FoundAt(items[1..], tag, i - 1);
    }
  }

  lemma {:induction false} NotFound(items: seq<Item>, tag: u8)
    requires forall item :: item in items ==> item.tag != tag
    ensures FindItem(items, tag) == None && FindBlob(items, tag) == None
  {
    if items == [] {
      FindNothing(tag);
    } else {
      FindItemFirst(items, tag);
      assert items[0] in items;
      assert forall item :: item in items[1..] ==> item in items;
      NotFound(items[1..], tag);
    }
  }

  lemma FindOptional(b: bool, item: Item, tag: u8)
    ensures FindItem(Optional(b, item), tag) == if b && item.PlainItem? && item.tag == tag then Some(item.data) else None
    ensures FindBlob(Optional(b, item), tag) == if b && item.BlobItem? && item.tag == tag then Some(item.raw) else None
  {
    FindNothing(tag);
    if b {
      FindItemFirst([item], tag);
    }
  }

  /** What is found in the optional part of a field record. */
  lemma OptionsFind(c: Column, tag: u8)
    ensures tag == 38 ==> FindItem(FieldOptions(c), tag) == if c.notNull then Some(IntItem(38, 1).data) else None
    ensures tag == 23 ==> FindItem(FieldOptions(c), tag) == if c.stored.computed then Some(IntItem(23, 1).data) else None
    ensures tag == 29 ==> FindItem(FieldOptions(c), tag) == None
    ensures FindBlob(FieldOptions(c), tag) == BlobFound(c, tag)
  {
    hide FindItem, FindBlob, IntItem, Optional;
    var a, b, d, e := Optional(c.notNull, IntItem(38, 1)), DescriptionItem(c), Optional(c.charset, IntItem(42, 0)), [IntItem(43, 0)];
    var g, h := DefaultItems(c), Optional(c.stored.computed, IntItem(23, 1));
    assert FieldOptions(c) == a + b + d + e + g + h;
    FindItemConcat(a + b + d + e + g, h, tag);
    FindItemConcat(a + b + d + e, g, tag);
    FindItemConcat(a + b + d, e, tag);
    FindItemConcat(a + b, d, tag);
    FindItemConcat(a, b, tag);
    IntTags();
    FindOptional(c.notNull, IntItem(38, 1), tag);
    FindOptional(c.charset, IntItem(42, 0), tag);
    FindOptional(c.stored.computed, IntItem(23, 1), tag);
    FindItemFirst(e, tag);
    assert e[1..] == [];
    FindNothing(tag);
    DescriptionFind(c, tag);
    DefaultFind(c, tag);
  }

  lemma IntTags()
    ensures forall tag: u8, v: int {:trigger IntItem(tag, v)} :: IntItem(tag, v).PlainItem? && IntItem(tag, v).tag == tag
  {
  }

  function BlobFound(c: Column, tag: u8): Option<Bytes> {
    if tag == 35 then c.description
    else if tag == 15 && c.default.Some? then Some(c.default.value.0)
    else if tag == 39 && c.default.Some? && c.default.value.1 != [] then Some(c.default.value.1)
    else None
  }

  lemma DescriptionFind(c: Column, tag: u8)
    ensures FindItem(DescriptionItem(c), tag) == None
    ensures FindBlob(DescriptionItem(c), tag) == if tag == 35 then c.description else None
  {
    hide FindItem, FindBlob;
    FindNothing(tag);
    if c.description.Some? {
      FindItemFirst(DescriptionItem(c), tag);
      assert DescriptionItem(c)[1..] == [];
    }
  }

  lemma DefaultFind(c: Column, tag: u8)
    ensures FindItem(DefaultItems(c), tag) == None
    ensures FindBlob(DefaultItems(c), tag) == if tag == 15 || tag == 39 then BlobFound(c, tag) else None
  {
    hide FindItem, FindBlob;
    FindNothing(tag);
    if c.default.Some? {
      var d := c.default.value;
      FindItemFirst(DefaultItems(c), tag);
      assert DefaultItems(c)[1..] == Optional(d.1 != [], BlobItem(39, d.1));
      FindOptional(d.1 != [], BlobItem(39, d.1), tag);
    }
  }

  lemma DimsFind(c: Column, tag: u8)
    requires tag != 32 && tag != 33
    ensures FindItem(FieldDims(c), tag) == if tag == 29 && c.dims.Some? then Some(IntItem(29, |c.dims.value|).data) else None
    ensures FindBlob(FieldDims(c), tag) == None
  {
    hide FindItem, FindBlob, IntItem, Bounds;
    FindNothing(tag);
    IntTags();
    if c.dims.Some? {
      var dims := c.dims.value;
      FindItemFirst(FieldDims(c), tag);
      assert FieldDims(c)[1..] == Bounds(dims, 32, 33);
      BoundsFind(dims, tag);
    }
  }

  lemma BoundsFind(dims: seq<(int, int)>, tag: u8)
    requires tag != 32 && tag != 33
    ensures FindItem(Bounds(dims, 32, 33), tag) == None && FindBlob(Bounds(dims, 32, 33), tag) == None
  {
    BoundsFramed(dims, 32, 33, {});
  }

  lemma HeadFind(c: Column, tag: u8)
    requires tag == 38 || tag == 23 || tag == 29 || tag == 15 || tag == 39
    ensures FindItem(FieldHead(c), tag) == None && FindBlob(FieldHead(c), tag) == None
  {
    hide FindItem, FindBlob;
    NotFound(FieldHead(c), tag);
  }

  /** The optional attributes of a field record, found or not. */
  lemma OptionalFound(c: Column)
    ensures FindItem(FieldItems(c), 38) == if c.notNull then Some(IntItem(38, 1).data) else None
    ensures FindItem(FieldItems(c), 23) == if c.stored.computed then Some(IntItem(23, 1).data) else None
    ensures FindItem(FieldItems(c), 29) == if c.dims.Some? then Some(IntItem(29, |c.dims.value|).data) else None
    ensures FindBlob(FieldItems(c), 15) == BlobFound(c, 15) && FindBlob(FieldItems(c), 39) == BlobFound(c, 39)
  {
    OptionalFoundOne(c, 38);
    OptionalFoundOne(c, 23);
    OptionalFoundOne(c, 29);
    OptionalFoundOne(c, 15);
    OptionalFoundOne(c, 39);
  }

  lemma OptionalFoundOne(c: Column, tag: u8)
    requires tag == 38 || tag == 23 || tag == 29 || tag == 15 || tag == 39
    ensures tag == 38 ==> FindItem(FieldItems(c), tag) == if c.notNull then Some(IntItem(38, 1).data) else None
    ensures tag == 23 ==> FindItem(FieldItems(c), tag) == if c.stored.computed then Some(IntItem(23, 1).data) else None
    ensures tag == 29 ==> FindItem(FieldItems(c), tag) == if c.dims.Some? then Some(IntItem(29, |c.dims.value|).data) else None
    ensures tag == 15 || tag == 39 ==> FindBlob(FieldItems(c), tag) == BlobFound(c, tag)
  {
    hide FindItem, FindBlob, IntItem, FieldHead, FieldOptions, FieldDims, BlobFound;
    FindItemConcat(FieldHead(c) + FieldOptions(c), FieldDims(c), tag);
    FindItemConcat(FieldHead(c), FieldOptions(c), tag);
    HeadFind(c, tag);
    OptionsFind(c, tag);
    DimsFind(c, tag);
  }

  lemma HeadFound(c: Column, i: nat)
    requires i < 11 && i != 1
    ensures FindItem(FieldItems(c), FieldHead(c)[i].tag) == Some(FieldHead(c)[i].data)
  {
    hide FindItem, FindBlob, FieldOptions, FieldDims;
    var items := FieldItems(c);
    assert forall k :: 0 <= k < 11 ==> items[k] == FieldHead(c)[k];
    FoundAt(items, FieldHead(c)[i].tag, i);
  }

  lemma HeadIntFound(c: Column, i: nat, tag: u8, v: int)
    requires 3 <= i < 11 && FieldHead(c)[i] == IntItem(tag, v) && Fits(v, 4)
    ensures IntOr(PlainOf(FieldItems(c)), tag, 0) == v && (forall otherwise :: IntOr(PlainOf(FieldItems(c)), tag, otherwise) == v)
  {
    HeadFound(c, i);
    IntRoundTrip(v);
  }

  lemma Widening(v: int, k: nat)
    requires Fits(v, k) && k <= 4
    ensures Fits(v, 4)
  {
    PowMonotone(256, k, 4);
  }

  lemma AllItemsFramed(c: Column)
    requires Carriable(c)
    ensures AllFramed(FieldItems(c), FIELD_BLOBS)
  {
    hide Fits, KnownFieldType, Framed, FieldHead, FieldOptions, FieldDims;
    HeadFramed(c);
    OptionsFramed(c);
    DimsFramed(c);
  }

  lemma IntFramed(tag: u8, v: int, blobTags: set<u8>)
    ensures tag != 0 && tag !in blobTags ==> Framed(IntItem(tag, v), blobTags)
  {
  }

  lemma TextFramed(tag: u8, text: Bytes, blobTags: set<u8>)
    ensures tag != 0 && tag !in blobTags ==> Framed(TextItem(tag, text), blobTags)
  {
  }

  lemma HeadFramed(c: Column)
    ensures AllFramed(FieldHead(c), FIELD_BLOBS)
  {
    hide IntItem, TextItem, Framed;
    forall item | item in FieldHead(c) ensures Framed(item, FIELD_BLOBS) {
      TextFramed(1, c.name, FIELD_BLOBS);
      TextFramed(48, PUBLIC, FIELD_BLOBS);
      TextFramed(2, c.source, FIELD_BLOBS);
      IntFramed(13, c.position, FIELD_BLOBS);
      IntFramed(8, c.fieldType, FIELD_BLOBS);
      IntFramed(10, c.length, FIELD_BLOBS);
      IntFramed(9, c.subType, FIELD_BLOBS);
      IntFramed(11, c.scale, FIELD_BLOBS);
      IntFramed(22, c.fieldId, FIELD_BLOBS);
      IntFramed(24, 0, FIELD_BLOBS);
      IntFramed(34, c.updateFlag, FIELD_BLOBS);
    }
  }

  lemma OptionsFramed(c: Column)
    requires Carriable(c)
    ensures AllFramed(FieldOptions(c), FIELD_BLOBS)
  {
    hide IntItem, Fits, KnownFieldType, BoundsFit;
    IntFramed(38, 1, FIELD_BLOBS);
    IntFramed(42, 0, FIELD_BLOBS);
    IntFramed(43, 0, FIELD_BLOBS);
    IntFramed(23, 1, FIELD_BLOBS);
    assert AllFramed(DescriptionItem(c), FIELD_BLOBS) && AllFramed(DefaultItems(c), FIELD_BLOBS);
  }

  lemma DimsFramed(c: Column)
    ensures AllFramed(FieldDims(c), FIELD_BLOBS)
  {
    hide IntItem, Bounds, Framed;
    if c.dims.Some? {
      IntFramed(29, |c.dims.value|, FIELD_BLOBS);
      BoundsFramed(c.dims.value, 32, 33, FIELD_BLOBS);
    }
  }

  lemma CutWhole(text: Bytes)
    requires |text| <= 255
    ensures Cut(text) == text
  {
  }

  /** The scalar attributes of a field record read back through their widths. */
  lemma HeadRead(c: Column)
    requires Carriable(c)
    ensures var atts := PlainOf(FieldItems(c));
            && Find(atts, 1) == Some(c.name) && Find(atts, 2) == Some(c.source) && Find(atts, 8).Some?
            && Narrow(IntOr(atts, 8, 0), 4) == c.fieldType && U16(IntOr(atts, 10, 0)) == c.length
            && Narrow(IntOr(atts, 11, 0), 1) == c.scale && Narrow(IntOr(atts, 9, 0), 2) == c.subType
            && forall n :: Narrow(IntOr(atts, 13, n), 4) == c.position && Narrow(IntOr(atts, 22, n), 4) == c.fieldId
  {
    hide FieldItems, IntOr, Narrow, Residue;
    Widths();
    CutWhole(c.name);
    CutWhole(c.source);
    Widening(c.scale, 1);
    Widening(c.subType, 2);
    HeadFound(c, 0);
    HeadFound(c, 2);
    HeadFound(c, 4);
    HeadIntFound(c, 3, 13, c.position);
    HeadIntFound(c, 4, 8, c.fieldType);
    HeadIntFound(c, 5, 10, c.length);
    HeadIntFound(c, 6, 9, c.subType);
    HeadIntFound(c, 7, 11, c.scale);
    HeadIntFound(c, 8, 22, c.fieldId);
    NarrowFits(c.position, 4);
    NarrowFits(c.fieldType, 4);
    NarrowFits(c.subType, 2);
    NarrowFits(c.scale, 1);
    NarrowFits(c.fieldId, 4);
  }

  /** Reading a column's field record rebuilds the column, and stops at the byte after the record. */
  lemma FieldRoundTrip(c: Column, n: nat, rest: Bytes)
    requires Carriable(c)
    ensures var r := ReadAtts(EncodeItems(FieldItems(c)) + [0] + rest, FIELD_BLOBS);
            r.Parsed? && r.rest == rest && FieldOf(r.atts, r.blobs, n) == Some(Rebuilt(c))
  {
    hide FieldItems, IntOr, Narrow, U16, Residue, Find, EncodeItems, ReadAtts, Fits;
    AllItemsFramed(c);
    ItemsRoundTrip(FieldItems(c), rest, FIELD_BLOBS);
    HeadRead(c);
    OptionalFound(c);
    OptionalRead(c);
  }

  lemma OptionalRead(c: Column)
    requires Carriable(c)
    ensures var atts := PlainOf(FieldItems(c));
            && (IntOr(atts, 38, 0) == 1 <==> c.notNull) && (IntOr(atts, 23, 0) != 0 <==> c.stored.computed)
            && Narrow(IntOr(atts, 29, 0), 4) == match c.dims case None => 0 case Some(dims) => |dims|
  {
    hide FieldItems, Narrow, Pow;
    OptionalFound(c);
    Widths();
    IntRoundTrip(1);
    NarrowFits(0, 4);
    if c.dims.Some? {
      IntRoundTrip(|c.dims.value|);
      NarrowFits(|c.dims.value|, 4);
    }
  }
}
