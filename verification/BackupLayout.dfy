/** The records of a backup file byte by byte: every record type, attribute number, length and word as
    the engine's reader expects them, spelled out without the encoder's own functions; and what a reader
    of attributes finds under the numbers that the restore itself passes over. */
module BackupLayout {
  import opened Words
  import opened Power
  import opened ByteStrings
  import opened LittleEndian
  import opened Layout
  import opened XdrRow
  import opened XdrLayout
  import opened BackupRecords
  import opened BackupTables
  import opened BackupStream
  import opened BackupRestore
  import Framing = BlobFraming
  import Reader = BackupReader
  import XdrSlice
  import RunLength

  // ------------------------------------------------------------------ attributes spelled out

  /** A signed 32-bit number in two's complement, least byte first. */
  function Four(v: int): (b: Bytes)
    requires -0x8000_0000 <= v < 0x8000_0000
    ensures |b| == 4
  {
    var x := if v < 0 then v + 0x1_0000_0000 else v;
    [(x % 0x100) as u8, (x / 0x100 % 0x100) as u8, (x / 0x1_0000 % 0x100) as u8, (x / 0x100_0000) as u8]
  }

  predicate Int32(v: int) {
    -0x8000_0000 <= v < 0x8000_0000
  }

  function Number(att: u8, v: int): Bytes
    requires Int32(v)
  {
    [att, 4] + Four(v)
  }

  function Name(att: u8, text: Bytes): Bytes
    requires |text| <= 255
  {
    [att, |text| as u8] + text
  }

  function MaybeName(att: u8, text: Option<Bytes>): Bytes
    requires text.Some? ==> |text.value| <= 255
  {
    if text.Some? then Name(att, text.value) else []
  }

  /** A blob attribute: four bytes of length, themselves the attribute, and the bytes behind them. */
  function Bulk(att: u8, raw: Bytes): Bytes
    requires |raw| < 0x8000_0000
  {
    [att, 4] + Four(|raw|) + raw
  }

  function MaybeBulk(att: u8, raw: Option<Bytes>): Bytes
    requires raw.Some? ==> |raw.value| < 0x8000_0000
  {
    if raw.Some? then Bulk(att, raw.value) else []
  }

  lemma FourIs(v: int)
    requires Int32(v)
    ensures Le(Residue(v, 4), 4) == Four(v)
  {
    hide Le, Pow;
    var x := if v < 0 then v + 0x1_0000_0000 else v;
    Widths();
    DivModUnique(v, Pow(256, 4), if v < 0 then -1 else 0, x);
    WordsWritten(x);
    FourDigitsOf(Le(x, 4), x);
  }

  lemma FourDigitsOf(b: Bytes, x: nat)
    requires |b| == 4 && x < 0x1_0000_0000 && Word32(b, 0) == x
    ensures b == [(x % 0x100) as u8, (x / 0x100 % 0x100) as u8, (x / 0x1_0000 % 0x100) as u8, (x / 0x100_0000) as u8]
  {
    var p, q, r, s := b[0] as nat, b[1] as nat, b[2] as nat, b[3] as nat;
    DivModUnique(x, 0x100, q + 0x100 * r + 0x1_0000 * s, p);
    DivModUnique(q + 0x100 * r + 0x1_0000 * s, 0x100, r + 0x100 * s, q);
    DivModUnique(x, 0x1_0000, r + 0x100 * s, p + 0x100 * q);
    DivModUnique(r + 0x100 * s, 0x100, s, r);
    DivModUnique(x, 0x100_0000, s, p + 0x100 * q + 0x1_0000 * r);
    DivModUnique(x / 0x100, 0x100, r + 0x100 * s, q);
  }

  lemma NumberIs(att: u8, v: int)
    requires Int32(v)
    ensures EncodeItem(IntItem(att, v)) == Number(att, v)
  {
    hide Le, Residue, Four;
    FourIs(v);
  }

  lemma NameIs(att: u8, text: Bytes)
    requires |text| <= 255
    ensures EncodeItem(TextItem(att, text)) == Name(att, text)
  {
    CutWhole(text);
  }

  lemma BulkIs(att: u8, raw: Bytes)
    requires |raw| < 0x8000_0000
    ensures EncodeItem(BlobItem(att, raw)) == Bulk(att, raw)
  {
    hide Le, Four;
    FourIs(|raw|);
    Widths();
    DivModUnique(|raw|, Pow(256, 4), 0, |raw|);
  }

  /** Items one behind the other. */
  lemma OneMore(items: seq<Item>, item: Item, bytes: Bytes)
    requires EncodeItems(items) == bytes
    ensures EncodeItems(items + [item]) == bytes + EncodeItem(item)
  {
    EncodeConcat(items, [item]);
    EncodeOne(item);
  }

  lemma NoItems()
    ensures EncodeItems([]) == []
  {
  }

  // ------------------------------------------------------------------ the relation record

  predicate Given(t: Table) {
    CarriableTable(t) && (t.description.Some? ==> |t.description.value| < 0x8000_0000)
  }

  /** `03`, the schema under 21, the name under 1, the flags under 16, the security class under 8 and the
      owner under 12 where the table has them, an external file under 17, the kind under 18, a
      description under 13, `00`. */
  lemma RelationLayout(t: Table)
    requires Given(t)
    ensures Record(RELATION, RelationItems(t))
            == [3] + Name(21, [80, 85, 66, 76, 73, 67]) + Name(1, t.name) + Number(16, 1)
               + MaybeName(8, t.securityClass) + MaybeName(12, t.owner) + MaybeName(17, t.extFile)
               + Number(18, t.kind) + MaybeBulk(13, t.description) + [0]
  {
    hide EncodeItem, EncodeItems, IntItem, TextItem, Number, Name, Bulk, Carriable, MaybeName, MaybeBulk;
    var h, b := [TextItem(21, PUBLIC), TextItem(1, t.name), IntItem(16, 1)], Name(21, PUBLIC) + Name(1, t.name) + Number(16, 1);
    NameIs(21, PUBLIC);
    NameIs(1, t.name);
    NumberIs(16, 1);
    ThreeItems(h[0], h[1], h[2]);
    RelationTail(t, h, b);
    RelationParts(Name(21, PUBLIC), Name(1, t.name), Number(16, 1), MaybeName(8, t.securityClass), MaybeName(12, t.owner),
                  MaybeName(17, t.extFile), Number(18, t.kind), MaybeBulk(13, t.description));
  }

  lemma RelationParts(a: Bytes, b: Bytes, c: Bytes, d: Bytes, e: Bytes, f: Bytes, g: Bytes, h: Bytes)
    ensures [3] + ((a + b + c) + (d + e + f + g + h)) + [0] == [3] + a + b + c + d + e + f + g + h + [0]
  {
  }

  lemma RelationTail(t: Table, h: seq<Item>, b: Bytes)
    requires Given(t) && EncodeItems(h) == b
    requires RelationItems(t) == h + OptionalText(8, t.securityClass) + OptionalText(12, t.owner) + OptionalText(17, t.extFile)
                                 + [IntItem(18, t.kind)] + BackupStream.DescriptionItem(t)
    ensures EncodeItems(RelationItems(t))
            == b + (MaybeName(8, t.securityClass) + MaybeName(12, t.owner) + MaybeName(17, t.extFile) + Number(18, t.kind) + MaybeBulk(13, t.description))
  {
    hide EncodeItem, EncodeItems, IntItem, TextItem, Number, Name, Bulk, OptionalText, MaybeName, MaybeBulk, Carriable, RelationItems;
    var (i1, m1) := (h + OptionalText(8, t.securityClass), b + MaybeName(8, t.securityClass));
    OptionalName(h, 8, t.securityClass, b);
    var (i2, m2) := (i1 + OptionalText(12, t.owner), m1 + MaybeName(12, t.owner));
    OptionalName(i1, 12, t.owner, m1);
    var (i3, m3) := (i2 + OptionalText(17, t.extFile), m2 + MaybeName(17, t.extFile));
    OptionalName(i2, 17, t.extFile, m2);
    NumberIs(18, t.kind);
    OneMore(i3, IntItem(18, t.kind), m3);
    OptionalBulk(i3 + [IntItem(18, t.kind)], 13, t.description, m3 + Number(18, t.kind));
    FiveParts(b, MaybeName(8, t.securityClass), MaybeName(12, t.owner), MaybeName(17, t.extFile), Number(18, t.kind), MaybeBulk(13, t.description));
  }

  lemma FiveParts(b: Bytes, p: Bytes, q: Bytes, r: Bytes, s: Bytes, u: Bytes)
    ensures b + p + q + r + s + u == b + (p + q + r + s + u)
  {
  }

  lemma ThreeItems(x: Item, y: Item, z: Item)
    ensures EncodeItems([x, y, z]) == EncodeItem(x) + EncodeItem(y) + EncodeItem(z)
  {
    hide EncodeItem, EncodeItems;
    EncodeConcat([x], [y]);
    EncodeConcat([x] + [y], [z]);
    EncodeOne(x);
    EncodeOne(y);
    EncodeOne(z);
    assert [x] + [y] + [z] == [x, y, z];
  }

  lemma OptionalName(items: seq<Item>, att: u8, text: Option<Bytes>, bytes: Bytes)
    requires EncodeItems(items) == bytes && (text.Some? ==> |text.value| <= 255)
    ensures EncodeItems(items + OptionalText(att, text)) == bytes + MaybeName(att, text)
  {
    hide EncodeItem, EncodeItems, TextItem, Name;
    if text.Some? {
      NameIs(att, text.value);
      OneMore(items, TextItem(att, text.value), bytes);
    } else {
      assert items + [] == items && bytes + [] == bytes;
    }
  }

  lemma OptionalBulk(items: seq<Item>, att: u8, raw: Option<Bytes>, bytes: Bytes)
    requires EncodeItems(items) == bytes && (raw.Some? ==> |raw.value| < 0x8000_0000)
    ensures EncodeItems(items + (if raw.Some? then [BlobItem(att, raw.value)] else [])) == bytes + MaybeBulk(att, raw)
  {
    hide EncodeItem, EncodeItems, Bulk;
    if raw.Some? {
      BulkIs(att, raw.value);
      OneMore(items, BlobItem(att, raw.value), bytes);
    } else {
      assert items + [] == items && bytes + [] == bytes;
    }
  }

  // ------------------------------------------------------------------ the field record

  predicate GivenColumn(c: Column) {
    && Carriable(c) && Int32(c.length)
    && (c.description.Some? ==> |c.description.value| < 0x8000_0000)
    && (c.default.Some? ==> |c.default.value.0| < 0x8000_0000 && |c.default.value.1| < 0x8000_0000)
  }

  function MaybeNumber(b: bool, att: u8, v: int): Bytes
    requires Int32(v)
  {
    if b then Number(att, v) else []
  }

  function DefaultBytes(d: Option<(Bytes, Bytes)>): Bytes
    requires d.Some? ==> |d.value.0| < 0x8000_0000 && |d.value.1| < 0x8000_0000
  {
    if d == None then [] else Bulk(15, d.value.0) + if d.value.1 == [] then [] else Bulk(39, d.value.1)
  }

  predicate Bounded(dims: seq<(int, int)>) {
    forall i :: 0 <= i < |dims| ==> Int32(dims[i].0) && Int32(dims[i].1)
  }

  /** Low and high of each dimension in turn. */
  function BoundBytes(dims: seq<(int, int)>, low: u8, high: u8): Bytes
    requires Bounded(dims)
  {
    if dims == [] then [] else
      var n := |dims| - 1;
      BoundBytes(dims[..n], low, high) + (Number(low, dims[n].0) + Number(high, dims[n].1))
  }

  lemma Narrower(c: Column)
    requires GivenColumn(c)
    ensures Int32(c.position) && Int32(c.fieldType) && Int32(c.subType) && Int32(c.scale) && Int32(c.fieldId) && Int32(c.updateFlag)
    ensures c.dims.Some? ==> Bounded(c.dims.value) && |c.dims.value| < 0x8000_0000
  {
    hide Pow;
    Widths();
  }

  /** `04`, then name 1, schema 48, source 2, position 13, type 8, length 10, sub-type 9, scale 11, field
      id 22, view context 24, update flag 34; the null flag under 38 of a column that has one, its
      description under 35, the character set 42 of a text column, the collation 43, a default's two
      forms under 15 and 39, the computed flag 23, and of an array its dimensions 29 and their bounds
      under 32 and 33. */
  lemma FieldLayout(c: Column)
    requires GivenColumn(c)
    ensures Int32(c.position) && Int32(c.fieldType) && Int32(c.subType) && Int32(c.scale) && Int32(c.fieldId) && Int32(c.updateFlag)
    ensures c.dims.Some? ==> Bounded(c.dims.value) && |c.dims.value| < 0x8000_0000
    ensures Record(FIELD, FieldItems(c))
            == [4] + (Name(1, c.name) + Name(48, [80, 85, 66, 76, 73, 67]) + Name(2, c.source) + Number(13, c.position) + Number(8, c.fieldType)
                      + Number(10, c.length) + Number(9, c.subType) + Number(11, c.scale) + Number(22, c.fieldId) + Number(24, 0)
                      + Number(34, c.updateFlag))
               + (MaybeNumber(c.notNull, 38, 1) + MaybeBulk(35, c.description) + MaybeNumber(c.charset, 42, 0) + Number(43, 0)
                  + DefaultBytes(c.default) + MaybeNumber(c.stored.computed, 23, 1))
               + (if c.dims.Some? then Number(29, |c.dims.value|) + BoundBytes(c.dims.value, 32, 33) else [])
               + [0]
  {
    hide EncodeItem, EncodeItems, FieldHead, FieldOptions, FieldDims, Number, Name, Bulk, Carriable, DefaultBytes, MaybeNumber, BoundBytes;
    Narrower(c);
    HeadLayout(c);
    OptionsLayout(c);
    DimsLayout(c);
    EncodeConcat(FieldHead(c) + FieldOptions(c), FieldDims(c));
    EncodeConcat(FieldHead(c), FieldOptions(c));
    var h, o, d := EncodeItems(FieldHead(c)), EncodeItems(FieldOptions(c)), EncodeItems(FieldDims(c));
    assert [4 as u8] + (h + o + d) + [0] == [4] + h + o + d + [0];
  }

  lemma HeadLayout(c: Column)
    requires GivenColumn(c) && Int32(c.position) && Int32(c.fieldType) && Int32(c.subType) && Int32(c.scale) && Int32(c.fieldId) && Int32(c.updateFlag)
    ensures EncodeItems(FieldHead(c))
            == Name(1, c.name) + Name(48, [80, 85, 66, 76, 73, 67]) + Name(2, c.source) + Number(13, c.position) + Number(8, c.fieldType)
               + Number(10, c.length) + Number(9, c.subType) + Number(11, c.scale) + Number(22, c.fieldId) + Number(24, 0)
               + Number(34, c.updateFlag)
  {
    hide EncodeItem, EncodeItems, IntItem, TextItem, Number, Name;
    NameIs(1, c.name);
    NameIs(48, PUBLIC);
    NameIs(2, c.source);
    NumberIs(13, c.position);
    NumberIs(8, c.fieldType);
    NumberIs(10, c.length);
    NumberIs(9, c.subType);
    NumberIs(11, c.scale);
    NumberIs(22, c.fieldId);
    NumberIs(24, 0);
    NumberIs(34, c.updateFlag);
    var a, b := [TextItem(1, c.name), TextItem(48, PUBLIC), TextItem(2, c.source)], [IntItem(13, c.position), IntItem(8, c.fieldType), IntItem(10, c.length)];
    var d, e := [IntItem(9, c.subType), IntItem(11, c.scale), IntItem(22, c.fieldId)], [IntItem(24, 0), IntItem(34, c.updateFlag)];
    ThreeItems(a[0], a[1], a[2]);
    ThreeItems(b[0], b[1], b[2]);
    ThreeItems(d[0], d[1], d[2]);
    EncodeTwo(e);
    assert FieldHead(c) == a + b + d + e;
    EncodeConcat(a + b + d, e);
    EncodeConcat(a + b, d);
    EncodeConcat(a, b);
    Eleven(Name(1, c.name), Name(48, PUBLIC), Name(2, c.source), Number(13, c.position), Number(8, c.fieldType), Number(10, c.length),
           Number(9, c.subType), Number(11, c.scale), Number(22, c.fieldId), Number(24, 0), Number(34, c.updateFlag));
  }

  lemma Eleven(a: Bytes, b: Bytes, c: Bytes, d: Bytes, e: Bytes, f: Bytes, g: Bytes, h: Bytes, i: Bytes, j: Bytes, k: Bytes)
    ensures (a + b + c) + (d + e + f) + (g + h + i) + (j + k) == a + b + c + d + e + f + g + h + i + j + k
  {
  }

  lemma OptionsLayout(c: Column)
    requires GivenColumn(c)
    ensures EncodeItems(FieldOptions(c))
            == MaybeNumber(c.notNull, 38, 1) + MaybeBulk(35, c.description) + MaybeNumber(c.charset, 42, 0) + Number(43, 0)
               + DefaultBytes(c.default) + MaybeNumber(c.stored.computed, 23, 1)
  {
    hide EncodeItem, EncodeItems, IntItem, Number, Bulk, Optional, DefaultItems, MaybeNumber, DefaultBytes, MaybeBulk, Carriable;
    var a, b, d := Optional(c.notNull, IntItem(38, 1)), BackupTables.DescriptionItem(c), Optional(c.charset, IntItem(42, 0));
    var e, g, h := [IntItem(43, 0)], DefaultItems(c), Optional(c.stored.computed, IntItem(23, 1));
    assert FieldOptions(c) == a + b + d + e + g + h;
    EncodeConcat(a + b + d + e + g, h);
    EncodeConcat(a + b + d + e, g);
    EncodeConcat(a + b + d, e);
    EncodeConcat(a + b, d);
    EncodeConcat(a, b);
    OptionalNumber(c.notNull, 38, 1);
    OptionalNumber(c.charset, 42, 0);
    OptionalNumber(c.stored.computed, 23, 1);
    NumberIs(43, 0);
    EncodeOne(IntItem(43, 0));
    NoItems();
    OptionalBulk([], 35, c.description, []);
    assert [] + b == b && [] + MaybeBulk(35, c.description) == MaybeBulk(35, c.description);
    DefaultLayout(c);
  }

  lemma OptionalNumber(b: bool, att: u8, v: int)
    requires Int32(v)
    ensures EncodeItems(Optional(b, IntItem(att, v))) == MaybeNumber(b, att, v)
  {
    hide EncodeItem, EncodeItems, IntItem, Number;
    NoItems();
    NumberIs(att, v);
    EncodeOne(IntItem(att, v));
  }

  lemma DefaultLayout(c: Column)
    requires GivenColumn(c)
    ensures EncodeItems(DefaultItems(c)) == DefaultBytes(c.default)
  {
    hide EncodeItem, EncodeItems, Bulk;
    NoItems();
    if c.default.Some? {
      var d := c.default.value;
      BulkIs(15, d.0);
      BulkIs(39, d.1);
      EncodeOne(BlobItem(15, d.0));
      EncodeOne(BlobItem(39, d.1));
      EncodeConcat([BlobItem(15, d.0)], Optional(d.1 != [], BlobItem(39, d.1)));
    }
  }

  lemma DimsLayout(c: Column)
    requires c.dims.Some? ==> Bounded(c.dims.value) && |c.dims.value| < 0x8000_0000
    ensures EncodeItems(FieldDims(c)) == if c.dims.Some? then Number(29, |c.dims.value|) + BoundBytes(c.dims.value, 32, 33) else []
  {
    hide EncodeItem, EncodeItems, IntItem, Number, BoundBytes, Bounds;
    NoItems();
    if c.dims.Some? {
      var n := |c.dims.value|;
      NumberIs(29, n);
      EncodeOne(IntItem(29, n));
      EncodeConcat([IntItem(29, n)], Bounds(c.dims.value, 32, 33));
      BoundsLayout(c.dims.value, 32, 33);
    }
  }

  lemma {:induction false} BoundsSnoc(dims: seq<(int, int)>, low: u8, high: u8)
    requires dims != []
    ensures var n := |dims| - 1;
            Bounds(dims, low, high) == Bounds(dims[..n], low, high) + [IntItem(low, dims[n].0), IntItem(high, dims[n].1)]
  {
    hide IntItem;
    var n := |dims| - 1;
    if n > 0 {
      BoundsSnoc(dims[1..], low, high);
      assert dims[1..][..n - 1] == dims[..n][1..];
    }
  }

  lemma {:induction false} BoundsLayout(dims: seq<(int, int)>, low: u8, high: u8)
    requires Bounded(dims)
    ensures EncodeItems(Bounds(dims, low, high)) == BoundBytes(dims, low, high)
  {
    hide EncodeItem, EncodeItems, IntItem, Number, Bounds;
    if dims == [] {
      NoItems();
      NoBounds(low, high);
    } else {
      var n := |dims| - 1;
      BoundsLayout(dims[..n], low, high);
      BoundsSnoc(dims, low, high);
      var two := [IntItem(low, dims[n].0), IntItem(high, dims[n].1)];
      EncodeConcat(Bounds(dims[..n], low, high), two);
      EncodeTwo(two);
      NumberIs(low, dims[n].0);
      NumberIs(high, dims[n].1);
    }
  }

  lemma NoBounds(low: u8, high: u8)
    ensures Bounds([], low, high) == []
  {
  }

  // ------------------------------------------------------------------ the records of a table's data

  /** `08`, the schema under 21 and the table's name under 1, `00`: what opens a table's data. */
  lemma DataHeadLayout(t: Table)
    requires |t.name| <= 255
    ensures Record(RELATION_DATA, DataItems(t)) == [8] + Name(21, [80, 85, 66, 76, 73, 67]) + Name(1, t.name) + [0]
  {
    hide EncodeItem, EncodeItems, TextItem, Name;
    NameIs(21, PUBLIC);
    NameIs(1, t.name);
    EncodeTwo(DataItems(t));
    assert [8 as u8] + (Name(21, PUBLIC) + Name(1, t.name)) + [0] == [8] + Name(21, PUBLIC) + Name(1, t.name) + [0];
  }

  /** `06`, the row's length under 1 and once more under 17, `02` and the packed row. */
  lemma RowLayout(xdr: Bytes, tokens: seq<RunLength.Token>)
    requires RunLength.AllWellFormed(tokens) && |xdr| < 0x8000_0000
    ensures RowRecord(xdr, tokens) == [6] + Number(1, |xdr|) + Number(17, |xdr|) + [2] + RunLength.EncodeAll(tokens)
  {
    hide EncodeItem, IntItem, Number, RunLength.EncodeAll, RunLength.AllWellFormed;
    NumberIs(1, |xdr|);
    NumberIs(17, |xdr|);
  }

  /** No segment is longer, and one is as long. */
  predicate Longest(segments: seq<Bytes>, n: nat) {
    (forall s :: s in segments ==> |s| <= n) && if segments == [] then n == 0 else exists s :: s in segments && |s| == n
  }

  lemma {:induction false} MaxLengthIs(segments: seq<Bytes>)
    ensures Longest(segments, MaxLength(segments))
  {
    if segments != [] {
      var n := |segments| - 1;
      MaxLengthIs(segments[..n]);
      assert segments == segments[..n] + [segments[n]];
      assert segments[n] in segments;
      if n > 0 && |segments[n]| <= MaxLength(segments[..n]) {
        var s :| s in segments[..n] && |s| == MaxLength(segments[..n]);
        assert s in segments;
      }
    }
  }

  /** `07`, the field under 3, the length of the longest segment under 6, their number under 5, the kind
      under 4 - 1 for a stream -, `07` and the segments behind their lengths; there is no end mark. */
  lemma BlobLayout(fieldId: int, stream: bool, segments: seq<Bytes>, longest: nat)
    requires Int32(fieldId) && |segments| < 0x8000_0000 && longest < 0x8000_0000 && Longest(segments, longest)
    ensures BlobRecord(fieldId, stream, segments)
            == [7] + Number(3, fieldId) + Number(6, longest) + Number(5, |segments|) + Number(4, if stream then 1 else 0) + [7] + Framing.Frame(segments)
  {
    hide EncodeItem, EncodeItems, IntItem, Number, MaxLength, Framing.Frame, Longest;
    MaxLengthIs(segments);
    SameLongest(segments, MaxLength(segments), longest);
    var items := BlobItems(fieldId, stream, segments);
    NumberIs(3, fieldId);
    NumberIs(6, longest);
    NumberIs(5, |segments|);
    NumberIs(4, if stream then 1 else 0);
    FourItems(items[0], items[1], items[2], items[3]);
    Opened(7, Number(3, fieldId), Number(6, longest), Number(5, |segments|), Number(4, if stream then 1 else 0), [7] + Framing.Frame(segments));
    BlobParts(fieldId, stream, segments);
    var f := Framing.Frame(segments);
    assert ([7] + f)[1..] == f;
  }

  lemma BlobParts(fieldId: int, stream: bool, segments: seq<Bytes>)
    ensures BlobRecord(fieldId, stream, segments) == [7] + EncodeItems(BlobItems(fieldId, stream, segments)) + ([7] + Framing.Frame(segments))
  {
    hide EncodeItems, BlobItems, Framing.Frame;
  }

  lemma SameLongest(segments: seq<Bytes>, m: nat, n: nat)
    requires Longest(segments, m) && Longest(segments, n)
    ensures m == n
  {
  }

  lemma FourItems(x: Item, y: Item, z: Item, w: Item)
    ensures EncodeItems([x, y, z, w]) == EncodeItem(x) + EncodeItem(y) + EncodeItem(z) + EncodeItem(w)
  {
    hide EncodeItem, EncodeItems;
    ThreeItems(x, y, z);
    OneMore([x, y, z], w, EncodeItem(x) + EncodeItem(y) + EncodeItem(z));
    assert [x, y, z] + [w] == [x, y, z, w];
  }

  lemma Opened(kind: u8, a: Bytes, b: Bytes, c: Bytes, d: Bytes, tail: Bytes)
    ensures [kind] + (a + b + c + d) + tail == [kind] + a + b + c + d + tail
    ensures tail != [] ==> [kind] + a + b + c + d + tail == [kind] + a + b + c + d + [tail[0]] + tail[1..]
  {
    assert tail != [] ==> tail == [tail[0]] + tail[1..];
  }

  /** `17` hexadecimal, the field under 3, the number of dimensions under 14 and their bounds under 15 and
      16, `07` and the raw length in four bytes; then, unless the array is empty, `12` hexadecimal, the
      length of its canonical form in four bytes, and that form. */
  lemma ArrayLayout(fieldId: int, dims: seq<(int, int)>, data: Bytes, xdr: Bytes)
    requires Int32(fieldId) && Bounded(dims) && |dims| < 0x8000_0000 && |data| < 0x8000_0000 && |xdr| < 0x8000_0000
    ensures ArrayRecord(fieldId, dims, data, xdr)
            == [0x17] + Number(3, fieldId) + Number(14, |dims|) + BoundBytes(dims, 15, 16) + [7] + Four(|data|)
               + if data == [] then [] else [0x12] + Four(|xdr|) + xdr
  {
    hide EncodeItem, EncodeItems, IntItem, Number, Bounds, BoundBytes, Four, Le;
    var two := [IntItem(3, fieldId), IntItem(14, |dims|)];
    NumberIs(3, fieldId);
    NumberIs(14, |dims|);
    EncodeConcat(two, Bounds(dims, 15, 16));
    EncodeTwo(two);
    BoundsLayout(dims, 15, 16);
    LengthIs(|data|);
    LengthIs(|xdr|);
    ArrayParts(fieldId, dims, data, xdr);
    Opened(0x17, Number(3, fieldId), Number(14, |dims|), BoundBytes(dims, 15, 16), [], [7] + Four(|data|));
    var front := [0x17 as u8] + Number(3, fieldId) + Number(14, |dims|) + BoundBytes(dims, 15, 16);
    assert front + [] == front;
    assert EncodeItems(two + Bounds(dims, 15, 16)) + [] == EncodeItems(two + Bounds(dims, 15, 16));
    assert front + ([7] + Four(|data|)) == front + [7] + Four(|data|);
  }

  lemma ArrayParts(fieldId: int, dims: seq<(int, int)>, data: Bytes, xdr: Bytes)
    ensures ArrayRecord(fieldId, dims, data, xdr)
            == [0x17] + EncodeItems([IntItem(3, fieldId), IntItem(14, |dims|)] + Bounds(dims, 15, 16)) + ([7] + Le(|data|, 4))
               + if data == [] then [] else [0x12] + Le(|xdr|, 4) + xdr
  {
    hide EncodeItems, IntItem, Bounds, Le;
    var items := EncodeItems(ArrayItems(fieldId, dims));
    assert [0x17] + items + [7] + Le(|data|, 4) == [0x17] + items + ([7] + Le(|data|, 4));
  }

  lemma LengthIs(n: nat)
    requires n < 0x8000_0000
    ensures Le(n, 4) == Four(n)
  {
    hide Le, Pow;
    FourIs(n);
    Widths();
    DivModUnique(n, Pow(256, 4), 0, n);
  }

  // ------------------------------------------------------------------ what a reader of attributes finds

  /** In the relation record, whatever follows it: the class, the owner, the schema, the flags, the kind
      and the description, each under its number and only if the table has it. */
  lemma RelationAttributes(t: Table, rest: Bytes)
    requires CarriableTable(t)
    ensures var r := ReadAtts(MetaOf(t)[1..] + rest, RELATION_BLOBS);
            && r.Parsed? && r.rest == FieldRecords(t.cols) + [9] + rest
            && FindLast(r.atts, 21) == Some([80, 85, 66, 76, 73, 67]) && FindLast(r.atts, 1) == Some(t.name)
            && FindLast(r.atts, 8) == t.securityClass && FindLast(r.atts, 12) == t.owner && FindLast(r.atts, 17) == t.extFile
            && IntLastOr(r.atts, 16, 0) == 1 && IntLastOr(r.atts, 18, -1) == t.kind
            && Find(r.blobs, 13) == t.description
  {
    hide ReadAtts, EncodeItems, RelationItems, FindLast, Find, FieldRecords, Carriable, PlainOf, BlobsOf, IntItem;
    var items := RelationItems(t);
    assert MetaOf(t)[1..] + rest == EncodeItems(items) + [0] + (FieldRecords(t.cols) + [9] + rest);
    RelationFramed(t);
    ItemsRoundTrip(items, FieldRecords(t.cols) + [9] + rest, RELATION_BLOBS);
    forall tag: u8 | tag in {1, 8, 12, 16, 17, 18, 21} ensures FindLast(PlainOf(items), tag) == RelationValue(t, tag) {
      RelationFinds(t, tag);
    }
    IntRoundTrip(1);
    KindFits(t.kind);
    IntRoundTrip(t.kind);
    RelationBlobFound(t);
  }

  function RelationValue(t: Table, tag: u8): Option<Bytes> {
    if tag == 1 then Some(t.name)
    else if tag == 8 then t.securityClass
    else if tag == 12 then t.owner
    else if tag == 16 then Some(Le(Residue(1, 4), 4))
    else if tag == 17 then t.extFile
    else if tag == 18 then Some(Le(Residue(t.kind, 4), 4))
    else if tag == 21 then Some(PUBLIC)
    else None
  }

  lemma KindFits(v: nat)
    requires v < 0x8000_0000
    ensures Fits(v, 4) && Fits(1, 4)
  {
    Widths();
  }

  lemma RelationFinds(t: Table, tag: u8)
    requires CarriableTable(t) && tag in {1, 8, 12, 16, 17, 18, 21}
    ensures FindLast(PlainOf(RelationItems(t)), tag) == RelationValue(t, tag)
  {
    hide FindLast, Carriable, PlainOf, OptionalText, IntItem, Cut;
    var h0, h1, h2 := [TextItem(21, PUBLIC)], [TextItem(1, t.name)], [IntItem(16, 1)];
    var a, b, c := OptionalText(8, t.securityClass), OptionalText(12, t.owner), OptionalText(17, t.extFile);
    var k, d := [IntItem(18, t.kind)], BackupStream.DescriptionItem(t);
    assert RelationItems(t) == h0 + h1 + h2 + a + b + c + k + d;
    RelationLast(h0, h1, h2, a, b, c, k, d, tag);
    CutWhole(t.name);
    CutWhole(PUBLIC);
    OneLast(TextItem(21, PUBLIC), tag);
    OneLast(TextItem(1, t.name), tag);
    IntLast(16, 1, tag);
    IntLast(18, t.kind, tag);
    OptionalTextRead(8, t.securityClass, tag);
    OptionalTextRead(12, t.owner, tag);
    OptionalTextRead(17, t.extFile, tag);
    DescriptionPart(t, tag);
  }

  lemma RelationBlobFound(t: Table)
    ensures Find(BlobsOf(RelationItems(t)), 13) == t.description
  {
    hide Find, BlobsOf, PlainOf;
    var items := RelationItems(t);
    if t.description == None {
      assert forall item :: item in items ==> item.tag != 13;
      NotFound(items, 13);
    } else {
      var n := |items| - 1;
      assert items[n] == BlobItem(13, t.description.value);
      FoundAt(items, 13, n);
    }
  }

  /** In a field record, whatever follows it: what the reader of tables passes over. */
  lemma FieldAttributes(c: Column, rest: Bytes)
    requires Carriable(c)
    ensures var r := ReadAtts(Record(FIELD, FieldItems(c))[1..] + rest, FIELD_BLOBS);
            && r.Parsed? && r.rest == rest
            && Find(r.atts, 48) == Some([80, 85, 66, 76, 73, 67])
            && IntOr(r.atts, 24, 1) == 0 && IntOr(r.atts, 34, 0) == c.updateFlag
            && Find(r.atts, 42) == (if c.charset then Some(Le(0, 4)) else None) && Find(r.atts, 43) == Some(Le(0, 4))
            && Find(r.blobs, 35) == c.description
  {
    hide ReadAtts, EncodeItems, FieldItems, Find, IntOr, Le, Fits;
    var items := FieldItems(c);
    assert Record(FIELD, items)[1..] + rest == EncodeItems(items) + [0] + rest;
    AllItemsFramed(c);
    ItemsRoundTrip(items, rest, FIELD_BLOBS);
    KindFits(0);
    SchemaFound(c);
    HeadIntFound(c, 9, 24, 0);
    HeadIntFound(c, 10, 34, c.updateFlag);
    TextOptionsFound(c);
  }

  lemma SchemaFound(c: Column)
    ensures FindItem(FieldItems(c), 48) == Some(PUBLIC)
  {
    hide FindItem, FieldOptions, FieldDims;
    var items := FieldItems(c);
    assert items[0] == FieldHead(c)[0] && items[1] == FieldHead(c)[1];
    FoundAt(items, 48, 1);
    CutWhole(PUBLIC);
  }

  lemma TextOptionsFound(c: Column)
    ensures FindItem(FieldItems(c), 42) == (if c.charset then Some(Le(0, 4)) else None)
    ensures FindItem(FieldItems(c), 43) == Some(Le(0, 4)) && FindBlob(FieldItems(c), 35) == c.description
  {
    TextOptionFound(c, 42);
    TextOptionFound(c, 43);
    TextOptionFound(c, 35);
  }

  lemma TextOptionFound(c: Column, tag: u8)
    requires tag == 42 || tag == 43 || tag == 35
    ensures tag == 42 ==> FindItem(FieldItems(c), tag) == if c.charset then Some(Le(0, 4)) else None
    ensures tag == 43 ==> FindItem(FieldItems(c), tag) == Some(Le(0, 4))
    ensures tag == 35 ==> FindBlob(FieldItems(c), tag) == c.description
  {
    hide FindItem, FindBlob, IntItem, FieldHead, FieldOptions, FieldDims;
    FindItemConcat(FieldHead(c) + FieldOptions(c), FieldDims(c), tag);
    FindItemConcat(FieldHead(c), FieldOptions(c), tag);
    NotInHead(c, tag);
    TextOptionsFind(c, tag);
    DimsFind(c, tag);
  }

  lemma NotInHead(c: Column, tag: u8)
    requires tag == 42 || tag == 43 || tag == 35
    ensures FindItem(FieldHead(c), tag) == None && FindBlob(FieldHead(c), tag) == None
  {
    hide FindItem, FindBlob;
    NotFound(FieldHead(c), tag);
  }

  lemma TextOptionsFind(c: Column, tag: u8)
    requires tag == 42 || tag == 43 || tag == 35
    ensures tag == 42 ==> FindItem(FieldOptions(c), tag) == if c.charset then Some(Le(0, 4)) else None
    ensures tag == 43 ==> FindItem(FieldOptions(c), tag) == Some(Le(0, 4))
    ensures tag == 35 ==> FindBlob(FieldOptions(c), tag) == c.description
  {
    hide FindItem, FindBlob, IntItem, Optional;
    OptionsFind(c, tag);
    var a, b, d, e := Optional(c.notNull, IntItem(38, 1)), BackupTables.DescriptionItem(c), Optional(c.charset, IntItem(42, 0)), [IntItem(43, 0)];
    var g, h := DefaultItems(c), Optional(c.stored.computed, IntItem(23, 1));
    assert FieldOptions(c) == a + b + d + e + g + h;
    FindItemConcat(a + b + d + e + g, h, tag);
    FindItemConcat(a + b + d + e, g, tag);
    FindItemConcat(a + b + d, e, tag);
    FindItemConcat(a + b, d, tag);
    FindItemConcat(a, b, tag);
    IntTags();
    ZeroBytesOf();
    FindOptional(c.notNull, IntItem(38, 1), tag);
    FindOptional(c.charset, IntItem(42, 0), tag);
    FindOptional(c.stored.computed, IntItem(23, 1), tag);
    FindItemFirst(e, tag);
    assert e[1..] == [];
    FindNothing(tag);
    DescriptionFind(c, tag);
    DefaultFind(c, tag);
  }

  lemma ZeroBytesOf()
    ensures IntItem(42, 0).data == Le(0, 4) && IntItem(43, 0).data == Le(0, 4)
  {
    hide Pow;
    PowPositive(256, 4);
    DivModUnique(0, Pow(256, 4), 0, 0);
  }

  /** In a blob record, the longest segment under 6. */
  lemma LongestFound(fieldId: int, stream: bool, segments: seq<Bytes>, longest: nat, rest: Bytes)
    requires Fits(fieldId, 4) && |segments| < 0x8000_0000 && longest < 0x8000_0000 && Longest(segments, longest)
    ensures var r := ReadBare(BlobRecord(fieldId, stream, segments)[1..] + rest, 7);
            && r.Parsed? && r.rest == Framing.Frame(segments) + rest && IntLastOr(r.atts, 6, -1) == longest
  {
    hide Residue, Le, LeVal, Pow, MaxLength, EncodeItems, Fits, FindLast, Framing.Frame, Longest, ReadBare;
    var items, frames := BlobItems(fieldId, stream, segments), Framing.Frame(segments);
    assert BlobRecord(fieldId, stream, segments)[1..] + rest == EncodeItems(items) + [7] + (frames + rest);
    BareRoundTrip(items, 7, frames + rest);
    MaxLengthIs(segments);
    SameLongest(segments, MaxLength(segments), longest);
    var a, b, c, d := [IntItem(3, fieldId)], [IntItem(6, longest)], [IntItem(5, |segments|)], [IntItem(4, if stream then 1 else 0)];
    assert items == a + b + c + d;
    LastOfItems(a + b + c, d, 6);
    LastOfItems(a + b, c, 6);
    LastOfItems(a, b, 6);
    OneLast(b[0], 6);
    OneLast(c[0], 6);
    OneLast(d[0], 6);
    KindFits(longest);
    IntRoundTrip(longest);
  }

  // ------------------------------------------------------------------ the order of a row's records

  /** The blobs of a row stand in column order, whatever the columns; so do its arrays. */
  lemma {:induction false} BlobsInOrder(image: Bytes, a: seq<Column>, b: seq<Column>, store: Bytes -> Content)
    ensures RowBlobs(image, a + b, store) == RowBlobs(image, a, store) + RowBlobs(image, b, store)
  {
    hide WritesBlob, BlobOf;
    if b == [] {
      assert a + b == a && RowBlobs(image, a, store) + [] == RowBlobs(image, a, store);
    } else {
      var n := |b| - 1;
      BlobsInOrder(image, a, b[..n], store);
      assert (a + b)[..|a + b| - 1] == a + b[..n] && (a + b)[|a + b| - 1] == b[n];
    }
  }

  lemma {:induction false} ArraysInOrder(image: Bytes, a: seq<Column>, b: seq<Column>, store: Bytes -> Content)
    requires SoundShapes(a) && SoundShapes(b)
    ensures SoundShapes(a + b) && RowArrays(image, a + b, store) == RowArrays(image, a, store) + RowArrays(image, b, store)
  {
    hide WritesArray, ArrayOf, XdrSlice.Sound;
    if b == [] {
      assert a + b == a && RowArrays(image, a, store) + [] == RowArrays(image, a, store);
    } else {
      var n := |b| - 1;
      ArraysInOrder(image, a, b[..n], store);
      assert (a + b)[..|a + b| - 1] == a + b[..n] && (a + b)[|a + b| - 1] == b[n];
      assert b[n] in b;
    }
  }

  /** Of a column, a blob record stands behind the row exactly when it is a blob column, not null, and the
      image holds its id; it is the record of what that id names. */
  lemma OneBlob(image: Bytes, c: Column, store: Bytes -> Content)
    ensures RowBlobs(image, [c], store)
            == if c.stored.dtype == BLOB && Live(image, c.stored, 8)
                  && store(image[c.stored.offset..c.stored.offset + 8]).Segments? then
                 var blob := store(image[c.stored.offset..c.stored.offset + 8]);
                 BlobRecord(c.fieldId, blob.stream, blob.segments)
               else []
  {
    hide BlobRecord, IsNull;
    assert [c][..0] == [];
    if WritesBlob(image, c) {
      assert [] + BlobOf(image, c, store) == BlobOf(image, c, store);
    }
  }

  /** An array's record stands there exactly when the column has dimensions, is not null, and its id is not
      all zero - of the relation word and the record number; the third byte is neither. */
  lemma OneArray(image: Bytes, c: Column, store: Bytes -> Content)
    requires XdrSlice.Sound(c.shape)
    ensures SoundShapes([c])
    ensures var off := c.stored.offset;
            RowArrays(image, [c], store)
            == if c.dims.Some? && Live(image, c.stored, 8)
                  && (image[off] != 0 || image[off + 1] != 0 || image[off + 3] != 0 || image[off + 4] != 0 || image[off + 5] != 0
                      || image[off + 6] != 0 || image[off + 7] != 0)
                  && store(image[off..off + 8]).Elements? then
                 var a := store(image[off..off + 8]);
                 ArrayRecord(c.fieldId, a.dims, a.data, if XdrSlice.Slice(c.shape, a.data).Some? then XdrSlice.Slice(c.shape, a.data).value else [])
               else []
  {
    hide ArrayRecord, IsNull, XdrSlice.Slice, XdrSlice.Sound;
    assert [c][..0] == [];
    if HasId(image, c.stored) {
      var id := Id(image, c.stored);
      assert id[4..] == [id[4], id[5], id[6], id[7]];
      if WritesArray(image, c) {
        assert [] + ArrayOf(image, c, store) == ArrayOf(image, c, store);
      }
    }
  }

  /** And that is what the restored row holds in its place. */
  lemma ContentComesBack(image: Bytes, c: Column, store: Bytes -> Content)
    requires !c.stored.computed && Holds(image, c.stored) && XdrSlice.Sound(c.shape) && Live(image, c.stored, 8)
    ensures var content := store(image[c.stored.offset..c.stored.offset + 8]);
            && (c.stored.dtype == BLOB && content.Segments? ==> FinalValue(image, c, store) == RVal.Blob(content.stream, content.segments))
            && (c.dims.Some? && c.stored.dtype != BLOB && image[c.stored.offset] != 0 && content.Elements? ==>
                  FinalValue(image, c, store).Array? && FinalValue(image, c, store).bounds == content.dims)
  {
    hide IsNull, XdrSlice.Sound, NativeOf;
  }

  /** A field record with a name and a type alone: what the reader makes of everything that is missing. */
  lemma FieldDefaults(atts: seq<Att>, blobs: seq<Att>, n: nat, name: Bytes)
    requires Find(atts, 1) == Some(name) && Find(atts, 8).Some? && KnownFieldType(Narrow(AttInt(Find(atts, 8).value), 4))
    requires forall tag: u8 :: tag != 1 && tag != 8 ==> Find(atts, tag) == None
    requires n < 0x7fff_fffe && Find(blobs, 15) == None
    ensures FieldOf(atts, blobs, n)
            == Some(ReadCol(name, Narrow(AttInt(Find(atts, 8).value), 4), 0, 0, 0, n, n + 1, false, [], 0, false, None))
  {
    hide Find, AttInt, KnownFieldType, Narrow;
    Widths();
    assert Fits(n, 4) && Fits(n + 1, 4) && Fits(0, 4) && Fits(0, 2) && Fits(0, 1);
    NarrowFits(n, 4);
    NarrowFits(n + 1, 4);
    NarrowFits(0, 4);
    NarrowFits(0, 2);
    NarrowFits(0, 1);
  }

  // ------------------------------------------------------------------ what a reader accepts

  /** The last plain item with a tag. */
  predicate IsLast(items: seq<Item>, tag: u8, k: nat) {
    k < |items| && items[k].PlainItem? && items[k].tag == tag && forall j :: k < j < |items| && items[j].PlainItem? ==> items[j].tag != tag
  }

  lemma {:induction false} LastFound(items: seq<Item>, tag: u8)
    ensures FindLast(PlainOf(items), tag) == None ==> forall k: nat :: !IsLast(items, tag, k)
    ensures FindLast(PlainOf(items), tag).Some? ==>
              exists k: nat :: IsLast(items, tag, k) && items[k].data == FindLast(PlainOf(items), tag).value
  {
    hide FindLast, PlainOf;
    if items == [] {
      FindLastOne(Att(0, []), tag);
      assert PlainOf(items) == [] by { NothingPlain(); }
    } else {
      var n := |items| - 1;
      var front, last := items[..n], [items[n]];
      assert items == front + last;
      LastFound(front, tag);
      LastOfItems(front, last, tag);
      PlainOne(items[n]);
      if items[n].PlainItem? {
        OneLast(items[n], tag);
      } else {
        FindLastOne(Att(0, []), tag);
      }
      if items[n].PlainItem? && items[n].tag == tag {
        assert IsLast(items, tag, n);
      } else {
        forall k: nat ensures IsLast(items, tag, k) <==> IsLast(front, tag, k) {
        }
      }
    }
  }

  lemma NothingPlain()
    ensures PlainOf([]) == []
  {
  }

  lemma {:induction false} NoBlobExactly(items: seq<Item>, tag: u8)
    ensures Find(BlobsOf(items), tag) == None <==> forall item :: item in items && item.BlobItem? ==> item.tag != tag
  {
    hide Find, BlobsOf, PlainOf;
    if items == [] {
      FindNothing(tag);
    } else {
      var first, rest := items[0], items[1..];
      NoBlobExactly(rest, tag);
      FindItemFirst(items, tag);
      assert forall item :: item in items <==> item == first || item in rest by {
        assert items == [first] + rest;
      }
    }
  }

  /** A relation record is taken exactly when it holds no plain attribute but the seven known ones, no
      view, nowhere the kind 3, and as the last of its names one that is not empty; the table then has
      that name. Whatever follows is left. */
  lemma RelationAccepted(s: Reader.State, items: seq<Item>, rest: Bytes)
    requires AllFramed(items, RELATION_BLOBS)
    ensures var r := Reader.ReadRelation(s, EncodeItems(items) + [0] + rest);
            && (r.Next? <==>
                  && (forall item :: item in items && item.PlainItem? ==> item.tag in {1, 8, 12, 16, 17, 18, 21})
                  && (forall item :: item in items && item.BlobItem? ==> item.tag != 2)
                  && (forall item :: item in items && item.PlainItem? && item.tag == 18 ==> KindOf(item.data) != 3)
                  && exists k: nat :: IsLast(items, 1, k) && items[k].data != [])
            && (r.Next? ==> r.rest == rest && |r.state.tables| == |s.tables| + 1 && r.state.current == Some(|s.tables|)
                            && exists k: nat :: IsLast(items, 1, k) && items[k].data == r.state.tables[|s.tables|].name)
  {
    hide ReadAtts, EncodeItems, FindLast, Find, PlainOf, BlobsOf, KindOf, Framed;
    ItemsRoundTrip(items, rest, RELATION_BLOBS);
    PlainIn(items);
    NoBlobExactly(items, 2);
    LastFound(items, 1);
    forall item | item in items && item.PlainItem? ensures Att(item.tag, item.data) in PlainOf(items) {
      assert PlainItem(item.tag, item.data) == item;
    }
    OneName(items, 1);
  }

  lemma OneName(items: seq<Item>, tag: u8)
    ensures forall k: nat, l: nat :: IsLast(items, tag, k) && IsLast(items, tag, l) ==> k == l
  {
    forall k: nat, l: nat | IsLast(items, tag, k) && IsLast(items, tag, l) ensures k == l {
      assert k < |items| && l < |items|;
    }
  }

  /** A data record opens with two attributes of any number; the row's length is the second's, and a third
      byte 2 without a length must follow. */
  lemma HeadTakesSecond(first: Bytes, second: int, a: u8, b: u8, mark: u8, rest: Bytes)
    requires |first| <= 255 && Int32(second)
    ensures Reader.ReadHead([a, |first| as u8] + first + Number(b, second) + [mark] + rest)
            == if mark == 2 && second >= 0 then Reader.Head(second, rest) else Reader.NoHead
  {
    hide Four, AttInt;
    var f := [a, |first| as u8] + first + Number(b, second) + [mark] + rest;
    var g := Number(b, second) + [mark] + rest;
    assert f[2 + |first|..] == g;
    assert g[2..6] == Four(second) && g[6..] == [mark] + rest;
    assert ([mark] + rest)[1..] == rest;
    FourIs(second);
    Widths();
    IntRoundTrip(second);
  }
}
