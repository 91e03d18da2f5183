/** Attribute records of a backup file: plain attributes behind a one-byte length, and blob attributes
    whose four-byte length is itself the attribute's data, with the raw bytes behind it. */
module BackupRecords {
  import opened Words
  import opened Power
  import opened ByteStrings
  import opened LittleEndian
  import opened XdrRow

  /** What a writer puts into a record. */
  datatype Item = PlainItem(tag: u8, data: Bytes) | BlobItem(tag: u8, raw: Bytes)

  /** What a reader finds in one. */
  datatype Att = Att(tag: u8, data: Bytes)

  datatype Parsed = Parsed(atts: seq<Att>, blobs: seq<Att>, rest: Bytes) | Refused

  // ------------------------------------------------------------------ writing

  function IntItem(tag: u8, v: int): Item {
    PlainItem(tag, Le(Residue(v, 4), 4))
  }

  function Cut(b: Bytes): (r: Bytes)
    ensures |r| <= 255
  {
    if |b| < 255 then b else b[..255]
  }

  function TextItem(tag: u8, text: Bytes): Item {
    PlainItem(tag, Cut(text))
  }

  function EncodeItem(item: Item): Bytes {
    match item
    case PlainItem(tag, data) => [tag, (|data| % 256) as u8] + data
    case BlobItem(tag, raw) => [tag, 4] + Le(|raw|, 4) + raw
  }

  function EncodeItems(items: seq<Item>): Bytes {
    if items == [] then [] else EncodeItem(items[0]) + EncodeItems(items[1..])
  }

  /** A record: its type, its attributes, and the end mark. */
  function Record(kind: u8, items: seq<Item>): Bytes {
    [kind] + EncodeItems(items) + [0]
  }

  lemma {:induction false} EncodeConcat(a: seq<Item>, b: seq<Item>)
    ensures EncodeItems(a + b) == EncodeItems(a) + EncodeItems(b)
  {
    hide EncodeItem;
    if a == [] {
      assert a + b == b;
    } else {
      EncodeConcat(a[1..], b);
      assert (a + b)[0] == a[0] && (a + b)[1..] == a[1..] + b;
      Associative(EncodeItem(a[0]), EncodeItems(a[1..]), EncodeItems(b));
    }
  }

  lemma Associative<T>(a: seq<T>, b: seq<T>, c: seq<T>)
    ensures a + b + c == a + (b + c)
  {
  }

  lemma EncodeOne(item: Item)
    ensures EncodeItems([item]) == EncodeItem(item)
  {
    assert EncodeItems([item]) == EncodeItem(item) + EncodeItems([item][1..]);
  }

  /** One record under construction, appended to a growing file. */
  class Rec {
    var out: Bytes
    ghost var before: Bytes
    ghost var items: seq<Item>
    const kind: u8

    ghost predicate Valid()
      reads this
    {
      out == before + [kind] + EncodeItems(items)
    }

    constructor (out: Bytes, kind: u8)
      ensures Valid() && before == out && items == [] && this.kind == kind
    {
      this.out, this.kind := out + [kind], kind;
      before, items := out, [];
    }

    lemma Longer(item: Item)
      requires Valid()
      ensures out + EncodeItem(item) == before + [kind] + EncodeItems(items + [item])
    {
      EncodeConcat(items, [item]);
      EncodeOne(item);
    }

    method Int(att: u8, v: int)
      requires Valid()
      modifies this
      ensures Valid() && before == old(before) && items == old(items) + [IntItem(att, v)]
    {
      Longer(IntItem(att, v));
      out := out + [att, 4] + Le(Residue(v, 4), 4);
      items := items + [IntItem(att, v)];
    }

    method Text(att: u8, text: Bytes)
      requires Valid()
      modifies this
      ensures Valid() && before == old(before) && items == old(items) + [TextItem(att, text)]
    {
      hide EncodeItems;
      Longer(TextItem(att, text));
      var n := if |text| < 255 then |text| else 255;
      out := out + [att, n as u8] + text[..n];
      assert text[..n] == Cut(text);
      items := items + [TextItem(att, text)];
    }

    method Raw(att: u8, raw: Bytes)
      requires Valid()
      modifies this
      ensures Valid() && before == old(before) && items == old(items) + [BlobItem(att, raw)]
    {
      Longer(BlobItem(att, raw));
      out := out + [att, 4] + Le(|raw|, 4) + raw;
      items := items + [BlobItem(att, raw)];
    }

    /** Closes the record: the file has grown by exactly it. */
    method End() returns (r: Bytes)
      requires Valid()
      ensures r == before + Record(kind, items)
    {
      r := out + [0];
      assert before + [kind] + EncodeItems(items) + [0] == before + Record(kind, items);
    }
  }

  // ------------------------------------------------------------------ reading

  /** An attribute's integer, sign-extended by its width. */
  function AttInt(data: Bytes): int {
    var n := if |data| < 8 then |data| else 8;
    var x := LeVal(data[..n]);
    if n == 1 || n == 2 || n == 4 || n == 8 then Signed(x, n) else x
  }

  function First(data: Bytes, n: nat): Bytes {
    data[..if |data| < n then |data| else n]
  }

  function More(r: Parsed, att: Att, blob: bool): Parsed {
    match r
    case Refused => Refused
    case Parsed(atts, blobs, rest) =>
      if blob then Parsed(atts, [att] + blobs, rest) else Parsed([att] + atts, blobs, rest)
  }

  /** An attribute list up to its end mark; the listed tags carry blobs. */
  function ReadAtts(f: Bytes, blobTags: set<u8>): Parsed
    decreases |f|
  {
    if f == [] then Refused
    else if f[0] == 0 then Parsed([], [], f[1..])
    else if |f| < 2 || 2 + f[1] as nat > |f| then Refused
    else
      var n := f[1] as nat;
      var data := f[2..2 + n];
      if f[0] !in blobTags then More(ReadAtts(f[2 + n..], blobTags), Att(f[0], data), false)
      else
        var len := LeVal(First(data, 8));
        if 2 + n + len > |f| then Refused
        else More(ReadAtts(f[2 + n + len..], blobTags), Att(f[0], f[2 + n..2 + n + len]), true)
  }

  function Before(atts: seq<Att>, blobs: seq<Att>, r: Parsed): Parsed {
    match r
    case Refused => Refused
    case Parsed(a, b, rest) => Parsed(atts + a, blobs + b, rest)
  }

  lemma BeforeMore(atts: seq<Att>, blobs: seq<Att>, r: Parsed, att: Att, blob: bool)
    ensures Before(atts, blobs, More(r, att, blob))
            == if blob then Before(atts, blobs + [att], r) else Before(atts + [att], blobs, r)
  {
    if r.Parsed? {
      assert blobs + ([att] + r.blobs) == blobs + [att] + r.blobs;
      assert atts + ([att] + r.atts) == atts + [att] + r.atts;
    }
  }

  lemma NothingBefore(r: Parsed)
    ensures Before([], [], r) == r
  {
    if r.Parsed? {
      assert [] + r.atts == r.atts && [] + r.blobs == r.blobs;
    }
  }

  lemma RestBefore(atts: seq<Att>, blobs: seq<Att>, rest: Bytes)
    ensures Before(atts, blobs, Parsed([], [], rest)) == Parsed(atts, blobs, rest)
  {
    assert atts + [] == atts && blobs + [] == blobs;
  }

  /** One attribute of the list, seen from the middle of the file. */
  lemma ReadAttsAt(f: Bytes, at: nat, blobTags: set<u8>, atts: seq<Att>, blobs: seq<Att>)
    requires at < |f| && f[at] != 0
    ensures var r := Before(atts, blobs, ReadAtts(f[at..], blobTags));
            if at + 2 > |f| || at + 2 + f[at + 1] as nat > |f| then r == Refused
            else
              var n := f[at + 1] as nat; var data := f[at + 2..at + 2 + n]; var next := at + 2 + n;
              if f[at] !in blobTags then r == Before(atts + [Att(f[at], data)], blobs, ReadAtts(f[next..], blobTags))
              else
                var len := LeVal(First(data, 8));
                if next + len > |f| then r == Refused
                else r == Before(atts, blobs + [Att(f[at], f[next..next + len])], ReadAtts(f[next + len..], blobTags))
  {
    hide LeVal, Before, More;
    var g := f[at..];
    assert g[0] == f[at];
    RefusedBefore(atts, blobs);
    if at + 2 <= |f| && at + 2 + f[at + 1] as nat <= |f| {
      var n := f[at + 1] as nat;
      var next := at + 2 + n;
      var data := f[at + 2..next];
      assert g[1] == f[at + 1] && g[2..2 + n] == data && g[2 + n..] == f[next..];
      if f[at] !in blobTags {
        BeforeMore(atts, blobs, ReadAtts(f[next..], blobTags), Att(f[at], data), false);
      } else {
        var len := LeVal(First(data, 8));
        if next + len <= |f| {
          assert g[2 + n..2 + n + len] == f[next..next + len] && g[2 + n + len..] == f[next + len..];
          BeforeMore(atts, blobs, ReadAtts(f[next + len..], blobTags), Att(f[at], f[next..next + len]), true);
        }
      }
    }
  }

  lemma RefusedBefore(atts: seq<Att>, blobs: seq<Att>)
    ensures Before(atts, blobs, Refused) == Refused
  {
  }

  /** `read_atts`, and `read_atts_blob` when some tags carry blobs. */
  method ReadAttributes(f: Bytes, start: nat, blobTags: set<u8>) returns (r: Parsed)
    requires start <= |f|
    ensures r == ReadAtts(f[start..], blobTags)
  {
    hide LeVal, Before, ReadAtts;
    var at := start;
    var atts: seq<Att> := [];
    var blobs: seq<Att> := [];
    NothingBefore(ReadAtts(f[start..], blobTags));
    while at < |f|
      invariant start <= at <= |f|
      invariant ReadAtts(f[start..], blobTags) == Before(atts, blobs, ReadAtts(f[at..], blobTags))
      decreases |f| - at
    {
      var tag := f[at];
      if tag == 0 {
        EndMark(f[at..], blobTags);
        assert f[at..][1..] == f[at + 1..];
        RestBefore(atts, blobs, f[at + 1..]);
        return Parsed(atts, blobs, f[at + 1..]);
      }
      ReadAttsAt(f, at, blobTags, atts, blobs);
      if at + 2 > |f| {
        return Refused;
      }
      var n := f[at + 1] as nat;
      at := at + 2;
      if at + n > |f| {
        return Refused;
      }
      var data := f[at..at + n];
      at := at + n;
      if tag in blobTags {
        var len := LeVal(First(data, 8));
        if at + len > |f| {
          return Refused;
        }
        blobs := blobs + [Att(tag, f[at..at + len])];
        at := at + len;
      } else {
        atts := atts + [Att(tag, data)];
      }
    }
    EndMark([], blobTags);
    RefusedBefore(atts, blobs);
    assert f[at..] == [];
    r := Refused;
  }

  lemma EndMark(f: Bytes, blobTags: set<u8>)
    ensures f == [] ==> ReadAtts(f, blobTags) == Refused
    ensures f != [] && f[0] == 0 ==> ReadAtts(f, blobTags) == Parsed([], [], f[1..])
  {
  }

  // ------------------------------------------------------------------ the round trip

  /** An item the reader will frame the way the writer did. */
  predicate Framed(item: Item, blobTags: set<u8>) {
    match item
    case PlainItem(tag, data) => tag != 0 && tag !in blobTags && |data| <= 255
    case BlobItem(tag, raw) => tag != 0 && tag in blobTags && |raw| < 0x1_0000_0000
  }

  predicate AllFramed(items: seq<Item>, blobTags: set<u8>) {
    forall item :: item in items ==> Framed(item, blobTags)
  }

  function PlainPart(item: Item): seq<Att> {
    if item.PlainItem? then [Att(item.tag, item.data)] else []
  }

  function BlobPart(item: Item): seq<Att> {
    if item.BlobItem? then [Att(item.tag, item.raw)] else []
  }

  function PlainOf(items: seq<Item>): seq<Att> {
    if items == [] then [] else PlainPart(items[0]) + PlainOf(items[1..])
  }

  function BlobsOf(items: seq<Item>): seq<Att> {
    if items == [] then [] else BlobPart(items[0]) + BlobsOf(items[1..])
  }

  lemma ItemRoundTrip(item: Item, rest: Bytes, blobTags: set<u8>)
    requires Framed(item, blobTags)
    ensures ReadAtts(EncodeItem(item) + rest, blobTags)
            == if item.PlainItem? then More(ReadAtts(rest, blobTags), Att(item.tag, item.data), false)
               else More(ReadAtts(rest, blobTags), Att(item.tag, item.raw), true)
  {
    hide LeVal, Le, More;
    var f := EncodeItem(item) + rest;
    match item
    case PlainItem(tag, data) =>
      assert f[0] == tag && f[1] as nat == |data| && f[2..2 + |data|] == data && f[2 + |data|..] == rest;
    case BlobItem(tag, raw) =>
      Widths();
      LeRoundTrip(|raw|, 4);
      var count := Le(|raw|, 4);
      assert f[0] == tag && f[1] == 4 && f[2..6] == count && First(count, 8) == count;
      assert f[6..6 + |raw|] == raw && f[6 + |raw|..] == rest;
  }

  /** Reading a record's attributes gives exactly what was put into it, blobs apart, and stops at the
      byte after the record. */
  lemma {:induction false} ItemsRoundTrip(items: seq<Item>, rest: Bytes, blobTags: set<u8>)
    requires AllFramed(items, blobTags)
    ensures ReadAtts(EncodeItems(items) + [0] + rest, blobTags) == Parsed(PlainOf(items), BlobsOf(items), rest)
  {
    hide EncodeItem, Framed;
    if items == [] {
      assert EncodeItems(items) + [0] + rest == [0] + rest;
      EndMark([0] + rest, blobTags);
      assert ([0] + rest)[1..] == rest;
    } else {
      var tail := EncodeItems(items[1..]) + [0] + rest;
      assert items[0] in items;
      assert forall item :: item in items[1..] ==> item in items;
      ItemsRoundTrip(items[1..], rest, blobTags);
      assert EncodeItems(items) + [0] + rest == EncodeItem(items[0]) + tail;
      ItemRoundTrip(items[0], tail, blobTags);
    }
  }

  lemma {:induction false} PlainConcat(a: seq<Item>, b: seq<Item>)
    ensures PlainOf(a + b) == PlainOf(a) + PlainOf(b) && BlobsOf(a + b) == BlobsOf(a) + BlobsOf(b)
  {
    hide PlainPart, BlobPart;
    if a == [] {
      assert a + b == b;
      assert [] + PlainOf(b) == PlainOf(b) && [] + BlobsOf(b) == BlobsOf(b);
    } else {
      PlainConcat(a[1..], b);
      assert (a + b)[0] == a[0] && (a + b)[1..] == a[1..] + b;
      Associative(PlainPart(a[0]), PlainOf(a[1..]), PlainOf(b));
      Associative(BlobPart(a[0]), BlobsOf(a[1..]), BlobsOf(b));
    }
  }

  // ------------------------------------------------------------------ picking attributes

  /** The first attribute with a tag. */
  function Find(atts: seq<Att>, tag: u8): Option<Bytes> {
    if atts == [] then None
    else if atts[0].tag == tag then Some(atts[0].data)
    else Find(atts[1..], tag)
  }

  lemma {:induction false} FindConcat(a: seq<Att>, b: seq<Att>, tag: u8)
    ensures Find(a + b, tag) == if Find(a, tag) == None then Find(b, tag) else Find(a, tag)
  {
    if a == [] {
      assert a + b == b;
    } else {
      FindConcat(a[1..], b, tag);
      assert (a + b)[1..] == a[1..] + b;
    }
  }

  lemma IntRoundTrip(v: int)
    requires Fits(v, 4)
    ensures AttInt(Le(Residue(v, 4), 4)) == v
  {
    hide Le, LeVal, Pow;
    var x, m := Residue(v, 4), Pow(256, 4);
    LeRoundTrip(x, 4);
    assert Le(x, 4)[..4] == Le(x, 4);
    if v >= 0 {
      DivModUnique(v, m, 0, v);
    } else {
      DivModUnique(v, m, -1, v + m);
    }
  }
}
