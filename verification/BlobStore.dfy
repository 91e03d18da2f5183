/** Blobs at three address levels: inline in the slot, behind a vector of data pages, or behind a
    vector of pages of such vectors. Pages come from an allocator that hands out fresh nonzero
    numbers, slots hold exactly the bytes they are given. */
module BlobStore {
  import opened Words
  import opened Power
  import opened ByteStrings
  import opened LittleEndian
  import opened Layout
  import opened BlobFraming

  datatype Result<T> = Ok(value: T) | Err(reason: string)

  datatype Blob = Blob(header: BlobHeader, raw: Bytes)

  type Pages = map<nat, Bytes>

  const BLOB_PAGE: u8 := 8
  const POINTERS: u8 := 1
  const DATA_OFFSET: nat := 28
  const MAX_PAGES: nat := 0x1_0000_0000

  /** Page sizes whose slots hold a bare blob header and whose data length fits its 16-bit field. */
  predicate PageSizeOk(ps: nat) {
    HEADER_SIZE + 24 + 4 <= ps < DATA_OFFSET + 0x1_0000
  }

  function SlotCap(ps: nat): nat
    requires PageSizeOk(ps)
  {
    ps - 24 - 4
  }

  function Zeros(n: nat): (b: Bytes)
    ensures |b| == n
  {
    seq(n, i => 0 as u8)
  }

  // ------------------------------------------------------------------ one blob page

  /** Type, flags, own number, blob-wide lead page, sequence, data length, data. */
  function PageBytes(ps: nat, page: nat, lead: nat, sequence: nat, flags: u8, data: Bytes): (b: Bytes)
    requires DATA_OFFSET + |data| <= ps
    ensures |b| == ps
  {
    [BLOB_PAGE, flags] + Zeros(10) + Le(page, 4) + Le(lead, 4) + Le(sequence, 4) + Le(|data| % 0x1_0000, 2) + Zeros(2)
    + data + Zeros(ps - DATA_OFFSET - |data|)
  }

  /** A blob page's data area, refused when the page is not what the level says it should be. */
  function PageData(pages: Pages, page: nat, pointers: bool): Result<Bytes> {
    if page !in pages then Err("blob page past EOF")
    else
      var p := pages[page];
      if |p| < DATA_OFFSET || p[0] != BLOB_PAGE then Err("not a blob page")
      else if (p[1] % 2 == POINTERS) != pointers then Err("the wrong kind of blob page")
      else
        var len := LeAt(p, 24, 2);
        if DATA_OFFSET + len > |p| then Err("blob page shorter than its blp_length")
        else Ok(p[DATA_OFFSET..DATA_OFFSET + len])
  }

  /** A page's own number, its blob's first data page, and its place among the data pages. */
  function Label(page: Bytes): (nat, nat, nat)
    requires |page| >= DATA_OFFSET
  {
    (LeAt(page, 12, 4), LeAt(page, 16, 4), LeAt(page, 20, 4))
  }

  /** A blob page's layout: type 8, the flags, its own number at 12, the blob's first data page at 16, its
      sequence at 20, the data length at 24, the data at 28, and zeros everywhere else. */
  predicate PageLaid(p: Bytes, ps: nat, page: nat, lead: nat, sequence: nat, flags: u8, length: nat) {
    && |p| == ps && 28 + length <= ps
    && p[0] == 8 && p[1] == flags && AllZero(p, 2, 12)
    && Word32(p, 12) == page && Word32(p, 16) == lead && Word32(p, 20) == sequence && Word16(p, 24) == length
    && AllZero(p, 26, 28) && AllZero(p, 28 + length, ps)
  }

  lemma PageIsLaid(ps: nat, page: nat, lead: nat, sequence: nat, flags: u8, data: Bytes)
    requires PageSizeOk(ps) && 28 + |data| <= ps && page < MAX_PAGES && lead < MAX_PAGES && sequence < MAX_PAGES
    ensures var p := PageBytes(ps, page, lead, sequence, flags, data);
            PageLaid(p, ps, page, lead, sequence, flags, |data|) && p[28..28 + |data|] == data
  {
    hide Le, LeVal, Word16, Word32;
    LabelRoundTrip(ps, page, lead, sequence, flags, data);
    var p := PageBytes(ps, page, lead, sequence, flags, data);
    WordsAt(p, 12);
    WordsAt(p, 16);
    WordsAt(p, 20);
    WordsAt(p, 24);
    assert p[24..26] == Le(|data| % 0x1_0000, 2);
    Widths();
    LeRoundTrip(|data|, 2);
  }

  lemma LabelRoundTrip(ps: nat, page: nat, lead: nat, sequence: nat, flags: u8, data: Bytes)
    requires DATA_OFFSET + |data| <= ps && page < MAX_PAGES && lead < MAX_PAGES && sequence < MAX_PAGES
    ensures Label(PageBytes(ps, page, lead, sequence, flags, data)) == (page, lead, sequence)
  {
    hide Le, LeVal;
    Widths();
    LeRoundTrip(page, 4);
    LeRoundTrip(lead, 4);
    LeRoundTrip(sequence, 4);
    var p := PageBytes(ps, page, lead, sequence, flags, data);
    assert p[12..16] == Le(page, 4) && p[16..20] == Le(lead, 4) && p[20..24] == Le(sequence, 4);
  }

  lemma PageRoundTrip(pages: Pages, ps: nat, page: nat, lead: nat, sequence: nat, flags: u8, data: Bytes)
    requires PageSizeOk(ps) && DATA_OFFSET + |data| <= ps && flags <= 1
    requires page in pages && pages[page] == PageBytes(ps, page, lead, sequence, flags, data)
    ensures PageData(pages, page, flags == POINTERS) == Ok(data)
  {
    hide Le, LeVal;
    Widths();
    LeRoundTrip(|data|, 2);
    var p := pages[page];
    assert p[24..26] == Le(|data| % 0x1_0000, 2);
    assert p[DATA_OFFSET..DATA_OFFSET + |data|] == data;
  }

  // ------------------------------------------------------------------ reading

  /** A zero-terminated vector of page numbers. */
  function Vector(b: Bytes): seq<nat> {
    if |b| < 4 || LeAt(b, 0, 4) == 0 then [] else [LeAt(b, 0, 4)] + Vector(b[4..])
  }

  function VectorBytes(pages: seq<nat>): (b: Bytes)
    ensures |b| == 4 * |pages|
  {
    if pages == [] then [] else Le(pages[0], 4) + VectorBytes(pages[1..])
  }

  /** The bytes of a vector are its numbers as 32-bit words, in order. */
  lemma {:induction false} VectorIsLaid(pages: seq<nat>)
    requires PageNumbers(pages)
    ensures IsVector(VectorBytes(pages), pages)
  {
    hide Word32, Le;
    if pages != [] {
      assert forall p :: p in pages[1..] ==> p in pages;
      VectorIsLaid(pages[1..]);
      assert pages[0] in pages;
      WordsWritten(pages[0]);
      var b := VectorBytes(pages);
      forall i | 0 <= i < |pages| ensures Word32(b, 4 * i) == pages[i] {
        if i == 0 {
          SameWord(b, 0, Le(pages[0], 4), 0);
        } else {
          SameWord(b, 4 * i, VectorBytes(pages[1..]), 4 * (i - 1));
        }
      }
    }
  }

  lemma SameWord(a: Bytes, i: nat, b: Bytes, j: nat)
    requires i + 4 <= |a| && j + 4 <= |b| && a[i..i + 4] == b[j..j + 4]
    ensures Word32(a, i) == Word32(b, j)
  {
    assert a[i..i + 4] == [a[i], a[i + 1], a[i + 2], a[i + 3]] && b[j..j + 4] == [b[j], b[j + 1], b[j + 2], b[j + 3]];
  }

  predicate PageNumbers(pages: seq<nat>) {
    forall p :: p in pages ==> 0 < p < MAX_PAGES
  }

  lemma {:induction false} VectorRoundTrip(pages: seq<nat>)
    requires PageNumbers(pages)
    ensures Vector(VectorBytes(pages)) == pages
  {
    if pages != [] {
      hide Le, LeVal;
      Widths();
      assert pages[0] in pages;
      LeRoundTrip(pages[0], 4);
      var b := VectorBytes(pages);
      assert b[0..4] == Le(pages[0], 4) && b[4..] == VectorBytes(pages[1..]);
      assert forall p :: p in pages[1..] ==> p in pages;
      VectorRoundTrip(pages[1..]);
    }
  }

  function ReadPages(pages: Pages, list: seq<nat>): Result<Bytes> {
    if list == [] then Ok([])
    else match PageData(pages, list[0], false)
      case Err(e) => Err(e)
      case Ok(data) =>
        match ReadPages(pages, list[1..])
        case Err(e) => Err(e)
        case Ok(rest) => Ok(data + rest)
  }

  function ReadPointerPages(pages: Pages, list: seq<nat>): Result<Bytes> {
    if list == [] then Ok([])
    else match PageData(pages, list[0], true)
      case Err(e) => Err(e)
      case Ok(pointers) =>
        match ReadPages(pages, Vector(pointers))
        case Err(e) => Err(e)
        case Ok(data) =>
          match ReadPointerPages(pages, list[1..])
          case Err(e) => Err(e)
          case Ok(rest) => Ok(data + rest)
  }

  function AsBlob(header: BlobHeader, raw: Result<Bytes>): Result<Blob> {
    match raw
    case Err(e) => Err(e)
    case Ok(b) => Ok(Blob(header, b))
  }

  /** `read_blob` of a slot's bytes, at all three levels. */
  function ReadSlot(pages: Pages, slot: Bytes): Result<Blob> {
    match Decode(slot)
    case None => Err("slot is not a blob")
    case Some(header) =>
      var body := slot[HEADER_SIZE..];
      if header.level == 0 then Ok(Blob(header, body))
      else if header.level == 1 then AsBlob(header, ReadPages(pages, Vector(body)))
      else if header.level == 2 then AsBlob(header, ReadPointerPages(pages, Vector(body)))
      else Err("blob level unconverted")
  }

  lemma NoPages(pages: Pages)
    ensures ReadPages(pages, []) == Ok([])
  {
  }

  lemma {:induction false} ReadPagesConcat(pages: Pages, a: seq<nat>, b: seq<nat>)
    ensures ReadPages(pages, a).Ok? && ReadPages(pages, b).Ok?
            ==> ReadPages(pages, a + b) == Ok(ReadPages(pages, a).value + ReadPages(pages, b).value)
  {
    hide PageData;
    if a == [] {
      NoPages(pages);
      assert a + b == b;
      if ReadPages(pages, b).Ok? {
        assert [] + ReadPages(pages, b).value == ReadPages(pages, b).value;
      }
    } else if ReadPages(pages, a).Ok? && ReadPages(pages, b).Ok? {
      assert ReadPages(pages, a[1..]).Ok?;
      ReadPagesConcat(pages, a[1..], b);
      assert (a + b)[0] == a[0] && (a + b)[1..] == a[1..] + b;
      var x, y, z := PageData(pages, a[0], false).value, ReadPages(pages, a[1..]).value, ReadPages(pages, b).value;
      assert ReadPages(pages, a).value == x + y && ReadPages(pages, a + b) == Ok(x + (y + z));
      assert (x + y) + z == x + (y + z);
    }
  }

  // ------------------------------------------------------------------ chunks

  function CeilDiv(n: nat, d: nat): nat
    requires d > 0
  {
    (n + d - 1) / d
  }

  /** The i-th piece of `s.chunks(per)`. */
  function Chunk<T>(s: seq<T>, per: nat, i: nat): (c: seq<T>)
    requires i * per <= |s|
    ensures |c| <= per
  {
    s[i * per..if i * per + per < |s| then i * per + per else |s|]
  }

  lemma ChunkStarts(n: nat, per: nat, i: nat)
    requires per > 0 && i < CeilDiv(n, per)
    ensures i * per < n
    ensures i + 1 < CeilDiv(n, per) ==> i * per + per < n
    ensures i + 1 == CeilDiv(n, per) ==> n <= i * per + per
  {
    var c := CeilDiv(n, per);
    DivBasics(n + per - 1, per);
    MulLeft(i + 1, c, per);
    MulDistributes(per, i, 1);
    if i + 1 < c {
      MulLeft(i + 2, c, per);
      MulDistributes(per, i, 2);
    }
  }

  /** A chunk has no elements of its own. */
  lemma PartOf<T>(s: seq<T>, per: nat, i: nat)
    requires i * per <= |s|
    ensures forall k :: 0 <= k < |Chunk(s, per, i)| ==> Chunk(s, per, i)[k] in s
  {
    var from := i * per;
    forall k | 0 <= k < |Chunk(s, per, i)| ensures Chunk(s, per, i)[k] in s {
      assert Chunk(s, per, i)[k] == s[from + k];
    }
  }

  /** Every data page holds its chunk of the stream. */
  ghost predicate HoldsChunks(pages: Pages, list: seq<nat>, raw: Bytes, per: nat)
    requires per > 0
  {
    && |list| == CeilDiv(|raw|, per)
    && forall i :: 0 <= i < |list| ==> i * per <= |raw| && PageData(pages, list[i], false) == Ok(Chunk(raw, per, i))
  }

  lemma {:induction false} ChunksRead(pages: Pages, list: seq<nat>, raw: Bytes, per: nat, i: nat)
    requires per > 0 && HoldsChunks(pages, list, raw, per) && i <= |list|
    ensures i < |list| ==> i * per <= |raw|
    ensures ReadPages(pages, list[i..]) == Ok(if i < |list| then raw[i * per..] else [])
    decreases |list| - i
  {
    hide PageData, CeilDiv, Chunk;
    if i < |list| {
      ChunkStarts(|raw|, per, i);
      ChunksRead(pages, list, raw, per, i + 1);
      MulDistributes(per, i, 1);
      assert list[i..][1..] == list[i + 1..];
      NextChunk(raw, per, i, |list|);
    }
  }

  /** A stream from one chunk on is that chunk and the stream from the next chunk on. */
  lemma NextChunk<T>(s: seq<T>, per: nat, i: nat, n: nat)
    requires per > 0 && n == CeilDiv(|s|, per) && i < n
    ensures i * per <= |s| && (i + 1 < n ==> (i + 1) * per <= |s|)
    ensures Chunk(s, per, i) + (if i + 1 < n then s[(i + 1) * per..] else []) == s[i * per..]
  {
    hide CeilDiv;
    ChunkStarts(|s|, per, i);
    MulDistributes(per, i, 1);
    if i + 1 < n {
      assert (i + 1) * per == i * per + per;
    }
  }

  /** Reading the data pages in order gives the stream back. */
  lemma PagesReadBack(pages: Pages, list: seq<nat>, raw: Bytes, per: nat)
    requires per > 0 && HoldsChunks(pages, list, raw, per)
    ensures ReadPages(pages, list) == Ok(raw)
  {
    ChunksRead(pages, list, raw, per, 0);
    assert list[0..] == list;
    if list == [] {
      DivBasics(|raw| + per - 1, per);
    } else {
      assert raw[0..] == raw;
    }
  }

  /** Every pointer page holds its chunk of the data-page list. */
  ghost predicate HoldsPointers(pages: Pages, pointers: seq<nat>, list: seq<nat>, per: nat)
    requires per > 0
  {
    && |pointers| == CeilDiv(|list|, per)
    && forall i :: 0 <= i < |pointers| ==> i * per <= |list| && PageData(pages, pointers[i], true) == Ok(VectorBytes(Chunk(list, per, i)))
  }

  lemma {:induction false} ChunksPointed(pages: Pages, pointers: seq<nat>, list: seq<nat>, per: nat, i: nat)
    requires per > 0 && HoldsPointers(pages, pointers, list, per) && PageNumbers(list) && i <= |pointers|
    requires forall k :: 0 <= k < |list| ==> PageData(pages, list[k], false).Ok?
    ensures i < |pointers| ==> i * per <= |list|
    ensures ReadPointerPages(pages, pointers[i..]) == ReadPages(pages, if i < |pointers| then list[i * per..] else [])
    decreases |pointers| - i
  {
    hide PageData, CeilDiv, Chunk, Vector, VectorBytes, ReadPages;
    if i < |pointers| {
      ChunkStarts(|list|, per, i);
      ChunksPointed(pages, pointers, list, per, i + 1);
      assert pointers[i..][1..] == pointers[i + 1..];
      NextChunk(list, per, i, |pointers|);
      var chunk := Chunk(list, per, i);
      PartOf(list, per, i);
      VectorRoundTrip(chunk);
      var rest := if i + 1 < |pointers| then list[(i + 1) * per..] else [];
      AllPagesRead(pages, chunk);
      AllPagesRead(pages, rest);
      ReadPagesConcat(pages, chunk, rest);
    } else {
      NoPages(pages);
    }
  }

  lemma {:induction false} AllPagesRead(pages: Pages, list: seq<nat>)
    requires forall k :: 0 <= k < |list| ==> PageData(pages, list[k], false).Ok?
    ensures ReadPages(pages, list).Ok?
  {
    if list != [] {
      AllPagesRead(pages, list[1..]);
    }
  }

  lemma PointersReadBack(pages: Pages, pointers: seq<nat>, list: seq<nat>, ptrPer: nat, raw: Bytes, per: nat)
    requires per > 0 && ptrPer > 0 && HoldsChunks(pages, list, raw, per) && HoldsPointers(pages, pointers, list, ptrPer)
    requires PageNumbers(list)
    ensures ReadPointerPages(pages, pointers) == Ok(raw)
  {
    PagesReadBack(pages, list, raw, per);
    ChunksPointed(pages, pointers, list, ptrPer, 0);
    assert pointers[0..] == pointers;
    if pointers == [] {
      DivBasics(|list| + ptrPer - 1, ptrPer);
    } else {
      assert list[0..] == list;
    }
  }

  // ------------------------------------------------------------------ the levels

  function PerPage(ps: nat): nat
    requires PageSizeOk(ps)
  {
    ps - DATA_OFFSET
  }

  function PerPointer(ps: nat): (n: nat)
    requires PageSizeOk(ps)
    ensures n > 0 && 4 * n <= PerPage(ps)
  {
    PerPage(ps) / 4
  }

  predicate FitsInline(ps: nat, rawLength: nat)
    requires PageSizeOk(ps)
  {
    HEADER_SIZE + rawLength <= SlotCap(ps)
  }

  predicate FitsVector(ps: nat, rawLength: nat)
    requires PageSizeOk(ps)
  {
    HEADER_SIZE + CeilDiv(rawLength, PerPage(ps)) * 4 <= SlotCap(ps)
  }

  /** The least level that fits the slot. */
  function LevelFor(ps: nat, rawLength: nat): u8
    requires PageSizeOk(ps)
  {
    if FitsInline(ps, rawLength) then 0 else if FitsVector(ps, rawLength) then 1 else 2
  }

  /** The stored byte stream: framed for a segmented blob, joined for a stream. */
  function RawOf(segments: seq<Bytes>, stream: bool): Bytes {
    if stream then Flatten(segments) else Frame(segments)
  }

  /** What a stored blob must read back as. */
  ghost predicate Stores(blob: Blob, segments: seq<Bytes>, stream: bool, ps: nat)
    requires PageSizeOk(ps)
  {
    && blob.raw == RawOf(segments, stream)
    && blob.header.IsStream() == stream
    && blob.header.length as nat == |Flatten(segments)|
    && blob.header.level == LevelFor(ps, |blob.raw|)
  }

  /** The length of the longest segment, 0 when there is none. */
  predicate IsLongest(segments: seq<Bytes>, n: nat) {
    && (forall i :: 0 <= i < |segments| ==> |segments[i]| <= n)
    && (if segments == [] then n == 0 else exists s :: s in segments && |s| == n)
  }

  /** The header's bookkeeping: of a stream blob its puts, of a segmented one its segments. */
  predicate Counted(h: BlobHeader, segments: seq<Bytes>, subType: u16, charset: u8, stream: Option<(u32, nat)>) {
    && h.subType == subType && h.charset == charset
    && match stream
       case Some(counts) => h.count == counts.0 && h.maxSegment as nat == if counts.1 < 0xffff then counts.1 else 0xffff
       case None => h.count as nat == |segments| % MAX_PAGES && IsLongest(segments, h.maxSegment as nat)
  }

  /** From any stored blob the content comes back exactly, and the segments of a segmented one up to
      trailing empty segments. */
  lemma StoredContent(blob: Blob, segments: seq<Bytes>, stream: bool, ps: nat)
    requires PageSizeOk(ps) && Stores(blob, segments, stream, ps)
    requires !stream ==> Framable(segments)
    ensures ContentOf(blob.header, blob.raw) == Flatten(segments)
    ensures !stream ==> Segments(blob.raw, blob.header.length as nat) == WithoutTrailingEmpty(segments)
  {
    if stream {
      assert blob.raw[..|blob.raw|] == blob.raw;
    } else {
      assert Frame(segments) + [] == Frame(segments);
      SegmentsOfFrame(segments, []);
      FlattenWithoutTrailingEmpty(segments);
    }
  }

  // ------------------------------------------------------------------ the file

  /** The pointer pages needed for n data pages. */
  function PointersFor(ps: nat, n: nat): nat
    requires PageSizeOk(ps)
  {
    CeilDiv(n, PerPointer(ps))
  }

  /** With `free` page numbers left, a stream of this length finds a place at some level. */
  predicate CanStore(ps: nat, rawLength: nat, free: nat)
    requires PageSizeOk(ps)
  {
    || FitsInline(ps, rawLength)
    || CanStorePaged(ps, rawLength, free)
  }

  predicate CanStorePaged(ps: nat, rawLength: nat, free: nat)
    requires PageSizeOk(ps)
  {
    var n := CeilDiv(rawLength, PerPage(ps));
    if FitsVector(ps, rawLength) then n <= free
    else n + PointersFor(ps, n) <= free && HEADER_SIZE + PointersFor(ps, n) * 4 <= SlotCap(ps)
  }

  class BlobFile {
    const pageSize: nat
    var pages: Pages
    var slots: map<nat, Bytes>
    var nextPage: nat
    var nextSlot: nat

    ghost predicate Valid()
      reads this
    {
      && PageSizeOk(pageSize)
      && 0 < nextPage <= MAX_PAGES && (forall p :: p in pages ==> p < nextPage)
      && forall r :: r in slots ==> r < nextSlot
    }

    constructor (pageSize: nat)
      requires PageSizeOk(pageSize)
      ensures Valid() && this.pageSize == pageSize && pages == map[] && slots == map[]
    {
      this.pageSize := pageSize;
      pages, slots, nextPage, nextSlot := map[], map[], 1, 0;
    }

    /** A page no one has; none is left once the 32-bit numbers run out. */
    method AllocatePage() returns (r: Result<nat>)
      requires Valid()
      modifies `pages, `nextPage
      ensures Valid()
      ensures r.Ok? <==> old(nextPage) < MAX_PAGES
      ensures r.Ok? ==> 0 < r.value < MAX_PAGES && r.value !in old(pages) && pages == old(pages)[r.value := Zeros(pageSize)]
                        && nextPage == old(nextPage) + 1
      ensures r.Err? ==> pages == old(pages)
    {
      if nextPage >= MAX_PAGES {
        return Err("PIP chain has no free page");
      }
      pages := pages[nextPage := Zeros(pageSize)];
      r := Ok(nextPage);
      nextPage := nextPage + 1;
    }

    /** A new slot holding exactly the given bytes, refused when they do not fit one. */
    method InsertSlot(blh: Bytes) returns (r: Result<nat>)
      requires Valid()
      modifies `slots, `nextSlot
      ensures Valid()
      ensures r.Ok? <==> |blh| <= SlotCap(pageSize)
      ensures r.Ok? ==> r.value !in old(slots) && slots == old(slots)[r.value := blh]
      ensures r.Err? ==> slots == old(slots)
    {
      if |blh| > SlotCap(pageSize) {
        return Err("blob header larger than a data-page slot");
      }
      slots := slots[nextSlot := blh];
      r := Ok(nextSlot);
      nextSlot := nextSlot + 1;
    }

    /** One blob page laid down: it reads back as the data, and carries its label. */
    method WriteBlobPage(page: nat, lead: nat, sequence: nat, flags: u8, data: Bytes)
      requires Valid() && page in pages && DATA_OFFSET + |data| <= pageSize && flags <= 1
      requires page < MAX_PAGES && lead < MAX_PAGES && sequence < MAX_PAGES
      modifies `pages
      ensures Valid() && pages.Keys == old(pages).Keys
      ensures forall p :: p in pages && p != page ==> pages[p] == old(pages)[p]
      ensures PageData(pages, page, flags == POINTERS) == Ok(data)
      ensures |pages[page]| == pageSize && Label(pages[page]) == (page, lead, sequence)
      ensures PageLaid(pages[page], pageSize, page, lead, sequence, flags, |data|) && pages[page][28..28 + |data|] == data
    {
      PageIsLaid(pageSize, page, lead, sequence, flags, data);
      pages := pages[page := PageBytes(pageSize, page, lead, sequence, flags, data)];
      PageRoundTrip(pages, pageSize, page, lead, sequence, flags, data);
      LabelRoundTrip(pageSize, page, lead, sequence, flags, data);
    }

    /** `n` fresh pages, all different. */
    method AllocatePages(n: nat) returns (r: Result<seq<nat>>)
      requires Valid()
      modifies `pages, `nextPage
      ensures Valid() && Extends(old(pages), pages)
      ensures r.Ok? <==> old(nextPage) + n <= MAX_PAGES
      ensures r.Ok? ==> |r.value| == n && Fresh(r.value, old(pages), pages) && nextPage == old(nextPage) + n
    {
      var list: seq<nat> := [];
      for i := 0 to n
        invariant Valid() && |list| == i && nextPage == old(nextPage) + i
        invariant Fresh(list, old(pages), pages) && Extends(old(pages), pages)
      {
        var p := AllocatePage();
        if p.Err? {
          return Err(p.reason);
        }
        list := list + [p.value];
      }
      r := Ok(list);
    }

    /** The byte stream laid over its data pages, chunk by chunk. */
    method WriteData(list: seq<nat>, raw: Bytes)
      requires Valid() && |list| == CeilDiv(|raw|, PerPage(pageSize)) && 0 < |list| <= MAX_PAGES
      requires NoRepeats(list) && PageNumbers(list) && forall i :: 0 <= i < |list| ==> list[i] in pages
      modifies `pages
      ensures Valid() && pages.Keys == old(pages).Keys
      ensures HoldsChunks(pages, list, raw, PerPage(pageSize)) && Labelled(pages, list)
      ensures DataLaid(pages, list, raw, pageSize)
      ensures forall p :: p in pages && p !in list ==> pages[p] == old(pages)[p]
    {
      hide PageData, Chunk, CeilDiv, Label, PageLaid, ChunkDone;
      var per := PerPage(pageSize);
      assert list[0] in list;
      for i := 0 to |list|
        invariant Valid() && pages.Keys == old(pages).Keys
        invariant forall p :: p in pages && p !in list ==> pages[p] == old(pages)[p]
        invariant forall k: nat :: k < i ==> ChunkDone(pages, list, pageSize, k, raw)
      {
        ChunkStarts(|raw|, per, i);
        assert list[i] in list;
        ghost var before := pages;
        WriteBlobPage(list[i], list[0], i, 0, Chunk(raw, per, i));
        OneChunkDone(pages, list, pageSize, i, raw);
        forall k: nat | k < i ensures ChunkDone(pages, list, pageSize, k, raw) {
          ChunkKept(before, pages, list, pageSize, k, raw);
        }
      }
      AllChunksDone(pages, list, pageSize, raw);
    }

    /** The data-page list laid over fresh pointer pages. */
    method WritePointers(list: seq<nat>) returns (r: Result<seq<nat>>)
      requires Valid() && list != [] && PageNumbers(list)
      modifies `pages, `nextPage
      ensures Valid() && Extends(old(pages), pages)
      ensures r.Ok? <==> old(nextPage) + PointersFor(pageSize, |list|) <= MAX_PAGES
      ensures r.Ok? ==> PageNumbers(r.value) && |r.value| == PointersFor(pageSize, |list|)
                        && HoldsPointers(pages, r.value, list, PerPointer(pageSize))
                        && PointersLaid(pages, r.value, list, pageSize)
    {
      hide PageData, Chunk, CeilDiv, Label, VectorBytes, PageLaid, IsVector;
      var per := PerPointer(pageSize);
      var pointers: seq<nat> := [];
      assert list[0] in list;
      for i := 0 to CeilDiv(|list|, per)
        invariant Valid() && |pointers| == i && nextPage == old(nextPage) + i && PageNumbers(pointers)
        invariant Extends(old(pages), pages)
        invariant forall k :: 0 <= k < i ==> pointers[k] in pages && pointers[k] !in old(pages)
        invariant forall k :: 0 <= k < i ==> k * per <= |list|
                                             && PageData(pages, pointers[k], true) == Ok(VectorBytes(Chunk(list, per, k)))
        invariant forall k: nat :: k < i ==> k * per <= |list| && OnePointer(pages, pointers[k], list, pageSize, Chunk(list, per, k))
      {
        ChunkStarts(|list|, per, i);
        PartOf(list, per, i);
        VectorIsLaid(Chunk(list, per, i));
        ghost var before := pages;
        var p := AllocatePage();
        if p.Err? {
          return Err(p.reason);
        }
        WriteBlobPage(p.value, list[0], 0, POINTERS, VectorBytes(Chunk(list, per, i)));
        assert OnePointer(pages, p.value, list, pageSize, Chunk(list, per, i));
        forall k | 0 <= k < i ensures PageData(pages, pointers[k], true) == PageData(before, pointers[k], true) {
          SamePageData(before, pages, pointers[k], true);
        }
        pointers := pointers + [p.value];
      }
      r := Ok(pointers);
    }

    /** Store a blob, at the least level its slot can hold; `stream` carries the put bookkeeping of a
        stream blob. It succeeds exactly when every segment fits its frame and the levels have room;
        reading it back gives exactly what was stored, and nothing else changed. */
    method Create(segments: seq<Bytes>, subType: u16, charset: u8, stream: Option<(u32, nat)>) returns (r: Result<nat>)
      requires Valid() && |Flatten(segments)| < 0x1_0000_0000_0000_0000
      modifies this
      ensures Valid() && Extends(old(pages), pages)
      ensures r.Ok? <==> (stream.Some? || Framable(segments))
                         && CanStore(pageSize, |RawOf(segments, stream.Some?)|, MAX_PAGES - old(nextPage))
      ensures r.Err? ==> slots == old(slots)
      ensures r.Ok? ==> r.value !in old(slots) && r.value in slots && slots == old(slots)[r.value := slots[r.value]]
      ensures r.Ok? ==> ReadSlot(pages, slots[r.value]).Ok?
                        && Stores(ReadSlot(pages, slots[r.value]).value, segments, stream.Some?, pageSize)
                        && Places(ReadSlot(pages, slots[r.value]).value, pages, pageSize)
                        && Counted(ReadSlot(pages, slots[r.value]).value.header, segments, subType, charset, stream)
      ensures r.Ok? ==> SlotLaid(slots[r.value], segments, subType, charset, stream)
                        && Located(slots[r.value], pages, RawOf(segments, stream.Some?), pageSize)
    {
      if stream == None && !Framable(segments) {
        return Err("blob segment longer than a u16 frame");
      }
      var raw := RawOf(segments, stream.Some?);
      var header := NewHeader(segments, subType, charset, stream);
      if FitsInline(pageSize, |raw|) {
        r := StoreInline(header, raw);
        SlotFromHeader(slots[r.value], header, segments, subType, charset, stream);
        return;
      }
      r := StorePaged(header, raw);
      if r.Ok? {
        SlotFromHeader(slots[r.value], header, segments, subType, charset, stream);
      }
    }

    method StoreInline(header: BlobHeader, raw: Bytes) returns (r: Result<nat>)
      requires Valid() && FitsInline(pageSize, |raw|) && header.level == 0 && header.flags as nat / BLOB_FLAG % 2 == 1
      modifies `slots, `nextSlot
      ensures Valid() && r.Ok? && r.value !in old(slots) && r.value in slots && slots == old(slots)[r.value := slots[r.value]]
      ensures ReadSlot(pages, slots[r.value]) == Ok(Blob(header, raw))
      ensures |slots[r.value]| >= 28 && HeaderLaid(slots[r.value], header) && slots[r.value][28..] == raw
    {
      var blh := header.Encode() + raw;
      HeaderRoundTrip(header, raw);
      EncodedAt(header, raw);
      assert blh[HEADER_SIZE..] == raw;
      r := InsertSlot(blh);
    }

    method StorePaged(header: BlobHeader, raw: Bytes) returns (r: Result<nat>)
      requires Valid() && !FitsInline(pageSize, |raw|) && header.flags as nat / BLOB_FLAG % 2 == 1
      modifies this
      ensures Valid() && Extends(old(pages), pages)
      ensures r.Ok? <==> CanStorePaged(pageSize, |raw|, MAX_PAGES - old(nextPage))
      ensures r.Err? ==> slots == old(slots)
      ensures r.Ok? ==> r.value !in old(slots) && r.value in slots && slots == old(slots)[r.value := slots[r.value]]
      ensures r.Ok? ==> ReadSlot(pages, slots[r.value]).Ok?
                        && ReadSlot(pages, slots[r.value]).value.raw == raw
                        && SameBlob(ReadSlot(pages, slots[r.value]).value.header, header, LevelFor(pageSize, |raw|))
                        && Places(ReadSlot(pages, slots[r.value]).value, pages, pageSize)
      ensures r.Ok? ==> PlacedHeader(slots[r.value], header) && Located(slots[r.value], pages, raw, pageSize)
    {
      hide PageData, Chunk, CeilDiv, Label, VectorBytes, Vector, Decode, ReadPages, ReadPointerPages, HoldsChunks;
      hide HoldsPointers, Labelled, ReadSlot, Places, PointersFor, DataLaid, PointersLaid, IsVector;
      var per := PerPage(pageSize);
      var n := CeilDiv(|raw|, per);
      SomePages(|raw|, per);
      var got := AllocatePages(n);
      if got.Err? {
        return Err(got.reason);
      }
      var list := got.value;
      WriteData(list, raw);
      PagesReadBack(pages, list, raw, per);
      assert list[0] in list;
      var placed := header.(leadPage := list[0] as u32, maxSequence := (n - 1) as u32);
      if FitsVector(pageSize, |raw|) {
        VectorRoundTrip(list);
        r := InsertVector(placed.(level := 1), list);
        if r.Ok? {
          LocatedInVector(slots[r.value], pages, raw, pageSize, list, placed.(level := 1));
        }
        PlacedAt(Blob(placed.(level := 1), raw), pages, pageSize, list);
        return;
      }
      ghost var written := pages;
      var pointers := WritePointers(list);
      if pointers.Err? {
        return Err(pointers.reason);
      }
      ChunksStayed(written, pages, list, raw, per);
      PointersReadBack(pages, pointers.value, list, PerPointer(pageSize), raw, per);
      if HEADER_SIZE + |pointers.value| * 4 > SlotCap(pageSize) {
        return Err("level-3 blobs do not exist - the pointer vector cannot overflow");
      }
      VectorRoundTrip(pointers.value);
      DataStayed(written, pages, list, raw, pageSize);
      r := InsertVector(placed.(level := 2), pointers.value);
      if r.Ok? {
        LocatedInPointers(slots[r.value], pages, raw, pageSize, list, pointers.value, placed.(level := 2));
      }
      PlacedAt(Blob(placed.(level := 2), raw), pages, pageSize, list);
    }

    method InsertVector(header: BlobHeader, list: seq<nat>) returns (r: Result<nat>)
      requires Valid() && header.flags as nat / BLOB_FLAG % 2 == 1 && Vector(VectorBytes(list)) == list && PageNumbers(list)
      requires header.level == 1 || header.level == 2
      modifies `slots, `nextSlot
      ensures Valid()
      ensures r.Ok? <==> HEADER_SIZE + |list| * 4 <= SlotCap(pageSize)
      ensures r.Err? ==> slots == old(slots)
      ensures r.Ok? ==> r.value !in old(slots) && r.value in slots && slots == old(slots)[r.value := slots[r.value]]
      ensures r.Ok? ==> ReadSlot(pages, slots[r.value])
                        == AsBlob(header, if header.level == 1 then ReadPages(pages, list) else ReadPointerPages(pages, list))
      ensures r.Ok? ==> |slots[r.value]| >= 28 && HeaderLaid(slots[r.value], header) && IsVector(slots[r.value][28..], list)
    {
      hide HeaderLaid, IsVector;
      var blh := header.Encode() + VectorBytes(list);
      EncodedAt(header, VectorBytes(list));
      VectorIsLaid(list);
      HeaderRoundTrip(header, VectorBytes(list));
      assert blh[HEADER_SIZE..] == VectorBytes(list);
      r := InsertSlot(blh);
    }
  }

  // ------------------------------------------------------------------ where everything lies

  ghost predicate OneLaid(pages: Pages, list: seq<nat>, ps: nat, k: nat, data: Bytes)
    requires k < |list|
  {
    list[k] in pages && PageLaid(pages[list[k]], ps, list[k], list[0], k, 0, |data|) && pages[list[k]][28..28 + |data|] == data
  }

  ghost predicate ChunkLaid(pages: Pages, list: seq<nat>, ps: nat, k: nat, raw: Bytes)
    requires PageSizeOk(ps) && k < |list|
  {
    k * (ps - 28) <= |raw| && OneLaid(pages, list, ps, k, Chunk(raw, ps - 28, k))
  }

  /** One data page reads back as its chunk, carries its label, and is laid out as it should be. */
  ghost predicate ChunkDone(pages: Pages, list: seq<nat>, ps: nat, k: nat, raw: Bytes)
    requires PageSizeOk(ps) && k < |list|
  {
    && ChunkLaid(pages, list, ps, k, raw) && PageData(pages, list[k], false) == Ok(Chunk(raw, PerPage(ps), k))
    && |pages[list[k]]| == ps && Label(pages[list[k]]) == (list[k], list[0], k)
  }

  lemma OneChunkDone(pages: Pages, list: seq<nat>, ps: nat, k: nat, raw: Bytes)
    requires PageSizeOk(ps) && k < |list| && k * (ps - 28) <= |raw| && list[k] in pages
    requires var data := Chunk(raw, PerPage(ps), k);
             && PageLaid(pages[list[k]], ps, list[k], list[0], k, 0, |data|) && pages[list[k]][28..28 + |data|] == data
             && PageData(pages, list[k], false) == Ok(data)
    requires |pages[list[k]]| == ps && Label(pages[list[k]]) == (list[k], list[0], k)
    ensures ChunkDone(pages, list, ps, k, raw)
  {
    hide PageLaid, PageData, Label, Chunk;
  }

  lemma ChunkKept(before: Pages, after: Pages, list: seq<nat>, ps: nat, k: nat, raw: Bytes)
    requires PageSizeOk(ps) && k < |list| && ChunkDone(before, list, ps, k, raw)
    requires list[k] in after && after[list[k]] == before[list[k]]
    ensures ChunkDone(after, list, ps, k, raw)
  {
    hide PageLaid, Chunk;
    SamePageData(before, after, list[k], false);
  }

  lemma AllChunksDone(pages: Pages, list: seq<nat>, ps: nat, raw: Bytes)
    requires PageSizeOk(ps) && |list| == CeilDiv(|raw|, PerPage(ps)) && forall k: nat :: k < |list| ==> ChunkDone(pages, list, ps, k, raw)
    ensures HoldsChunks(pages, list, raw, PerPage(ps)) && Labelled(pages, list) && DataLaid(pages, list, raw, ps)
  {
    hide PageLaid, Chunk, PageData, Label, CeilDiv, OneLaid;
    forall k: nat | k < |list|
      ensures ChunkLaid(pages, list, ps, k, raw) && k * PerPage(ps) <= |raw| && list[k] in pages
      ensures PageData(pages, list[k], false) == Ok(Chunk(raw, PerPage(ps), k))
      ensures |pages[list[k]]| >= DATA_OFFSET && Label(pages[list[k]]) == (list[k], list[0], k)
    {
      assert ChunkDone(pages, list, ps, k, raw);
      ChunkThere(pages, list, ps, k, raw);
    }
  }

  lemma ChunkThere(pages: Pages, list: seq<nat>, ps: nat, k: nat, raw: Bytes)
    requires PageSizeOk(ps) && k < |list| && ChunkLaid(pages, list, ps, k, raw)
    ensures list[k] in pages && k * PerPage(ps) <= |raw|
  {
  }

  /** The data pages hold the stream in order, as much on each as it has room for. */
  ghost predicate DataLaid(pages: Pages, list: seq<nat>, raw: Bytes, ps: nat)
    requires PageSizeOk(ps)
  {
    && |list| == CeilDiv(|raw|, ps - 28)
    && forall k: nat :: k < |list| ==> ChunkLaid(pages, list, ps, k, raw)
  }

  ghost predicate OnePointer(pages: Pages, p: nat, list: seq<nat>, ps: nat, part: seq<nat>)
    requires list != []
  {
    p in pages && PageLaid(pages[p], ps, p, list[0], 0, 1, 4 * |part|) && IsVector(pages[p][28..28 + 4 * |part|], part)
  }

  /** The pointer pages name the data pages in order; each carries the first of them as its lead page and
      sequence zero. */
  ghost predicate PointersLaid(pages: Pages, pointers: seq<nat>, list: seq<nat>, ps: nat)
    requires PageSizeOk(ps)
  {
    && list != [] && |pointers| == CeilDiv(|list|, PerPointer(ps))
    && forall k: nat :: k < |pointers| ==>
         k * PerPointer(ps) <= |list| && OnePointer(pages, pointers[k], list, ps, Chunk(list, PerPointer(ps), k))
  }

  /** What a slot says of its blob, byte by byte: bit 16 always and bit 32 of a stream, the counts, the
      payload's length, the sub-type, and the character set in byte 26. */
  predicate SlotLaid(slot: Bytes, segments: seq<Bytes>, subType: u16, charset: u8, stream: Option<(u32, nat)>) {
    && |slot| >= 28
    && Word16(slot, 10) == (if stream.Some? then 48 else 16)
    && Word64(slot, 16) == |Flatten(segments)| && Word16(slot, 24) == subType as nat && slot[26] == charset
    && match stream
       case Some(counts) => Word32(slot, 12) == counts.0 as nat && Word16(slot, 8) == if counts.1 < 0xffff then counts.1 else 0xffff
       case None => Word32(slot, 12) == |segments| % MAX_PAGES && IsLongest(segments, Word16(slot, 8))
  }

  /** Where the stream is: behind the header at level 0; on data pages that the slot names at level 1, or
      whose pointer pages it names at level 2. The level is byte 27, and the least with room. */
  ghost predicate Located(slot: Bytes, pages: Pages, raw: Bytes, ps: nat)
    requires PageSizeOk(ps)
  {
    && |slot| >= 28
    && if 28 + |raw| <= ps - 28 then
         slot[27] == 0 && slot[28..] == raw && Word32(slot, 0) == 0 && Word32(slot, 4) == 0
       else
         exists list :: LocatedOn(slot, pages, raw, ps, list)
  }

  ghost predicate LocatedOn(slot: Bytes, pages: Pages, raw: Bytes, ps: nat, list: seq<nat>)
    requires PageSizeOk(ps) && |slot| >= 28
  {
    && list != [] && DataLaid(pages, list, raw, ps)
    && Word32(slot, 0) == list[0] && Word32(slot, 4) == |list| - 1
    && if 28 + 4 * |list| <= ps - 28 then slot[27] == 1 && IsVector(slot[28..], list)
       else slot[27] == 2 && exists pointers :: IsVector(slot[28..], pointers) && PointersLaid(pages, pointers, list, ps)
  }

  /** The header as stored, but for the place and the level. */
  predicate PlacedHeader(slot: Bytes, given: BlobHeader) {
    && |slot| >= 28
    && Word16(slot, 8) == given.maxSegment as nat && Word16(slot, 10) == given.flags as nat
    && Word32(slot, 12) == given.count as nat && Word64(slot, 16) == given.length as nat && Word16(slot, 24) == given.subType as nat
    && slot[26] == given.charset
  }

  lemma SlotFromHeader(slot: Bytes, header: BlobHeader, segments: seq<Bytes>, subType: u16, charset: u8, stream: Option<(u32, nat)>)
    requires |slot| >= 28 && (HeaderLaid(slot, header) || PlacedHeader(slot, header))
    requires |Flatten(segments)| < 0x1_0000_0000_0000_0000 && (stream == None ==> Framable(segments))
    requires header == NewHeader(segments, subType, charset, stream)
    ensures SlotLaid(slot, segments, subType, charset, stream)
    ensures HeaderLaid(slot, header) ==> Word32(slot, 0) == Word32(slot, 4) == 0 && slot[27] == 0
  {
    hide Word16, Word32, Word64;
  }

  lemma LocatedInVector(slot: Bytes, pages: Pages, raw: Bytes, ps: nat, list: seq<nat>, header: BlobHeader)
    requires PageSizeOk(ps) && list != [] && !FitsInline(ps, |raw|) && FitsVector(ps, |raw|) && DataLaid(pages, list, raw, ps)
    requires |slot| >= 28 && HeaderLaid(slot, header) && IsVector(slot[28..], list)
    requires header.leadPage as nat == list[0] && header.maxSequence as nat == |list| - 1 && header.level == 1
    ensures Located(slot, pages, raw, ps)
  {
    hide DataLaid, IsVector, Word32, CeilDiv;
    assert |list| == CeilDiv(|raw|, ps - 28) by {
      DataCount(pages, list, raw, ps);
    }
    assert LocatedOn(slot, pages, raw, ps, list);
  }

  lemma LocatedInPointers(slot: Bytes, pages: Pages, raw: Bytes, ps: nat, list: seq<nat>, pointers: seq<nat>, header: BlobHeader)
    requires PageSizeOk(ps) && list != [] && !FitsInline(ps, |raw|) && !FitsVector(ps, |raw|) && DataLaid(pages, list, raw, ps)
    requires |slot| >= 28 && HeaderLaid(slot, header) && IsVector(slot[28..], pointers) && PointersLaid(pages, pointers, list, ps)
    requires header.leadPage as nat == list[0] && header.maxSequence as nat == |list| - 1 && header.level == 2
    ensures Located(slot, pages, raw, ps)
  {
    hide DataLaid, PointersLaid, IsVector, Word32, CeilDiv;
    assert |list| == CeilDiv(|raw|, ps - 28) by {
      DataCount(pages, list, raw, ps);
    }
    assert LocatedOn(slot, pages, raw, ps, list);
  }

  lemma DataCount(pages: Pages, list: seq<nat>, raw: Bytes, ps: nat)
    requires PageSizeOk(ps) && DataLaid(pages, list, raw, ps)
    ensures |list| == CeilDiv(|raw|, ps - 28)
  {
  }

  lemma DataStayed(before: Pages, after: Pages, list: seq<nat>, raw: Bytes, ps: nat)
    requires PageSizeOk(ps) && DataLaid(before, list, raw, ps) && Extends(before, after)
    ensures DataLaid(after, list, raw, ps)
  {
    hide PageLaid, Chunk, CeilDiv;
    forall k: nat | k < |list| ensures ChunkLaid(after, list, ps, k, raw) {
      assert ChunkLaid(before, list, ps, k, raw);
    }
  }

  /** The header before the blob has a place. */
  function NewHeader(segments: seq<Bytes>, subType: u16, charset: u8, stream: Option<(u32, nat)>): (h: BlobHeader)
    requires |Flatten(segments)| < 0x1_0000_0000_0000_0000
    requires stream == None ==> Framable(segments)
    ensures h.flags as nat / BLOB_FLAG % 2 == 1 && h.IsStream() == stream.Some? && h.level == 0
    ensures h.length as nat == |Flatten(segments)| && Counted(h, segments, subType, charset, stream)
  {
    BlobHeader(0, 0,
               match stream
               case Some(counts) => (if counts.1 < 0xffff then counts.1 else 0xffff) as u16
               case None => MaxLength(segments) as u16,
               if stream.Some? then (BLOB_FLAG + STREAM_FLAG) as u16 else BLOB_FLAG as u16,
               match stream
               case Some(counts) => counts.0
               case None => (|segments| % MAX_PAGES) as u32,
               |Flatten(segments)| as u64, subType, charset, 0)
  }

  function MaxLength(segments: seq<Bytes>): (n: nat)
    ensures IsLongest(segments, n)
    ensures Framable(segments) ==> n < 0x1_0000
  {
    if segments == [] then 0
    else
      var rest := MaxLength(segments[1..]);
      assert forall i :: 0 < i < |segments| ==> segments[i] == segments[1..][i - 1];
      assert segments[0] in segments && forall s :: s in segments[1..] ==> s in segments;
      if |segments[0]| > rest then |segments[0]| else rest
  }

  predicate NoRepeats(list: seq<nat>) {
    forall i, j :: 0 <= i < j < |list| ==> list[i] != list[j]
  }

  /** Nothing that was there has moved. */
  ghost predicate Extends(before: Pages, after: Pages) {
    forall p :: p in before ==> p in after && after[p] == before[p]
  }

  ghost predicate Fresh(list: seq<nat>, before: Pages, after: Pages) {
    NoRepeats(list) && PageNumbers(list) && forall i :: 0 <= i < |list| ==> list[i] !in before && list[i] in after
  }

  /** The header as stored: only its place and level were filled in. */
  predicate SameBlob(h: BlobHeader, given: BlobHeader, level: u8) {
    h.level == level && h == given.(leadPage := h.leadPage, maxSequence := h.maxSequence, level := h.level)
  }

  /** Every data page names itself, the blob's first data page and its own place. */
  ghost predicate Labelled(pages: Pages, list: seq<nat>) {
    forall i :: 0 <= i < |list| ==>
      list[i] in pages && |pages[list[i]]| >= DATA_OFFSET && Label(pages[list[i]]) == (list[i], list[0], i)
  }

  /** The header of a blob with pages of its own names the first one, and the last one's sequence. */
  ghost predicate Places(blob: Blob, pages: Pages, ps: nat)
    requires PageSizeOk(ps)
  {
    blob.header.level > 0 ==>
      exists list :: HoldsChunks(pages, list, blob.raw, PerPage(ps)) && Labelled(pages, list) && list != []
                     && blob.header.leadPage as nat == list[0] && blob.header.maxSequence as nat == |list| - 1
  }

  lemma PlacedAt(blob: Blob, pages: Pages, ps: nat, list: seq<nat>)
    requires PageSizeOk(ps) && HoldsChunks(pages, list, blob.raw, PerPage(ps)) && Labelled(pages, list) && list != []
    requires blob.header.leadPage as nat == list[0] && blob.header.maxSequence as nat == |list| - 1
    ensures Places(blob, pages, ps)
  {
  }

  lemma SamePageData(before: Pages, after: Pages, p: nat, pointers: bool)
    requires p in before && p in after && before[p] == after[p]
    ensures PageData(before, p, pointers) == PageData(after, p, pointers)
  {
  }

  lemma SomePages(n: nat, per: nat)
    requires per > 0 && n > 0
    ensures CeilDiv(n, per) > 0
  {
    DivBasics(n + per - 1, per);
  }

  lemma ChunksStayed(before: Pages, after: Pages, list: seq<nat>, raw: Bytes, per: nat)
    requires per > 0 && HoldsChunks(before, list, raw, per) && Labelled(before, list) && Extends(before, after)
    ensures HoldsChunks(after, list, raw, per) && Labelled(after, list)
  {
    forall i | 0 <= i < |list| ensures PageData(after, list[i], false) == PageData(before, list[i], false) {
      SamePageData(before, after, list[i], false);
    }
  }

  // ------------------------------------------------------------------ later blobs

  lemma {:induction false} ReadPagesStay(before: Pages, after: Pages, list: seq<nat>)
    requires Extends(before, after) && ReadPages(before, list).Ok?
    ensures ReadPages(after, list) == ReadPages(before, list)
  {
    if list != [] {
      SamePageData(before, after, list[0], false);
      ReadPagesStay(before, after, list[1..]);
    }
  }

  lemma {:induction false} ReadPointersStay(before: Pages, after: Pages, list: seq<nat>)
    requires Extends(before, after) && ReadPointerPages(before, list).Ok?
    ensures ReadPointerPages(after, list) == ReadPointerPages(before, list)
  {
    if list != [] {
      hide PageData, Vector, ReadPages;
      PageIsThere(before, list[0], true);
      SamePageData(before, after, list[0], true);
      ReadPagesStay(before, after, Vector(PageData(before, list[0], true).value));
      ReadPointersStay(before, after, list[1..]);
    }
  }

  lemma PageIsThere(pages: Pages, p: nat, pointers: bool)
    requires PageData(pages, p, pointers).Ok?
    ensures p in pages
  {
  }

  /** A stored blob reads back the same whatever is stored after it. */
  lemma BlobsStay(before: Pages, after: Pages, slot: Bytes)
    requires Extends(before, after) && ReadSlot(before, slot).Ok?
    ensures ReadSlot(after, slot) == ReadSlot(before, slot)
  {
    var header := Decode(slot).value;
    var body := slot[HEADER_SIZE..];
    if header.level == 1 {
      ReadPagesStay(before, after, Vector(body));
    } else if header.level == 2 {
      ReadPointersStay(before, after, Vector(body));
    }
  }
}
