/** The difference file byte by byte: where a reader finds the table's words and pages, and which bytes
    one more change touches. */
module DeltaLayout {
  import opened Words
  import opened Power
  import opened ByteStrings
  import opened LittleEndian
  import opened Layout
  import opened DeltaFile
  import opened DeltaUpsert

  lemma WordIs(b: Bytes, at: nat)
    requires at + 4 <= |b|
    ensures U32At(b, at) == Word32(b, at)
  {
    hide LeAt, Word32;
    WordsAt(b, at);
  }

  /** The rows of an allocation page: the page numbers are the words behind the first, and the pages stand
      one behind the other right after it. */
  function RowsOf(delta: Bytes, ps: nat, alloc: nat, n: nat): seq<Entry>
    requires alloc * ps + 4 + 4 * n <= |delta|
  {
    seq(n, i requires 0 <= i < n => Entry(Word32(delta, alloc * ps + 4 + 4 * i), alloc + 1 + i))
  }

  /** One allocation page: its first word is the number of its rows, of which it has room for one less than
      a quarter of its bytes; a full one sends the reader on, past its rows' pages. */
  lemma AllocationPage(delta: Bytes, ps: nat, alloc: nat)
    requires ps >= 8
    ensures var base, room := alloc * ps, ps / 4 - 1;
            TableFrom(delta, ps, alloc)
            == if base + ps > |delta| then Err("a difference allocation page runs past the file")
               else
                 var n := Word32(delta, base);
                 if n > room then Err("a difference allocation count is impossible")
                 else if n < room then Ok(RowsOf(delta, ps, alloc, n))
                 else Prepend(RowsOf(delta, ps, alloc, n), TableFrom(delta, ps, alloc + ps / 4))
  {
    hide U32At, Word32;
    var base := alloc * ps;
    if base + ps <= |delta| {
      WordIs(delta, base);
      var n := U32At(delta, base);
      if n <= PerAlloc(ps) {
        forall i | 0 <= i < n ensures U32At(delta, base + 4 + 4 * i) == Word32(delta, base + 4 + 4 * i) {
          WordIs(delta, base + 4 + 4 * i);
        }
        assert TableAt(delta, ps, alloc, n) == RowsOf(delta, ps, alloc, n);
      }
    }
  }

  /** The table starts on the first page; a file without one is none. */
  lemma FirstPage(delta: Bytes, ps: nat)
    ensures Table(delta, ps) == if ps < 8 || |delta| < ps then Err("not a difference file") else TableFrom(delta, ps, 0)
  {
  }

  /** A page laid over a file: the file grows as far as it needs and with zeros, and takes its bytes. */
  lemma OverlaidBytes(b: Bytes, ps: nat, c: Change)
    requires |c.data| == ps
    ensures var r, from := OverlayPage(b, ps, c), c.page * ps;
            && |r| == (if |b| < from + ps then from + ps else |b|)
            && forall k :: 0 <= k < |r| ==> r[k] == if from <= k < from + ps then c.data[k - from] else if k < |b| then b[k] else 0
  {
    hide Splice, Grown;
    var from := c.page * ps;
    SplicedBytes(b, from, c.data);
  }

  lemma SplicedBytes(b: Bytes, from: nat, data: Bytes)
    ensures from + |data| <= |Grown(b, from + |data|)|
    ensures var r := Splice(Grown(b, from + |data|), from, data);
            forall k :: 0 <= k < |r| ==> r[k] == if from <= k < from + |data| then data[k - from] else if k < |b| then b[k] else 0
  {
    hide Splice, Grown;
    var g := Grown(b, from + |data|);
    var r := Splice(g, from, data);
    forall k | 0 <= k < |r| ensures r[k] == if from <= k < from + |data| then data[k - from] else if k < |b| then b[k] else 0 {
      if from <= k < from + |data| {
        assert r[k] == r[from..from + |data|][k - from];
      } else if k < |b| {
        assert g[k] == g[..|b|][k];
      }
    }
  }

  /** A new row: the count in the first four bytes goes up by one, the page number becomes the word behind
      the last row, the page stands behind the last page, and no other byte changes. */
  lemma AppendedBytes(delta: Bytes, ps: nat, count: nat, c: Change)
    requires ps >= 8 && 8 + 4 * count <= |delta| && |c.data| == ps && c.page < BASE && count + 1 < BASE
    ensures var r, from, row := Appended(delta, ps, count, c), ps + count * ps, 4 + 4 * count;
            && |r| == (if |delta| < from + ps then from + ps else |delta|)
            && (forall k :: from <= k < from + ps ==> r[k] == c.data[k - from])
            && (from >= row + 4 ==> Word32(r, 0) == count + 1 && Word32(r, row) == c.page)
            && forall k :: 4 <= k < |r| && !(row <= k < row + 4) && !(from <= k < from + ps) ==> r[k] == if k < |delta| then delta[k] else 0
  {
    hide OverlayPage, AppendRow, Word32;
    var mid, row := AppendRow(delta, count, c.page), 4 + 4 * count;
    var from := (1 + count) * ps;
    MulDistributes(ps, 1, count);
    OverlaidBytes(mid, ps, Change(1 + count, c.data));
    var r := Appended(delta, ps, count, c);
    RowWords(delta, count, c.page);
    if from >= row + 4 {
      SameFour(r, mid, 0);
      SameFour(r, mid, row);
    }
  }

  lemma SameFour(a: Bytes, b: Bytes, at: nat)
    requires at + 4 <= |a| && at + 4 <= |b| && forall k :: at <= k < at + 4 ==> a[k] == b[k]
    ensures Word32(a, at) == Word32(b, at)
  {
  }

  lemma RowWords(delta: Bytes, count: nat, page: nat)
    requires 8 + 4 * count <= |delta| && page < BASE && count + 1 < BASE
    ensures var r, row := AppendRow(delta, count, page), 4 + 4 * count;
            && Word32(r, 0) == count + 1 && Word32(r, row) == page
            && forall k :: 4 <= k < |r| && !(row <= k < row + 4) ==> r[k] == delta[k]
  {
    hide Splice, Le, LeVal, Word32, U32At;
    WordsAppended(delta, count, page, 0);
    WordIs(AppendRow(delta, count, page), 0);
    WordIs(AppendRow(delta, count, page), 4 + 4 * count);
  }
}
