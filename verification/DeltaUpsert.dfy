/** Writing changed pages into a difference file: rows already in the table are overwritten in place,
    new ones appended to the first allocation page. When the result reads back as the old pages under
    the new ones, and when it does not. */
module DeltaUpsert {
  import opened Words
  import opened Power
  import opened ByteStrings
  import opened LittleEndian
  import opened DeltaFile

  // ------------------------------------------------------------------ pages, zeros past the end

  function ByteAt(b: Bytes, k: nat): u8 {
    if k < |b| then b[k] else 0
  }

  /** The page at a position, as a grown file would have it. */
  function Page(b: Bytes, ps: nat, pos: nat): (page: Bytes)
    ensures |page| == ps
  {
    seq(ps, k requires 0 <= k < ps => ByteAt(b, pos * ps + k))
  }

  lemma PageIsThere(b: Bytes, ps: nat, pos: nat)
    requires HasPage(b, ps, pos)
    ensures Page(b, ps, pos) == PageAt(b, ps, pos)
  {
  }

  /** Writing a page changes that page and no other, however far the file had to grow. */
  lemma Written(b: Bytes, ps: nat, pos: nat, data: Bytes, q: nat)
    requires ps > 0 && |data| == ps
    ensures |b| <= |OverlayPage(b, ps, Change(pos, data))| && HasPage(OverlayPage(b, ps, Change(pos, data)), ps, pos)
    ensures Page(OverlayPage(b, ps, Change(pos, data)), ps, q) == if q == pos then data else Page(b, ps, q)
  {
    hide OverlayPage;
    var c, from := OverlayPage(b, ps, Change(pos, data)), q * ps;
    if q <= pos {
      MulLeft(q, pos, ps);
    }
    forall k | 0 <= k < ps ensures Page(c, ps, q)[k] == if q == pos then data[k] else Page(b, ps, q)[k] {
      DivModUnique(from + k, ps, q, k);
      if from + k < |c| {
        OverlaidByte(b, ps, Change(pos, data), from + k);
      }
      assert Page(c, ps, q)[k] == ByteAt(c, from + k) && Page(b, ps, q)[k] == ByteAt(b, from + k);
    }
  }

  /** An allocation page says the same in two files that agree on it. */
  lemma SameAllocation(x: Bytes, y: Bytes, ps: nat, alloc: nat, n: nat)
    requires ps >= 8 && HasPage(x, ps, alloc) && HasPage(y, ps, alloc) && n <= PerAlloc(ps)
    requires Page(x, ps, alloc) == Page(y, ps, alloc)
    ensures CountAt(x, ps, alloc) == CountAt(y, ps, alloc) && TableAt(x, ps, alloc, n) == TableAt(y, ps, alloc, n)
  {
    var from := alloc * ps;
    PageIsThere(x, ps, alloc);
    PageIsThere(y, ps, alloc);
    SameWord(x, y, ps, alloc, 0);
    forall i | 0 <= i < n ensures TableAt(x, ps, alloc, n)[i] == TableAt(y, ps, alloc, n)[i] {
      SameWord(x, y, ps, alloc, 4 + 4 * i);
    }
  }

  lemma SameWord(x: Bytes, y: Bytes, ps: nat, alloc: nat, at: nat)
    requires HasPage(x, ps, alloc) && HasPage(y, ps, alloc) && PageAt(x, ps, alloc) == PageAt(y, ps, alloc) && at + 4 <= ps
    ensures U32At(x, alloc * ps + at) == U32At(y, alloc * ps + at)
  {
    WordOfSlice(x, alloc * ps, ps, at);
    WordOfSlice(y, alloc * ps, ps, at);
  }

  lemma WordOfSlice(b: Bytes, from: nat, n: nat, at: nat)
    requires from + n <= |b| && at + 4 <= n
    ensures U32At(b, from + at) == U32At(b[from..from + n], at)
  {
    var whole, part := b[from + at..from + at + 4], b[from..from + n][at..at + 4];
    assert forall k :: 0 <= k < 4 ==> whole[k] == b[from + at + k] && part[k] == b[from + at + k];
    assert whole == part;
  }

  // ------------------------------------------------------------------ rows

  predicate InTable(entries: seq<Entry>, page: nat) {
    exists i :: 0 <= i < |entries| && entries[i].page == page
  }

  /** The first row for a page: the one an upsert overwrites. */
  function FirstRow(entries: seq<Entry>, page: nat): (i: nat)
    requires InTable(entries, page)
    ensures i < |entries| && entries[i].page == page
    ensures forall k :: 0 <= k < i ==> entries[k].page != page
  {
    if entries[0].page == page then 0 else
      assert InTable(entries[1..], page) by {
        var k :| 0 <= k < |entries| && entries[k].page == page;
        assert entries[1..][k - 1] == entries[k];
      }
      var i := FirstRow(entries[1..], page);
      assert forall k :: 0 < k < i + 1 ==> entries[k] == entries[1..][k - 1];
      i + 1
  }

  /** The last row for a page: the one a reader is left with. */
  function LastRow(entries: seq<Entry>, page: nat): (i: nat)
    requires InTable(entries, page)
    ensures i < |entries| && entries[i].page == page
    ensures forall k :: i < k < |entries| ==> entries[k].page != page
  {
    var n := |entries| - 1;
    if entries[n].page == page then n else
      assert InTable(entries[..n], page) by {
        var k :| 0 <= k < |entries| && entries[k].page == page;
        assert entries[..n][k] == entries[k];
      }
      LastRow(entries[..n], page)
  }

  /** The changes that get a row of their own. */
  function Added(entries: seq<Entry>, changed: seq<Change>): (f: seq<Change>)
    ensures |f| <= |changed|
  {
    if changed == [] then [] else
      var c := changed[|changed| - 1];
      Added(entries, changed[..|changed| - 1]) + if InTable(entries, c.page) then [] else [c]
  }

  /** Rows for pages laid one after another from a position. */
  function Rows(from: nat, added: seq<Change>): (r: seq<Entry>)
    ensures |r| == |added|
  {
    seq(|added|, i requires 0 <= i < |added| => Entry(added[i].page, from + i))
  }

  /** The table an upsert is meant to leave. */
  function NewTable(entries: seq<Entry>, changed: seq<Change>): seq<Entry> {
    entries + Rows(1 + |entries|, Added(entries, changed))
  }

  /** What a row's page becomes: the newest data if it is the first row for its page, else unchanged. */
  function NewPage(before: Bytes, ps: nat, entries: seq<Entry>, i: nat, last: map<nat, Bytes>): Bytes
    requires i < |entries|
  {
    var e := entries[i];
    if e.page in last && FirstRow(entries, e.page) == i then last[e.page] else Page(before, ps, e.pos)
  }

  // ------------------------------------------------------------------ what an upsert leaves

  ghost predicate RowsWritten(before: Bytes, ps: nat, entries: seq<Entry>, last: map<nat, Bytes>, after: Bytes) {
    forall i :: 0 <= i < |entries| ==> Page(after, ps, entries[i].pos) == NewPage(before, ps, entries, i, last)
  }

  ghost predicate AddedWritten(ps: nat, n: nat, added: seq<Change>, after: Bytes) {
    forall j :: 0 <= j < |added| ==> Holds(after, ps, 1 + n + j, added[j].data)
  }

  predicate Holds(b: Bytes, ps: nat, pos: nat, data: Bytes) {
    HasPage(b, ps, pos) && Page(b, ps, pos) == data
  }

  predicate IsRowPos(entries: seq<Entry>, pos: nat) {
    exists i :: 0 <= i < |entries| && entries[i].pos == pos
  }

  /** Positions that hold neither a row's page nor a added one. */
  ghost predicate RestKept(before: Bytes, ps: nat, entries: seq<Entry>, added: nat, after: Bytes) {
    forall pos :: pos > 0 && !IsRowPos(entries, pos) && !(|entries| < pos <= |entries| + added)
      ==> Page(after, ps, pos) == Page(before, ps, pos)
  }

  /** A table of one allocation page, with its added rows. */
  ghost predicate SinglePage(before: Bytes, ps: nat, entries: seq<Entry>, changed: seq<Change>, after: Bytes)
    requires ps >= 8 && HasPage(after, ps, 0)
  {
    var added := Added(entries, changed);
    var count := |entries| + |added|;
    && count <= PerAlloc(ps)
    && CountAt(after, ps, 0) == count
    && TableAt(after, ps, 0, count) == NewTable(entries, changed)
    && (|after| == |before| || |after| <= PageEnd(count, ps))
    && AddedWritten(ps, |entries|, added, after)
    && RowsWritten(before, ps, entries, Last(changed), after)
    && RestKept(before, ps, entries, |added|, after)
  }

  /** A chained table, nothing appended. */
  ghost predicate InPlace(before: Bytes, ps: nat, entries: seq<Entry>, changed: seq<Change>, after: Bytes) {
    && RowsWritten(before, ps, entries, Last(changed), after)
    && RestKept(before, ps, entries, 0, after)
    && Page(after, ps, 0) == Page(before, ps, 0)
  }

  ghost predicate Upserted(before: Bytes, ps: nat, entries: seq<Entry>, changed: seq<Change>, after: Bytes)
    requires ps >= 8
  {
    && |before| <= |after| && HasPage(after, ps, 0)
    && (if |entries| < PerAlloc(ps) then SinglePage(before, ps, entries, changed, after)
        else if Added(entries, changed) == [] then InPlace(before, ps, entries, changed, after)
        else CountAt(after, ps, 0) == |entries| + |Added(entries, changed)|)
  }

  /** Rows stand at distinct positions, none of them an allocation page; on one page, right behind it. */
  ghost predicate Placed(ps: nat, entries: seq<Entry>)
    requires ps >= 8
  {
    && (forall i, j :: 0 <= i < j < |entries| ==> entries[i].pos != entries[j].pos)
    && (forall i :: 0 <= i < |entries| ==> entries[i].pos % (PerAlloc(ps) + 1) != 0)
    && (|entries| < PerAlloc(ps) ==> forall i :: 0 <= i < |entries| ==> entries[i].pos == 1 + i)
  }

  lemma {:induction false} TablePlaced(delta: Bytes, ps: nat, alloc: nat)
    requires ps >= 8 && TableFrom(delta, ps, alloc).Ok? && alloc % (PerAlloc(ps) + 1) == 0
    ensures var t := TableFrom(delta, ps, alloc).value;
            && (forall i :: 0 <= i < |t| ==> t[i].pos > alloc && t[i].pos % (PerAlloc(ps) + 1) != 0)
            && (forall i, j :: 0 <= i < j < |t| ==> t[i].pos < t[j].pos)
            && (|t| < PerAlloc(ps) ==> CountAt(delta, ps, alloc) == |t| && t == TableAt(delta, ps, alloc, |t|))
            && (|t| >= PerAlloc(ps) ==> CountAt(delta, ps, alloc) == PerAlloc(ps))
            && alloc * ps + 4 * |t| + 4 <= |delta|
            && (|t| > PerAlloc(ps) ==> alloc * ps + 4 * |t| + 8 <= |delta|)
    decreases |delta| - alloc * ps
  {
    hide U32At, CountAt, TableAt, PerAlloc;
    var per, count := PerAlloc(ps), CountAt(delta, ps, alloc);
    var here := TableAt(delta, ps, alloc, count);
    RowsHere(delta, ps, alloc, count);
    if count == per {
      PagesApart(ps, alloc, alloc + per + 1);
      NextMultiple(alloc, per + 1);
      TablePlaced(delta, ps, alloc + per + 1);
      MulDistributes(ps, alloc, per + 1);
      FourPer(ps, per + 1);
    }
  }

  lemma RowsHere(delta: Bytes, ps: nat, alloc: nat, count: nat)
    requires ps >= 8 && HasPage(delta, ps, alloc) && count <= PerAlloc(ps) && alloc % (PerAlloc(ps) + 1) == 0
    ensures forall i :: 0 <= i < count ==> TableAt(delta, ps, alloc, count)[i].pos == alloc + 1 + i
    ensures forall i :: 0 <= i < count ==> TableAt(delta, ps, alloc, count)[i].pos % (PerAlloc(ps) + 1) != 0
  {
    hide U32At;
    var d := PerAlloc(ps) + 1;
    forall i | 0 <= i < count ensures TableAt(delta, ps, alloc, count)[i].pos % d != 0 {
      DivBasics(alloc, d);
      DivModUnique(alloc + 1 + i, d, alloc / d, 1 + i);
    }
  }

  lemma NextMultiple(x: nat, d: nat)
    requires d > 0 && x % d == 0
    ensures (x + d) % d == 0
  {
    DivBasics(x, d);
    MulDistributes(d, x / d, 1);
    DivModUnique(x + d, d, x / d + 1, 0);
  }

  lemma FourPer(ps: nat, d: nat)
    requires ps >= 8 && d >= 2
    ensures d * ps >= 4 * (d - 1) + 8
  {
    MulLeft(8, ps, d);
  }

  lemma Pushed(entries: seq<Entry>, front: seq<Change>, c: Change)
    ensures Last(front + [c]) == Last(front)[c.page := c.data]
    ensures Added(entries, front + [c]) == Added(entries, front) + if InTable(entries, c.page) then [] else [c]
  {
    assert (front + [c])[..|front + [c]| - 1] == front;
  }

  // ------------------------------------------------------------------ one step: a row overwritten

  lemma RowOverwritten(before: Bytes, ps: nat, entries: seq<Entry>, front: seq<Change>, c: Change, delta: Bytes)
    requires ps >= 8 && Placed(ps, entries) && InTable(entries, c.page) && |c.data| == ps
    requires RowsWritten(before, ps, entries, Last(front), delta)
    ensures RowsWritten(before, ps, entries, Last(front + [c]),
                        OverlayPage(delta, ps, Change(entries[FirstRow(entries, c.page)].pos, c.data)))
  {
    hide Last, OverlayPage, Page, PerAlloc, Added, NewPage, Placed, FirstRow, InTable;
    var f := FirstRow(entries, c.page);
    var after := OverlayPage(delta, ps, Change(entries[f].pos, c.data));
    Pushed(entries, front, c);
    var last := Last(front + [c]);
    forall i | 0 <= i < |entries| ensures Page(after, ps, entries[i].pos) == NewPage(before, ps, entries, i, last) {
      Written(delta, ps, entries[f].pos, c.data, entries[i].pos);
      DistinctRows(ps, entries, i, f);
      PageRenewed(before, ps, entries, i, Last(front), c);
    }
  }

  lemma DistinctRows(ps: nat, entries: seq<Entry>, i: nat, j: nat)
    requires ps >= 8 && Placed(ps, entries) && i < |entries| && j < |entries|
    ensures entries[i].pos == entries[j].pos <==> i == j
  {
  }

  lemma PageRenewed(before: Bytes, ps: nat, entries: seq<Entry>, i: nat, last: map<nat, Bytes>, c: Change)
    requires i < |entries| && InTable(entries, c.page)
    ensures NewPage(before, ps, entries, i, last[c.page := c.data])
            == if i == FirstRow(entries, c.page) then c.data else NewPage(before, ps, entries, i, last)
  {
  }

  lemma RestOverwritten(before: Bytes, ps: nat, entries: seq<Entry>, added: nat, f: nat, data: Bytes, delta: Bytes)
    requires ps >= 8 && f < |entries| && |data| == ps && RestKept(before, ps, entries, added, delta)
    ensures RestKept(before, ps, entries, added, OverlayPage(delta, ps, Change(entries[f].pos, data)))
  {
    hide OverlayPage, Page;
    var after := OverlayPage(delta, ps, Change(entries[f].pos, data));
    forall pos | pos > 0 && !IsRowPos(entries, pos) && !(|entries| < pos <= |entries| + added)
      ensures Page(after, ps, pos) == Page(before, ps, pos)
    {
      assert pos != entries[f].pos;
      Written(delta, ps, entries[f].pos, data, pos);
    }
  }

  lemma HasPageIn(b: Bytes, c: Bytes, ps: nat, pos: nat)
    requires |b| <= |c| && HasPage(b, ps, pos)
    ensures HasPage(c, ps, pos)
  {
  }

  lemma AddedOverwritten(ps: nat, entries: seq<Entry>, added: seq<Change>, f: nat, data: Bytes, delta: Bytes)
    requires ps >= 8 && |data| == ps && f < |entries| && entries[f].pos <= |entries| && AddedWritten(ps, |entries|, added, delta)
    ensures AddedWritten(ps, |entries|, added, OverlayPage(delta, ps, Change(entries[f].pos, data)))
  {
    hide OverlayPage, Page, HasPage;
    var after := OverlayPage(delta, ps, Change(entries[f].pos, data));
    var n := |entries|;
    forall j | 0 <= j < |added| ensures Holds(after, ps, 1 + n + j, added[j].data) {
      assert Holds(delta, ps, 1 + n + j, added[j].data);
      Written(delta, ps, entries[f].pos, data, 1 + n + j);
      HasPageIn(delta, after, ps, 1 + n + j);
    }
  }

  lemma RowBehindAllocation(ps: nat, entries: seq<Entry>, i: nat)
    requires ps >= 8 && Placed(ps, entries) && i < |entries|
    ensures entries[i].pos > 0 && (|entries| < PerAlloc(ps) ==> entries[i].pos <= |entries|)
  {
    hide PerAlloc;
    var d := PerAlloc(ps) + 1;
    DivModUnique(0, d, 0, 0);
  }

  lemma Overwritten(before: Bytes, ps: nat, entries: seq<Entry>, front: seq<Change>, c: Change, delta: Bytes)
    requires ps >= 8 && Placed(ps, entries) && InTable(entries, c.page) && |c.data| == ps
    requires Upserted(before, ps, entries, front, delta)
    ensures Upserted(before, ps, entries, front + [c], OverlayPage(delta, ps, Change(entries[FirstRow(entries, c.page)].pos, c.data)))
  {
    hide Last, OverlayPage, Page, PerAlloc, CountAt, TableAt, RowsWritten, RestKept, AddedWritten, HasPage, Placed;
    var f := FirstRow(entries, c.page);
    var pos := entries[f].pos;
    var after := OverlayPage(delta, ps, Change(pos, c.data));
    var added := Added(entries, front);
    var count := |entries| + |added|;
    Pushed(entries, front, c);
    assert added + [] == added;
    RowBehindAllocation(ps, entries, f);
    Written(delta, ps, pos, c.data, 0);
    HasPageIn(delta, after, ps, 0);
    if |entries| < PerAlloc(ps) {
      SameAllocation(delta, after, ps, 0, count);
      OverlaidLength(delta, ps, pos, c.data, count);
      RowOverwritten(before, ps, entries, front, c, delta);
      RestOverwritten(before, ps, entries, |added|, f, c.data, delta);
      AddedOverwritten(ps, entries, added, f, c.data, delta);
    } else if added == [] {
      RowOverwritten(before, ps, entries, front, c, delta);
      RestOverwritten(before, ps, entries, 0, f, c.data, delta);
    } else {
      SameAllocation(delta, after, ps, 0, 0);
    }
  }

  lemma OverlaidLength(b: Bytes, ps: nat, pos: nat, data: Bytes, count: nat)
    requires |data| == ps && pos <= count
    ensures var n := |OverlayPage(b, ps, Change(pos, data))|; n == |b| || n <= PageEnd(count, ps)
  {
    MulLeft(pos, count, ps);
  }

  // ------------------------------------------------------------------ one step: a row appended

  /** The row's word and the new count, on the first allocation page. */
  function AppendRow(delta: Bytes, count: nat, page: nat): (r: Bytes)
    requires 8 + 4 * count <= |delta|
    ensures |r| == |delta|
  {
    Splice(Splice(delta, 4 + 4 * count, Le(page, 4)), 0, Le(count + 1, 4))
  }

  lemma WordsAppended(delta: Bytes, count: nat, page: nat, at: nat)
    requires 8 + 4 * count <= |delta| && page < BASE && count + 1 < BASE && at + 4 <= |delta|
    ensures U32At(AppendRow(delta, count, page), 0) == count + 1
    ensures U32At(AppendRow(delta, count, page), 4 + 4 * count) == page
    ensures 4 <= at <= 4 * count || at >= 8 + 4 * count ==> U32At(AppendRow(delta, count, page), at) == U32At(delta, at)
  {
    hide Splice, Le, LeVal;
    var row := 4 + 4 * count;
    var mid := Splice(delta, row, Le(page, 4));
    SplicedWord(delta, row, page);
    SplicedWord(mid, 0, count + 1);
    SpliceKeeps(mid, 0, Le(count + 1, 4), row, row + 4);
    if 4 <= at <= 4 * count || at >= 8 + 4 * count {
      SpliceKeeps(delta, row, Le(page, 4), at, at + 4);
      SpliceKeeps(mid, 0, Le(count + 1, 4), at, at + 4);
    }
  }

  lemma TableAppended(delta: Bytes, ps: nat, count: nat, page: nat)
    requires ps >= 8 && HasPage(delta, ps, 0) && count < PerAlloc(ps) && page < BASE && count + 1 < BASE
    ensures CountAt(AppendRow(delta, count, page), ps, 0) == count + 1
    ensures TableAt(AppendRow(delta, count, page), ps, 0, count + 1) == TableAt(delta, ps, 0, count) + [Entry(page, 1 + count)]
  {
    hide U32At, AppendRow;
    var after := AppendRow(delta, count, page);
    var t, u := TableAt(delta, ps, 0, count), TableAt(after, ps, 0, count + 1);
    WordsAppended(delta, count, page, 0);
    forall i | 0 <= i < count ensures u[i] == t[i] {
      WordsAppended(delta, count, page, 4 + 4 * i);
    }
    assert u[count] == Entry(page, 1 + count);
  }

  lemma PagesAppended(delta: Bytes, ps: nat, count: nat, page: nat, pos: nat)
    requires ps >= 8 && HasPage(delta, ps, 0) && count < PerAlloc(ps) && pos > 0
    ensures Page(AppendRow(delta, count, page), ps, pos) == Page(delta, ps, pos)
  {
    hide Le;
    MulLeft(1, pos, ps);
    var row := 4 + 4 * count;
    var mid, after := Splice(delta, row, Le(page, 4)), AppendRow(delta, count, page);
    forall k | 0 <= k < ps ensures Page(after, ps, pos)[k] == Page(delta, ps, pos)[k] {
      var at := pos * ps + k;
      assert at >= row + 4;
      assert at < |delta| ==> mid[at] == delta[at] && after[at] == mid[at];
      assert ByteAt(after, at) == ByteAt(delta, at);
      assert Page(after, ps, pos)[k] == ByteAt(after, at) && Page(delta, ps, pos)[k] == ByteAt(delta, at);
    }
  }

  /** What the page of a new row does to the rest of the file. */
  function Appended(delta: Bytes, ps: nat, count: nat, c: Change): Bytes
    requires 8 + 4 * count <= |delta| && |c.data| == ps
  {
    OverlayPage(AppendRow(delta, count, c.page), ps, Change(1 + count, c.data))
  }

  lemma PagesAfterAppend(delta: Bytes, ps: nat, count: nat, c: Change, pos: nat)
    requires ps >= 8 && HasPage(delta, ps, 0) && count < PerAlloc(ps) && pos > 0 && |c.data| == ps
    ensures Page(Appended(delta, ps, count, c), ps, pos) == if pos == 1 + count then c.data else Page(delta, ps, pos)
  {
    hide OverlayPage, Page, AppendRow;
    Written(AppendRow(delta, count, c.page), ps, 1 + count, c.data, pos);
    PagesAppended(delta, ps, count, c.page, pos);
  }

  lemma TableAfterAppend(delta: Bytes, ps: nat, count: nat, c: Change)
    requires ps >= 8 && HasPage(delta, ps, 0) && count < PerAlloc(ps) && c.page < BASE && count + 1 < BASE && |c.data| == ps
    ensures var after := Appended(delta, ps, count, c);
            && |delta| <= |after| && HasPage(after, ps, 0) && HasPage(after, ps, 1 + count)
            && CountAt(after, ps, 0) == count + 1
            && TableAt(after, ps, 0, count + 1) == TableAt(delta, ps, 0, count) + [Entry(c.page, 1 + count)]
            && (|after| == |delta| || |after| <= PageEnd(1 + count, ps))
  {
    hide OverlayPage, Page, AppendRow, PerAlloc, TableAt, CountAt;
    var mid, after := AppendRow(delta, count, c.page), Appended(delta, ps, count, c);
    TableAppended(delta, ps, count, c.page);
    Written(mid, ps, 1 + count, c.data, 0);
    SameAllocation(mid, after, ps, 0, count + 1);
    OverlaidLength(mid, ps, 1 + count, c.data, 1 + count);
  }

  lemma RowsAfterAppend(before: Bytes, ps: nat, entries: seq<Entry>, front: seq<Change>, c: Change, delta: Bytes, count: nat)
    requires ps >= 8 && HasPage(delta, ps, 0) && |entries| <= count < PerAlloc(ps) && |c.data| == ps && Placed(ps, entries)
    requires !InTable(entries, c.page) && RowsWritten(before, ps, entries, Last(front), delta)
    ensures RowsWritten(before, ps, entries, Last(front + [c]), Appended(delta, ps, count, c))
  {
    hide Last, Appended, Page, PerAlloc, Added, Placed;
    Pushed(entries, front, c);
    var after, last := Appended(delta, ps, count, c), Last(front + [c]);
    forall i | 0 <= i < |entries| ensures Page(after, ps, entries[i].pos) == NewPage(before, ps, entries, i, last) {
      RowBehindAllocation(ps, entries, i);
      PagesAfterAppend(delta, ps, count, c, entries[i].pos);
      assert entries[i].page != c.page;
      assert NewPage(before, ps, entries, i, last) == NewPage(before, ps, entries, i, Last(front));
    }
  }

  lemma RestAfterAppend(before: Bytes, ps: nat, entries: seq<Entry>, added: nat, c: Change, delta: Bytes)
    requires ps >= 8 && HasPage(delta, ps, 0) && |entries| + added < PerAlloc(ps) && |c.data| == ps
    requires RestKept(before, ps, entries, added, delta)
    ensures RestKept(before, ps, entries, added + 1, Appended(delta, ps, |entries| + added, c))
  {
    hide Appended, Page, PerAlloc;
    var after := Appended(delta, ps, |entries| + added, c);
    forall pos | pos > 0 && !IsRowPos(entries, pos) && !(|entries| < pos <= |entries| + added + 1)
      ensures Page(after, ps, pos) == Page(before, ps, pos)
    {
      PagesAfterAppend(delta, ps, |entries| + added, c, pos);
    }
  }

  lemma AddedAfterAppend(ps: nat, n: nat, added: seq<Change>, c: Change, delta: Bytes)
    requires ps >= 8 && HasPage(delta, ps, 0) && n + |added| < PerAlloc(ps) && |c.data| == ps && AddedWritten(ps, n, added, delta)
    requires c.page < BASE && n + |added| + 1 < BASE
    ensures AddedWritten(ps, n, added + [c], Appended(delta, ps, n + |added|, c))
  {
    hide Appended, Page, PerAlloc, CountAt, TableAt;
    var count := n + |added|;
    var after := Appended(delta, ps, count, c);
    TableAfterAppend(delta, ps, count, c);
    PagesAfterAppend(delta, ps, count, c, 1 + count);
    forall j | 0 <= j < |added| ensures Holds(after, ps, 1 + n + j, added[j].data) {
      assert Holds(delta, ps, 1 + n + j, added[j].data);
      PagesAfterAppend(delta, ps, count, c, 1 + n + j);
      HasPageIn(delta, after, ps, 1 + n + j);
    }
    assert Holds(after, ps, 1 + n + |added|, c.data);
  }

  lemma RowAdded(before: Bytes, ps: nat, entries: seq<Entry>, front: seq<Change>, c: Change, delta: Bytes)
    requires ps >= 8 && Placed(ps, entries) && !InTable(entries, c.page) && |c.data| == ps && c.page < BASE
    requires Upserted(before, ps, entries, front, delta)
    requires |entries| + |Added(entries, front)| < PerAlloc(ps) < BASE
    ensures Upserted(before, ps, entries, front + [c], Appended(delta, ps, |entries| + |Added(entries, front)|, c))
  {
    hide Last, Appended, Page, CountAt, TableAt, RowsWritten, RestKept, AddedWritten, HasPage, Placed, PerAlloc, Added;
    hide NewTable, Rows, U32At, InTable, PageEnd;
    var added := Added(entries, front);
    var n, count := |entries|, |entries| + |added|;
    Pushed(entries, front, c);
    TableAfterAppend(delta, ps, count, c);
    RowsAfterAppend(before, ps, entries, front, c, delta, count);
    RestAfterAppend(before, ps, entries, |added|, c, delta);
    AddedAfterAppend(ps, n, added, c, delta);
    TablePushed(entries, front, c);
    EndsInOrder(count, ps);
  }

  lemma EndsInOrder(count: nat, ps: nat)
    ensures PageEnd(count, ps) <= PageEnd(1 + count, ps)
  {
    MulLeft(count, 1 + count, ps);
  }

  lemma TablePushed(entries: seq<Entry>, front: seq<Change>, c: Change)
    requires !InTable(entries, c.page)
    ensures NewTable(entries, front + [c])
            == NewTable(entries, front) + [Entry(c.page, 1 + |entries| + |Added(entries, front)|)]
  {
    hide Added, InTable, Rows, NewTable, Last;
    Pushed(entries, front, c);
    var from, added := 1 + |entries|, Added(entries, front);
    TableIs(entries, front);
    TableIs(entries, front + [c]);
    RowsPushed(from, added, c);
    ConcatAssociative(entries, Rows(from, added), [Entry(c.page, from + |added|)]);
  }

  lemma TableIs(entries: seq<Entry>, changed: seq<Change>)
    ensures NewTable(entries, changed) == entries + Rows(1 + |entries|, Added(entries, changed))
  {
  }

  lemma RowsPushed(from: nat, added: seq<Change>, c: Change)
    ensures Rows(from, added + [c]) == Rows(from, added) + [Entry(c.page, from + |added|)]
  {
  }

  lemma ConcatAssociative<T>(a: seq<T>, b: seq<T>, c: seq<T>)
    ensures a + (b + c) == (a + b) + c
  {
  }

  /** A chained table: the row lands past the allocation page, and the count becomes impossible. */
  lemma RowLost(before: Bytes, ps: nat, entries: seq<Entry>, front: seq<Change>, c: Change, delta: Bytes)
    requires ps >= 8 && !InTable(entries, c.page) && |c.data| == ps && c.page < BASE
    requires Upserted(before, ps, entries, front, delta)
    requires |entries| > PerAlloc(ps) && |entries| + |Added(entries, front)| + 1 < BASE
    requires 8 + 4 * (|entries| + |Added(entries, front)|) <= |delta|
    ensures Upserted(before, ps, entries, front + [c], Appended(delta, ps, |entries| + |Added(entries, front)|, c))
  {
    hide Last, OverlayPage, AppendRow, Page, TableAt, RowsWritten, RestKept, AddedWritten, Placed, PerAlloc, Added, U32At;
    var count := |entries| + |Added(entries, front)|;
    var mid := AppendRow(delta, count, c.page);
    Pushed(entries, front, c);
    WordsAppended(delta, count, c.page, 0);
    Written(mid, ps, 1 + count, c.data, 0);
    SameAllocation(mid, Appended(delta, ps, count, c), ps, 0, 0);
  }

  // ------------------------------------------------------------------ the whole upsert

  lemma NothingUpserted(before: Bytes, ps: nat, entries: seq<Entry>)
    requires Table(before, ps) == Ok(entries)
    ensures Upserted(before, ps, entries, [], before) && Placed(ps, entries)
    ensures |entries| != PerAlloc(ps) ==> 8 + 4 * |entries| <= |before|
  {
    hide U32At, CountAt, TableAt, PerAlloc, Page;
    DivModUnique(0, PerAlloc(ps) + 1, 0, 0);
    TablePlaced(before, ps, 0);
    assert entries + Rows(1 + |entries|, []) == entries;
    if |entries| < PerAlloc(ps) {
      DivModUnique(0, PerAlloc(ps) + 1, 0, 0);
      RowsHere(before, ps, 0, |entries|);
    }
  }

  /** `entries.iter().find(..)`: the position of the first row for a page. */
  method Find(entries: seq<Entry>, page: nat) returns (pos: Result<nat>)
    ensures pos.Ok? <==> InTable(entries, page)
    ensures pos.Ok? ==> pos.value == entries[FirstRow(entries, page)].pos
  {
    for i := 0 to |entries|
      invariant forall k :: 0 <= k < i ==> entries[k].page != page
    {
      if entries[i].page == page {
        return Ok(entries[i].pos);
      }
    }
    pos := Err("no such row");
  }

  /** The changes an upsert accepts. */
  predicate Acceptable(ps: nat, entries: seq<Entry>, changed: seq<Change>)
    requires ps >= 8
  {
    && PageSized(changed, ps)
    && (|entries| == PerAlloc(ps) ==> changed == [])
    && (|entries| < PerAlloc(ps) ==> |entries| + |Added(entries, changed)| <= PerAlloc(ps))
  }

  lemma {:induction false} AddedPrefix(entries: seq<Entry>, changed: seq<Change>, k: nat)
    requires k <= |changed|
    ensures |Added(entries, changed[..k])| <= |Added(entries, changed)|
    decreases |changed|
  {
    if k == |changed| {
      assert changed[..k] == changed;
    } else {
      AddedPrefix(entries, changed[..|changed| - 1], k);
      assert changed[..|changed| - 1][..k] == changed[..k];
    }
  }

  /** Room for one more change after some accepted ones. */
  lemma OneMore(ps: nat, entries: seq<Entry>, changed: seq<Change>, k: nat)
    requires ps >= 8 && k < |changed|
    ensures changed[..k + 1] == changed[..k] + [changed[k]]
    ensures |changed[k].data| != ps ==> !Acceptable(ps, entries, changed)
    ensures |entries| < PerAlloc(ps) && !InTable(entries, changed[k].page) && Acceptable(ps, entries, changed)
            ==> |entries| + |Added(entries, changed[..k])| < PerAlloc(ps)
  {
    assert changed[..k + 1] == changed[..k] + [changed[k]];
    Pushed(entries, changed[..k], changed[k]);
    AddedPrefix(entries, changed, k + 1);
  }

  lemma LongerAfter(b: Bytes, ps: nat, pos: nat, data: Bytes)
    requires |data| == ps
    ensures |b| <= |OverlayPage(b, ps, Change(pos, data))|
  {
  }

  /** An append, on the first allocation page or past it. */
  lemma RowStep(before: Bytes, ps: nat, entries: seq<Entry>, front: seq<Change>, c: Change, delta: Bytes)
    requires ps >= 8 && Placed(ps, entries) && !InTable(entries, c.page) && |c.data| == ps && c.page < BASE
    requires Upserted(before, ps, entries, front, delta) && |entries| != PerAlloc(ps) && PerAlloc(ps) < BASE
    requires |entries| < PerAlloc(ps) ==> |entries| + |Added(entries, front)| < PerAlloc(ps)
    requires |entries| > PerAlloc(ps) ==> 8 + 4 * (|entries| + |Added(entries, front)|) <= |delta|
    requires |entries| + |Added(entries, front)| + 1 < BASE
    ensures var count := |entries| + |Added(entries, front)|;
            && 8 + 4 * count <= |delta|
            && Upserted(before, ps, entries, front + [c], Appended(delta, ps, count, c))
            && 8 + 4 * (count + 1) <= |Appended(delta, ps, count, c)|
  {
    hide Added, Upserted, Placed, Page, AppendRow, OverlayPage, PerAlloc, InTable;
    var count := |entries| + |Added(entries, front)|;
    if |entries| < PerAlloc(ps) {
      FirstPageThere(before, ps, entries, front, delta);
      RowAdded(before, ps, entries, front, c, delta);
    } else {
      RowLost(before, ps, entries, front, c, delta);
    }
    Written(AppendRow(delta, count, c.page), ps, 1 + count, c.data, 0);
    MulLeft(8, ps, 2 + count);
    MulDistributes(ps, 1 + count, 1);
  }

  lemma FirstPageThere(before: Bytes, ps: nat, entries: seq<Entry>, front: seq<Change>, delta: Bytes)
    requires ps >= 8 && Upserted(before, ps, entries, front, delta)
    ensures HasPage(delta, ps, 0)
  {
  }

  lemma BigEnough(file: Bytes, ps: nat)
    requires Table(file, ps).Ok?
    ensures ps >= 8
  {
  }

  /** The file one change later, byte for byte: the row's page overwritten, or - as long as the row's
      word is inside the file - a row and its page added. */
  function OneLaid(delta: Bytes, ps: nat, entries: seq<Entry>, count: nat, c: Change): Bytes
    requires |c.data| == ps
  {
    if InTable(entries, c.page) then OverlayPage(delta, ps, Change(entries[FirstRow(entries, c.page)].pos, c.data))
    else if 8 + 4 * count <= |delta| then Appended(delta, ps, count, c)
    else delta
  }

  function AllLaid(before: Bytes, ps: nat, entries: seq<Entry>, changed: seq<Change>): Bytes
    requires forall c :: c in changed ==> |c.data| == ps
  {
    if changed == [] then before else
      var n := |changed| - 1;
      OneLaid(AllLaid(before, ps, entries, changed[..n]), ps, entries, |entries| + |Added(entries, changed[..n])|, changed[n])
  }

  lemma NothingLaid(before: Bytes, ps: nat, entries: seq<Entry>)
    ensures AllLaid(before, ps, entries, []) == before
  {
  }

  lemma LaidPushed(before: Bytes, ps: nat, entries: seq<Entry>, front: seq<Change>, c: Change)
    requires (forall d :: d in front ==> |d.data| == ps) && |c.data| == ps
    ensures AllLaid(before, ps, entries, front + [c])
            == OneLaid(AllLaid(before, ps, entries, front), ps, entries, |entries| + |Added(entries, front)|, c)
  {
    hide OneLaid, Added, InTable, OverlayPage, Appended;
    var all := front + [c];
    assert all[..|all| - 1] == front && all[|all| - 1] == c && all != [];
  }

  /** `upsert_delta_pages` on the bytes of the file: it succeeds exactly on acceptable changes. */
  method UpsertDeltaPages(file: Bytes, ps: nat, changed: seq<Change>) returns (r: Result<Bytes>)
    requires ps < BASE && forall i :: 0 <= i < |changed| ==> changed[i].page < BASE
    requires Table(file, ps).Ok? ==> |Table(file, ps).value| + |changed| < BASE
    ensures r.Ok? <==> Table(file, ps).Ok? && Acceptable(ps, Table(file, ps).value, changed)
    ensures r.Ok? ==> Upserted(file, ps, Table(file, ps).value, changed, r.value)
    ensures r.Ok? ==> (forall c :: c in changed ==> |c.data| == ps) && r.value == AllLaid(file, ps, Table(file, ps).value, changed)
  {
    hide AllLaid, InTable, Upserted;
    hide Table, Last, Page, CountAt, TableAt, SinglePage, InPlace, Placed, PerAlloc, Added, HasPage, OverlayPage, AppendRow;
    var read := DeltaEntries(file, ps);
    if read.Err? {
      return Err(read.reason);
    }
    var entries := read.value;
    BigEnough(file, ps);
    var per := PerAlloc(ps);
    var delta, count := file, |entries|;
    if count == per && changed != [] {
      return Err("the difference file's first allocation page is full");
    }
    NothingUpserted(file, ps, entries);
    NothingLaid(file, ps, entries);
    for k := 0 to |changed|
      invariant Upserted(file, ps, entries, changed[..k], delta)
      invariant count == |entries| + |Added(entries, changed[..k])|
      invariant forall i :: 0 <= i < k ==> |changed[i].data| == ps
      invariant delta == AllLaid(file, ps, entries, changed[..k])
      invariant |entries| < per ==> count <= per
      invariant |entries| > per ==> 8 + 4 * count <= |delta|
    {
      var c := changed[k];
      OneMore(ps, entries, changed, k);
      Pushed(entries, changed[..k], c);
      if |c.data| != ps {
        return Err("a page of the wrong size");
      }
      LaidPushed(file, ps, entries, changed[..k], c);
      assert changed[..k + 1] == changed[..k] + [c];
      var found := Find(entries, c.page);
      var pos;
      if found.Ok? {
        pos := found.value;
        Overwritten(file, ps, entries, changed[..k], c, delta);
        LongerAfter(delta, ps, pos, c.data);
      } else {
        if count == per {
          return Err("the difference file's first allocation page is full");
        }
        RowStep(file, ps, entries, changed[..k], c, delta);
        delta := AppendRow(delta, count, c.page);
        pos := 1 + count;
        count := count + 1;
      }
      delta := OverlayPage(delta, ps, Change(pos, c.data));
    }
    assert changed[..|changed|] == changed;
    r := Ok(delta);
  }
}
