/** When a difference file reads back as the old pages under the new ones: after one upsert, exactly,
    and over every run of upserts from the empty table that begins a backup. */
module DeltaRuns {
  import opened Words
  import opened Power
  import opened ByteStrings
  import opened LittleEndian
  import opened DeltaFile
  import opened DeltaUpsert

  // ------------------------------------------------------------------ the table after an upsert

  /** The table survives: nothing was appended, or the first page still has a free row, or a full
      first page is followed by a second one that says it is empty. */
  predicate TableStays(before: Bytes, ps: nat, entries: seq<Entry>, changed: seq<Change>)
    requires ps >= 8
  {
    var per, added := PerAlloc(ps), |Added(entries, changed)|;
    || added == 0
    || |entries| + added < per
    || (|entries| + added == per && HasPage(before, ps, per + 1) && CountAt(before, ps, per + 1) == 0)
  }

  /** After an accepted upsert the reader sees the intended table exactly when the table survives. A
      full table sends it to a page that need not be there, and a chained table is destroyed by an
      append. */
  lemma TableAfterUpsert(before: Bytes, ps: nat, entries: seq<Entry>, changed: seq<Change>, after: Bytes)
    requires Table(before, ps) == Ok(entries) && Acceptable(ps, entries, changed) && Upserted(before, ps, entries, changed, after)
    ensures Table(after, ps) == Ok(NewTable(entries, changed)) <==> TableStays(before, ps, entries, changed)
    ensures |entries| > PerAlloc(ps) && Added(entries, changed) != [] ==> Table(after, ps).Err?
    ensures |entries| < PerAlloc(ps) && |entries| + |Added(entries, changed)| == PerAlloc(ps) && !HasPage(before, ps, PerAlloc(ps) + 1)
            ==> Table(after, ps).Err?
  {
    hide U32At, Page, PerAlloc, TableAt, CountAt, RowsWritten, AddedWritten, Last, Added;
    NothingUpserted(before, ps, entries);
    var per, added := PerAlloc(ps), Added(entries, changed);
    var count := |entries| + |added|;
    if |entries| < per {
      if count == per {
        FullTable(before, ps, entries, changed, after);
      }
    } else if added == [] {
      ChainKept(before, ps, entries, after);
      assert entries + Rows(1 + |entries|, added) == entries;
    }
  }

  lemma FullTable(before: Bytes, ps: nat, entries: seq<Entry>, changed: seq<Change>, after: Bytes)
    requires ps >= 8 && |before| <= |after| && HasPage(after, ps, 0) && Placed(ps, entries) && |entries| < PerAlloc(ps)
    requires SinglePage(before, ps, entries, changed, after) && |entries| + |Added(entries, changed)| == PerAlloc(ps)
    ensures HasPage(before, ps, PerAlloc(ps) + 1) <==> HasPage(after, ps, PerAlloc(ps) + 1)
    ensures !HasPage(before, ps, PerAlloc(ps) + 1) ==> Table(after, ps).Err?
    ensures Table(after, ps) == Ok(NewTable(entries, changed))
            <==> HasPage(before, ps, PerAlloc(ps) + 1) && CountAt(before, ps, PerAlloc(ps) + 1) == 0
  {
    hide U32At, Page, PerAlloc, TableAt, CountAt, RowsWritten, AddedWritten, Last, Added, NewTable;
    var per := PerAlloc(ps);
    var next := per + 1;
    MulDistributes(ps, per, 1);
    MulDistributes(ps, next, 1);
    var t, rest := TableAt(after, ps, 0, per), TableFrom(after, ps, next);
    assert Table(after, ps) == Prepend(t, rest) by {
      assert HasPage(after, ps, 0) && CountAt(after, ps, 0) == per;
      assert 0 + per + 1 == next;
    }
    EmptyFrom(after, ps, next);
    assert rest.Ok? && rest.value == [] ==> t + rest.value == t;
    if HasPage(before, ps, next) {
      SecondPage(before, ps, entries, |Added(entries, changed)|, after);
    }
  }

  lemma EmptyFrom(b: Bytes, ps: nat, alloc: nat)
    requires ps >= 8
    ensures TableFrom(b, ps, alloc) == Ok([]) <==> HasPage(b, ps, alloc) && CountAt(b, ps, alloc) == 0
    ensures !HasPage(b, ps, alloc) ==> TableFrom(b, ps, alloc).Err?
  {
    hide U32At;
  }

  lemma SecondPage(before: Bytes, ps: nat, entries: seq<Entry>, added: nat, after: Bytes)
    requires ps >= 8 && |before| <= |after| && Placed(ps, entries) && |entries| < PerAlloc(ps)
    requires RestKept(before, ps, entries, added, after) && |entries| + added == PerAlloc(ps)
    requires HasPage(before, ps, PerAlloc(ps) + 1)
    ensures HasPage(after, ps, PerAlloc(ps) + 1) && CountAt(after, ps, PerAlloc(ps) + 1) == CountAt(before, ps, PerAlloc(ps) + 1)
  {
    hide U32At, Page, PerAlloc, TableAt, CountAt;
    var next := PerAlloc(ps) + 1;
    assert !IsRowPos(entries, next);
    SameAllocation(before, after, ps, next, 0);
  }

  lemma ChainKept(before: Bytes, ps: nat, entries: seq<Entry>, after: Bytes)
    requires Table(before, ps) == Ok(entries) && |before| <= |after| && Placed(ps, entries)
    requires RestKept(before, ps, entries, 0, after) && Page(after, ps, 0) == Page(before, ps, 0)
    ensures Table(after, ps) == Ok(entries)
  {
    hide PerAlloc, Page, CountAt, TableAt;
    var d := PerAlloc(ps) + 1;
    DivModUnique(0, d, 0, 0);
    forall pos: nat | pos % d == 0 ensures Page(after, ps, pos) == Page(before, ps, pos) {
      assert !IsRowPos(entries, pos);
    }
    ChainSame(before, ps, after, 0);
  }

  lemma {:induction false} ChainSame(before: Bytes, ps: nat, after: Bytes, alloc: nat)
    requires ps >= 8 && |before| <= |after| && TableFrom(before, ps, alloc).Ok? && alloc % (PerAlloc(ps) + 1) == 0
    requires forall pos: nat :: pos % (PerAlloc(ps) + 1) == 0 ==> Page(after, ps, pos) == Page(before, ps, pos)
    ensures TableFrom(after, ps, alloc) == TableFrom(before, ps, alloc)
    decreases |before| - alloc * ps
  {
    hide PerAlloc, Page, CountAt, TableAt;
    var per := PerAlloc(ps);
    SameAllocation(before, after, ps, alloc, CountAt(before, ps, alloc));
    if CountAt(before, ps, alloc) == per {
      PagesApart(ps, alloc, alloc + per + 1);
      NextMultiple(alloc, per + 1);
      ChainSame(before, ps, after, alloc + per + 1);
    }
  }

  // ------------------------------------------------------------------ what the table names

  lemma {:induction false} LastOfWrites(b: Bytes, ps: nat, entries: seq<Entry>, page: nat)
    requires Complete(b, ps, entries)
    ensures page in Last(Writes(b, ps, entries)) <==> InTable(entries, page)
    ensures InTable(entries, page) ==> Last(Writes(b, ps, entries))[page] == Page(b, ps, entries[LastRow(entries, page)].pos)
  {
    if entries != [] {
      hide PageAt, Page;
      var n := |entries| - 1;
      var w := Writes(b, ps, entries);
      assert w[..n] == Writes(b, ps, entries[..n]);
      PageIsThere(b, ps, entries[n].pos);
      LastOfWrites(b, ps, entries[..n], page);
      assert InTable(entries, page) <==> entries[n].page == page || InTable(entries[..n], page) by {
        if InTable(entries[..n], page) {
          var k :| 0 <= k < n && entries[..n][k].page == page;
          assert entries[k].page == page;
        }
        if InTable(entries, page) && entries[n].page != page {
          var k :| 0 <= k < |entries| && entries[k].page == page;
          assert entries[..n][k].page == page;
        }
      }
    }
  }

  lemma {:induction false} LastOfAdded(entries: seq<Entry>, changed: seq<Change>)
    ensures forall p :: p in Last(Added(entries, changed)) <==> p in Last(changed) && !InTable(entries, p)
    ensures forall p :: p in Last(Added(entries, changed)) ==> Last(Added(entries, changed))[p] == Last(changed)[p]
  {
    if changed != [] {
      hide InTable;
      var front, c := changed[..|changed| - 1], changed[|changed| - 1];
      LastOfAdded(entries, front);
      var a := Added(entries, front);
      if !InTable(entries, c.page) {
        assert (a + [c])[..|a + [c]| - 1] == a;
      } else {
        assert a + [] == a;
      }
    }
  }

  /** No changed page is left stale: a page with several rows is overwritten in its first row but read
      from its last, which is right only if that one already held the new data. */
  predicate NothingStale(before: Bytes, ps: nat, entries: seq<Entry>, changed: seq<Change>) {
    forall p :: p in Last(changed) && InTable(entries, p) ==>
      LastRow(entries, p) == FirstRow(entries, p) || Page(before, ps, entries[LastRow(entries, p)].pos) == Last(changed)[p]
  }

  lemma CompleteAfter(before: Bytes, ps: nat, entries: seq<Entry>, changed: seq<Change>, after: Bytes)
    requires ps >= 8 && Complete(before, ps, entries) && |before| <= |after|
    requires AddedWritten(ps, |entries|, Added(entries, changed), after)
    ensures Complete(after, ps, entries) && Complete(after, ps, NewTable(entries, changed))
    ensures Writes(after, ps, NewTable(entries, changed)) == Writes(after, ps, entries) + Added(entries, changed)
  {
    hide Page, PageAt, Added;
    var n, added := |entries|, Added(entries, changed);
    var all := NewTable(entries, changed);
    forall i | 0 <= i < |all| ensures HasPage(after, ps, all[i].pos) {
      if i >= n {
        assert Holds(after, ps, 1 + n + (i - n), added[i - n].data);
      } else {
        HasPageIn(before, after, ps, entries[i].pos);
      }
    }
    assert forall i :: 0 <= i < n ==> all[i] == entries[i];
    var w := Writes(after, ps, all);
    forall j | 0 <= j < |added| ensures w[n + j] == added[j] {
      assert Holds(after, ps, 1 + n + j, added[j].data);
      PageIsThere(after, ps, 1 + n + j);
    }
    assert w == Writes(after, ps, entries) + added;
  }

  /** What is written: for a table of one page, or one with nothing appended. */
  ghost predicate Written(before: Bytes, ps: nat, entries: seq<Entry>, changed: seq<Change>, after: Bytes) {
    && |before| <= |after|
    && RowsWritten(before, ps, entries, Last(changed), after)
    && AddedWritten(ps, |entries|, Added(entries, changed), after)
  }

  lemma UpsertWrites(before: Bytes, ps: nat, entries: seq<Entry>, changed: seq<Change>, after: Bytes)
    requires ps >= 8 && Upserted(before, ps, entries, changed, after)
    requires |entries| < PerAlloc(ps) || Added(entries, changed) == []
    ensures Written(before, ps, entries, changed, after)
  {
  }

  lemma PagesNamed(before: Bytes, ps: nat, entries: seq<Entry>, changed: seq<Change>, after: Bytes, p: nat)
    requires ps >= 8 && Complete(before, ps, entries) && Written(before, ps, entries, changed, after)
    requires Complete(after, ps, NewTable(entries, changed))
    ensures var l := Last(Writes(after, ps, NewTable(entries, changed))); var r := Last(Writes(before, ps, entries)) + Last(changed);
            && (p in l <==> p in r)
            && (p in l ==> (l[p] == r[p] <==> (p in Last(changed) && InTable(entries, p) ==>
                  LastRow(entries, p) == FirstRow(entries, p)
                  || Page(before, ps, entries[LastRow(entries, p)].pos) == Last(changed)[p])))
  {
    hide Page, Added, Writes, Last, InTable, LastRow, FirstRow;
    CompleteAfter(before, ps, entries, changed, after);
    LastOfConcat(Writes(after, ps, entries), Added(entries, changed));
    LastOfAdded(entries, changed);
    LastOfWrites(before, ps, entries, p);
    LastOfWrites(after, ps, entries, p);
    if InTable(entries, p) {
      var i := LastRow(entries, p);
      assert Page(after, ps, entries[i].pos) == NewPage(before, ps, entries, i, Last(changed));
    }
  }

  /** The pages a reader is left with are the old ones under the new ones exactly when nothing is stale. */
  lemma ContentsAfterUpsert(before: Bytes, ps: nat, entries: seq<Entry>, changed: seq<Change>, after: Bytes)
    requires ps >= 8 && Complete(before, ps, entries) && Written(before, ps, entries, changed, after)
    ensures Complete(after, ps, NewTable(entries, changed))
    ensures Last(Writes(after, ps, NewTable(entries, changed))).Keys == (Last(Writes(before, ps, entries)) + Last(changed)).Keys
    ensures Last(Writes(after, ps, NewTable(entries, changed))) == Last(Writes(before, ps, entries)) + Last(changed)
            <==> NothingStale(before, ps, entries, changed)
  {
    hide Page, Added, Writes, Last, InTable, LastRow, FirstRow, Written, NewTable;
    assert |before| <= |after| && AddedWritten(ps, |entries|, Added(entries, changed), after) by {
      WrittenParts(before, ps, entries, changed, after);
    }
    CompleteAfter(before, ps, entries, changed, after);
    var l, r := Last(Writes(after, ps, NewTable(entries, changed))), Last(Writes(before, ps, entries)) + Last(changed);
    forall p: nat ensures (p in l <==> p in r) {
      PagesNamed(before, ps, entries, changed, after, p);
    }
    assert l.Keys == r.Keys;
    if NothingStale(before, ps, entries, changed) {
      forall p | p in l ensures l[p] == r[p] {
        PagesNamed(before, ps, entries, changed, after, p);
      }
    } else {
      var p :| p in Last(changed) && InTable(entries, p) && LastRow(entries, p) != FirstRow(entries, p)
               && Page(before, ps, entries[LastRow(entries, p)].pos) != Last(changed)[p];
      PagesNamed(before, ps, entries, changed, after, p);
      assert p in r;
    }
  }

  lemma WrittenParts(before: Bytes, ps: nat, entries: seq<Entry>, changed: seq<Change>, after: Bytes)
    requires Written(before, ps, entries, changed, after)
    ensures |before| <= |after| && AddedWritten(ps, |entries|, Added(entries, changed), after)
  {
  }

  // ------------------------------------------------------------------ reading after writing

  /** Upsert, then apply: on every image, the old pages and then the changed ones, exactly when nothing
      is stale. */
  lemma UpsertThenApply(image: Bytes, before: Bytes, ps: nat, entries: seq<Entry>, changed: seq<Change>, after: Bytes)
    requires ps >= 8 && Complete(before, ps, entries) && Written(before, ps, entries, changed, after) && PageSized(changed, ps)
    ensures Complete(after, ps, NewTable(entries, changed))
    ensures Overlay(image, ps, Writes(after, ps, NewTable(entries, changed)))
            == Overlay(Overlay(image, ps, Writes(before, ps, entries)), ps, changed)
            <==> NothingStale(before, ps, entries, changed)
  {
    hide Page, Added, Last, Written, NewTable, Overlay, NothingStale;
    ContentsAfterUpsert(before, ps, entries, changed, after);
    var w, v := Writes(after, ps, NewTable(entries, changed)), Writes(before, ps, entries) + changed;
    OverlayConcat(image, ps, Writes(before, ps, entries), changed);
    LastOfConcat(Writes(before, ps, entries), changed);
    if NothingStale(before, ps, entries, changed) {
      OverlayByLast(image, ps, w, v);
    } else {
      LastSized(w, ps);
      LastSized(v, ps);
      var p :| p in Last(w) && Last(w)[p] != Last(v)[p];
      OverlaysDiffer(image, ps, w, v, p);
    }
  }

  lemma OverlaysDiffer(image: Bytes, ps: nat, w: seq<Change>, v: seq<Change>, p: nat)
    requires ps > 0 && PageSized(w, ps) && PageSized(v, ps) && p in Last(w) && p in Last(v) && Last(w)[p] != Last(v)[p]
    ensures Overlay(image, ps, w) != Overlay(image, ps, v)
  {
    LastSized(w, ps);
    LastSized(v, ps);
    var k: nat :| k < ps && Last(w)[p][k] != Last(v)[p][k];
    DivModUnique(p * ps + k, ps, p, k);
    LastInside(image, ps, w, p, k);
    LastInside(image, ps, v, p, k);
  }

  lemma LastInside(image: Bytes, ps: nat, w: seq<Change>, p: nat, k: nat)
    requires ps > 0 && PageSized(w, ps) && p in Last(w) && k < ps
    ensures |Last(w)[p]| == ps && p * ps + k < |Overlay(image, ps, w)| && Overlay(image, ps, w)[p * ps + k] == Last(w)[p][k]
  {
    hide Overlay, Last;
    LastSized(w, ps);
    var at := p * ps + k;
    DivModUnique(at, ps, p, k);
    if |Overlay(image, ps, w)| <= at {
      NotWritten(image, ps, w, at);
    } else {
      OverlayBytes(image, ps, w, at);
    }
  }

  // ------------------------------------------------------------------ distinct rows

  predicate DistinctRows(entries: seq<Entry>) {
    forall i, j :: 0 <= i < j < |entries| ==> entries[i].page != entries[j].page
  }

  predicate DistinctPages(changed: seq<Change>) {
    forall i, j :: 0 <= i < j < |changed| ==> changed[i].page != changed[j].page
  }

  lemma {:induction false} AddedNotInTable(entries: seq<Entry>, changed: seq<Change>)
    ensures forall j :: 0 <= j < |Added(entries, changed)| ==> !InTable(entries, Added(entries, changed)[j].page)
  {
    if changed != [] {
      AddedNotInTable(entries, changed[..|changed| - 1]);
    }
  }

  /** Rows stay distinct exactly when they were, and no new page was given twice. */
  lemma DistinctAfterUpsert(entries: seq<Entry>, changed: seq<Change>)
    ensures DistinctRows(NewTable(entries, changed)) <==> DistinctRows(entries) && DistinctPages(Added(entries, changed))
  {
    hide Added;
    var n, added, all := |entries|, Added(entries, changed), NewTable(entries, changed);
    AddedNotInTable(entries, changed);
    assert forall i :: 0 <= i < n ==> all[i] == entries[i];
    assert forall j :: 0 <= j < |added| ==> all[n + j].page == added[j].page;
    if DistinctRows(all) {
      forall i, j | 0 <= i < j < |added| ensures added[i].page != added[j].page {
        assert all[n + i].page != all[n + j].page;
      }
      forall i, j | 0 <= i < j < n ensures entries[i].page != entries[j].page {
        assert all[i].page != all[j].page;
      }
    }
    if DistinctRows(entries) && DistinctPages(added) {
      forall i, j | 0 <= i < j < |all| ensures all[i].page != all[j].page {
        if i < n <= j {
          assert !InTable(entries, added[j - n].page);
        } else if n <= i {
          assert added[i - n].page != added[j - n].page;
        }
      }
    }
  }

  lemma DistinctNeverStale(before: Bytes, ps: nat, entries: seq<Entry>, changed: seq<Change>)
    requires DistinctRows(entries)
    ensures NothingStale(before, ps, entries, changed)
  {
    hide Page, Last;
  }

  lemma {:induction false} AddedOfDistinct(entries: seq<Entry>, changed: seq<Change>)
    requires DistinctPages(changed)
    ensures DistinctPages(Added(entries, changed))
    ensures forall a :: a in Added(entries, changed) ==> a in changed
  {
    if changed != [] {
      var front := changed[..|changed| - 1];
      AddedOfDistinct(entries, front);
      assert forall a :: a in front ==> a in changed;
      forall a | a in front ensures a.page != changed[|changed| - 1].page {
        var i :| 0 <= i < |front| && front[i] == a;
        assert changed[i] == a;
      }
    }
  }

  /** A new page given twice in one upsert gets two rows, and the next upsert of it is lost: the reader
      keeps the second of the first two versions. */
  lemma RepeatedPageGoesStale(mid: Bytes, before: Bytes, ps: nat, entries: seq<Entry>, p: nat, a: Bytes, b: Bytes, c: Bytes)
    requires ps >= 8 && |a| == ps && |b| == ps && !InTable(entries, p) && b != c
    requires Written(before, ps, entries, [Change(p, a), Change(p, b)], mid)
    ensures !NothingStale(mid, ps, NewTable(entries, [Change(p, a), Change(p, b)]), [Change(p, c)])
  {
    hide Page;
    var twice := [Change(p, a), Change(p, b)];
    assert [] + [Change(p, a)] == [Change(p, a)] && [Change(p, a)] + [Change(p, b)] == twice;
    Pushed(entries, [], Change(p, a));
    Pushed(entries, [Change(p, a)], Change(p, b));
    var n, rows := |entries|, NewTable(entries, twice);
    assert Added(entries, twice) == twice;
    assert rows[n] == Entry(p, 1 + n) && rows[n + 1] == Entry(p, 2 + n);
    assert InTable(rows, p);
    assert LastRow(rows, p) == n + 1;
    assert FirstRow(rows, p) <= n;
    assert Holds(mid, ps, 1 + n + 1, twice[1].data);
    var last := Last([Change(p, c)]);
    assert p in last && last[p] == c;
  }

  // ------------------------------------------------------------------ runs

  function PageSet(changed: seq<Change>): set<nat> {
    set c | c in changed :: c.page
  }

  function RowSet(entries: seq<Entry>): set<nat> {
    set e | e in entries :: e.page
  }

  lemma {:induction false} RowCount(entries: seq<Entry>)
    requires DistinctRows(entries)
    ensures |RowSet(entries)| == |entries|
  {
    if entries != [] {
      var n := |entries| - 1;
      RowCount(entries[..n]);
      assert entries == entries[..n] + [entries[n]];
      assert RowSet(entries) == RowSet(entries[..n]) + {entries[n].page};
      forall e | e in entries[..n] ensures e.page != entries[n].page {
        var i :| 0 <= i < n && entries[i] == e;
      }
    }
  }

  lemma {:induction false} AddedSet(entries: seq<Entry>, changed: seq<Change>)
    ensures RowSet(entries) + PageSet(Added(entries, changed)) == RowSet(entries) + PageSet(changed)
  {
    if changed != [] {
      var front, c := changed[..|changed| - 1], changed[|changed| - 1];
      AddedSet(entries, front);
      assert changed == front + [c];
      assert PageSet(changed) == PageSet(front) + {c.page};
      if InTable(entries, c.page) {
        var i :| 0 <= i < |entries| && entries[i].page == c.page;
        assert entries[i] in entries;
        assert Added(entries, changed) == Added(entries, front);
      } else {
        assert PageSet(Added(entries, front) + [c]) == PageSet(Added(entries, front)) + {c.page};
      }
    }
  }

  lemma NewRowSet(entries: seq<Entry>, changed: seq<Change>)
    ensures RowSet(NewTable(entries, changed)) == RowSet(entries) + PageSet(changed)
  {
    hide Added;
    var added := Added(entries, changed);
    var rows := Rows(1 + |entries|, added);
    AddedSet(entries, changed);
    assert RowSet(entries + rows) == RowSet(entries) + RowSet(rows);
    forall p | p in PageSet(added) ensures p in RowSet(rows) {
      var c :| c in added && c.page == p;
      var i :| 0 <= i < |added| && added[i] == c;
      assert rows[i].page == p && rows[i] in rows;
    }
    forall p | p in RowSet(rows) ensures p in PageSet(added) {
      var e :| e in rows && e.page == p;
      var i :| 0 <= i < |rows| && rows[i] == e;
      assert added[i].page == p && added[i] in added;
    }
  }

  function Joined(runs: seq<seq<Change>>): seq<Change> {
    if runs == [] then [] else Joined(runs[..|runs| - 1]) + runs[|runs| - 1]
  }

  /** A difference file as a run of upserts leaves it while rows are free: it reads as all the changes so far. */
  ghost predicate Reads(file: Bytes, ps: nat, all: seq<Change>) {
    && Table(file, ps).Ok?
    && var entries := Table(file, ps).value;
    && |entries| < PerAlloc(ps) && DistinctRows(entries) && RowSet(entries) == PageSet(all)
    && Complete(file, ps, entries)
    && Last(Writes(file, ps, entries)) == Last(all)
    && |file| <= PageEnd(|entries|, ps)
  }

  /** One accepted upsert with distinct pages: the file keeps reading right while fewer than
      `per_alloc` pages are in it, and cannot be read at all once it holds exactly that many. */
  lemma RunStep(before: Bytes, ps: nat, all: seq<Change>, changed: seq<Change>, after: Bytes)
    requires ps >= 8 && Reads(before, ps, all) && DistinctPages(changed)
    requires Acceptable(ps, Table(before, ps).value, changed) && Upserted(before, ps, Table(before, ps).value, changed, after)
    ensures |PageSet(all + changed)| <= PerAlloc(ps)
    ensures |PageSet(all + changed)| < PerAlloc(ps) ==> Reads(after, ps, all + changed)
    ensures |PageSet(all + changed)| == PerAlloc(ps) ==> Table(after, ps).Err?
  {
    hide Table, Upserted, Page, PerAlloc, Added, Last, RowSet, PageSet, Writes, Overlay, NothingStale, Written, NewTable, Complete, HasPage;
    hide DistinctRows, DistinctPages, PageEnd;
    var entries := Table(before, ps).value;
    var rows := NewTable(entries, changed);
    AddedOfDistinct(entries, changed);
    DistinctAfterUpsert(entries, changed);
    NewRowSet(entries, changed);
    RowCount(rows);
    JoinedSet(all, changed);
    LastOfConcat(all, changed);
    RowsCounted(entries, changed);
    TableAfterUpsert(before, ps, entries, changed, after);
    LengthAfter(before, ps, entries, changed, after);
    if |rows| < PerAlloc(ps) {
      UpsertWrites(before, ps, entries, changed, after);
      ContentsAfterUpsert(before, ps, entries, changed, after);
      DistinctNeverStale(before, ps, entries, changed);
    }
  }

  lemma RowsCounted(entries: seq<Entry>, changed: seq<Change>)
    ensures |NewTable(entries, changed)| == |entries| + |Added(entries, changed)|
  {
  }

  lemma JoinedSet(all: seq<Change>, changed: seq<Change>)
    ensures PageSet(all + changed) == PageSet(all) + PageSet(changed)
  {
  }

  lemma LengthAfter(before: Bytes, ps: nat, entries: seq<Entry>, changed: seq<Change>, after: Bytes)
    requires ps >= 8 && Upserted(before, ps, entries, changed, after) && |entries| < PerAlloc(ps)
    requires |before| <= PageEnd(|entries|, ps)
    ensures |after| <= PageEnd(|entries| + |Added(entries, changed)|, ps)
    ensures !HasPage(before, ps, PerAlloc(ps) + 1)
  {
    hide Page, Added, Last, TableAt, CountAt, NewTable;
    MulLeft(|entries|, |entries| + |Added(entries, changed)|, ps);
    MulStrict(|entries|, PerAlloc(ps) + 1, ps);
  }

  /** A run of upserts: each was accepted by the table it met, and named no page twice. */
  ghost predicate IsRun(files: seq<Bytes>, ps: nat, runs: seq<seq<Change>>)
    requires ps >= 8
  {
    && |files| == |runs| + 1
    && forall k :: 0 <= k < |runs| ==> Follows(files[k], ps, runs[k], files[k + 1])
  }

  ghost predicate Follows(before: Bytes, ps: nat, changed: seq<Change>, after: Bytes)
    requires ps >= 8
  {
    DistinctPages(changed) && Table(before, ps).Ok? && Acceptable(ps, Table(before, ps).value, changed)
    && Upserted(before, ps, Table(before, ps).value, changed, after)
  }

  lemma EmptyTable(file: Bytes, ps: nat)
    requires ps >= 8 && file == Grown([], ps)
    ensures Reads(file, ps, []) && Table(file, ps) == Ok([])
  {
    assert file[0..4] == Le(0, 4) by {
      assert Le(0, 4) == [0, 0, 0, 0];
    }
    Widths();
    LeRoundTrip(0, 4);
    assert CountAt(file, ps, 0) == 0;
    assert Table(file, ps) == Ok([]);
  }

  /** From the zeroed page that begins a backup, as long as fewer than `per_alloc` different pages have
      been written, every reader of the file sees exactly all the changes of the run, laid over any
      image. */
  lemma {:induction false} RunReadsBack(files: seq<Bytes>, ps: nat, runs: seq<seq<Change>>)
    requires ps >= 8 && IsRun(files, ps, runs) && files[0] == Grown([], ps)
    requires |PageSet(Joined(runs))| < PerAlloc(ps)
    ensures Reads(files[|runs|], ps, Joined(runs))
  {
    hide Follows, Table, PerAlloc, Reads, Grown;
    if runs == [] {
      EmptyTable(files[0], ps);
    } else {
      var n := |runs| - 1;
      assert IsRun(files[..n + 1], ps, runs[..n]);
      FewerPages(Joined(runs[..n]), runs[n]);
      RunReadsBack(files[..n + 1], ps, runs[..n]);
      StepOfRun(files[n], ps, Joined(runs[..n]), runs[n], files[n + 1]);
    }
  }

  lemma FewerPages(all: seq<Change>, changed: seq<Change>)
    ensures |PageSet(all)| <= |PageSet(all + changed)|
  {
    JoinedSet(all, changed);
    SubsetSize(PageSet(all), PageSet(all + changed));
  }

  lemma SubsetSize(a: set<nat>, b: set<nat>)
    requires a <= b
    ensures |a| <= |b|
  {
    assert b == a + (b - a);
  }

  lemma StepOfRun(before: Bytes, ps: nat, all: seq<Change>, changed: seq<Change>, after: Bytes)
    requires ps >= 8 && Reads(before, ps, all) && Follows(before, ps, changed, after)
    ensures |PageSet(all + changed)| <= PerAlloc(ps)
    ensures |PageSet(all + changed)| < PerAlloc(ps) ==> Reads(after, ps, all + changed)
    ensures |PageSet(all + changed)| == PerAlloc(ps) ==> Table(after, ps).Err?
  {
    RunStep(before, ps, all, changed, after);
  }

  /** The run that puts the last free row to use leaves a file no reader can open; until then every
      reader sees all the changes over its image. */
  lemma RunEndsReadable(files: seq<Bytes>, ps: nat, runs: seq<seq<Change>>, image: Bytes)
    requires ps >= 8 && IsRun(files, ps, runs) && files[0] == Grown([], ps) && runs != []
    requires |PageSet(Joined(runs[..|runs| - 1]))| < PerAlloc(ps)
    requires forall i :: 0 <= i < |runs| ==> PageSized(runs[i], ps)
    ensures PageSized(Joined(runs), ps)
    ensures |PageSet(Joined(runs))| < PerAlloc(ps) <==> Table(files[|runs|], ps).Ok?
    ensures Table(files[|runs|], ps).Ok?
            ==> var entries := Table(files[|runs|], ps).value;
                Complete(files[|runs|], ps, entries)
                && Overlay(image, ps, Writes(files[|runs|], ps, entries)) == Overlay(image, ps, Joined(runs))
  {
    hide Follows, Table, PerAlloc, Grown, PageSet, Last, Writes, Overlay;
    var n := |runs| - 1;
    JoinedSized(runs, ps);
    assert IsRun(files[..n + 1], ps, runs[..n]);
    RunReadsBack(files[..n + 1], ps, runs[..n]);
    StepOfRun(files[n], ps, Joined(runs[..n]), runs[n], files[n + 1]);
    if |PageSet(Joined(runs))| < PerAlloc(ps) {
      var file := files[n + 1];
      OverlayByLast(image, ps, Writes(file, ps, Table(file, ps).value), Joined(runs));
    }
  }

  lemma {:induction false} JoinedSized(runs: seq<seq<Change>>, ps: nat)
    requires forall i :: 0 <= i < |runs| ==> PageSized(runs[i], ps)
    ensures PageSized(Joined(runs), ps)
  {
    if runs != [] {
      JoinedSized(runs[..|runs| - 1], ps);
    }
  }

  /** The smallest case: a page size with one row, and one page to write. */
  lemma OnePageTooMany(after: Bytes)
    requires Upserted(Grown([], 8), 8, [], [Change(0, Grown([], 8))], after)
    ensures Table(after, 8).Err?
  {
    hide Upserted, Grown, Table, TableFrom, Last, Reads, U32At;
    var file, c := Grown([], 8), Change(0, Grown([], 8));
    assert |file| == 8;
    EmptyTable(file, 8);
    assert [] + [c] == [c];
    Pushed([], [], c);
    TableAfterUpsert(file, 8, [], [c], after);
  }
}
