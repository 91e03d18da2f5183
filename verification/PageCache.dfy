/** The page cache and its careful-write precedence graph. There is no write-ahead log: what makes a
    crash survivable is the order in which pages reach the image, and that order lives in the graph. */
module PageCache {
  import opened Words
  import opened Power
  import opened PrecedenceGraph

  /** Pops a `related` search may make before it gives up and answers yes. */
  const RELATED_LIMIT: nat := 1000

  type Bytes = seq<u8>

  datatype Buffer = Buffer(data: Bytes, dirty: bool)

  /** What happened to the cache, in order: an edge was recorded, or a page was physically written. */
  datatype Event = Edge(window: Page, first: Page) | Written(page: Page, bytes: Bytes)

  /** The whole cache as a value: its fields, the image it was attached over, and its history. */
  datatype State = State(buffers: map<Page, Buffer>, higher: Graph, lower: Graph, image: Bytes, writes: seq<Page>,
                         base: Bytes, history: seq<Event>)

  predicate Dirty(s: State, p: Page) {
    p in s.buffers && s.buffers[p].dirty
  }

  // ------------------------------------------------------------------ the image

  function Zeros(n: nat): Bytes {
    seq(n, i => 0 as u8)
  }

  /** `image.resize(n, 0)` where that grows the image. */
  function Grown(image: Bytes, n: nat): (r: Bytes)
    ensures |r| >= n && |r| >= |image|
  {
    if |image| < n then image + Zeros(n - |image|) else image
  }

  /** One page laid over an image, which grows exactly as far as the page requires. */
  function WriteAt(image: Bytes, ps: nat, page: Page, bytes: Bytes): Bytes
    requires |bytes| == ps
  {
    var g := Grown(image, page * ps + ps);
    g[..page * ps] + bytes + g[page * ps + ps..]
  }

  /** A page's bytes as they are fetched: zeros past the end of the image. */
  function PageOf(image: Bytes, ps: nat, page: Page): (r: Bytes)
    ensures |r| == ps
  {
    seq(ps, i requires 0 <= i < ps => if page * ps + i < |image| then image[page * ps + i] else 0)
  }

  lemma PagesApart(p: nat, q: nat, ps: nat, i: nat)
    requires p != q && i < ps
    ensures q * ps + i < p * ps || p * ps + ps <= q * ps + i
  {
    if q < p {
      MulLeft(q + 1, p, ps);
      MulDistributes(ps, q, 1);
    } else {
      MulLeft(p + 1, q, ps);
      MulDistributes(ps, p, 1);
    }
  }

  /** A physical write changes its own page and no other. */
  lemma WriteAtPage(image: Bytes, ps: nat, p: Page, bytes: Bytes, q: Page)
    requires |bytes| == ps
    ensures PageOf(WriteAt(image, ps, p, bytes), ps, q) == if q == p then bytes else PageOf(image, ps, q)
  {
    hide WriteAt, PageOf;
    forall i | 0 <= i < ps
      ensures PageOf(WriteAt(image, ps, p, bytes), ps, q)[i] == if q == p then bytes[i] else PageOf(image, ps, q)[i]
    {
      WriteAtByte(image, ps, p, bytes, q, i);
    }
  }

  lemma WriteAtByte(image: Bytes, ps: nat, p: Page, bytes: Bytes, q: Page, i: nat)
    requires |bytes| == ps && i < ps
    ensures PageOf(WriteAt(image, ps, p, bytes), ps, q)[i] == if q == p then bytes[i] else PageOf(image, ps, q)[i]
  {
    hide WriteAt;
    WriteAtBytes(image, ps, p, bytes);
    if q != p {
      PagesApart(p, q, ps, i);
    }
  }

  /** Byte by byte: the page's own bytes are new, the others stay, and what is in between is zero. */
  lemma WriteAtBytes(image: Bytes, ps: nat, page: Page, bytes: Bytes)
    requires |bytes| == ps
    ensures var t, start := WriteAt(image, ps, page, bytes), page * ps;
            && |t| == (if |image| < start + ps then start + ps else |image|)
            && forall k :: 0 <= k < |t| ==> t[k] == if start <= k < start + ps then bytes[k - start] else if k < |image| then image[k] else 0
  {
    PatchedBytes(Grown(image, page * ps + ps), page * ps, bytes);
  }

  lemma PatchedBytes(g: Bytes, start: nat, bytes: Bytes)
    requires start + |bytes| <= |g|
    ensures var t := g[..start] + bytes + g[start + |bytes|..];
            |t| == |g| && forall k :: 0 <= k < |t| ==> t[k] == if start <= k < start + |bytes| then bytes[k - start] else g[k]
  {
  }

  /** The image grows exactly as far as the page requires. */
  lemma WriteAtLength(image: Bytes, ps: nat, page: Page, bytes: Bytes)
    requires |bytes| == ps
    ensures |WriteAt(image, ps, page, bytes)| == if |image| < page * ps + ps then page * ps + ps else |image|
  {
  }

  function Replay(base: Bytes, ps: nat, history: seq<Event>): Bytes
    requires AllPages(history, ps)
  {
    if history == [] then base
    else
      var last := history[|history| - 1];
      var before := Replay(base, ps, history[..|history| - 1]);
      if last.Written? then WriteAt(before, ps, last.page, last.bytes) else before
  }

  predicate AllPages(history: seq<Event>, ps: nat) {
    forall i :: 0 <= i < |history| && history[i].Written? ==> |history[i].bytes| == ps
  }

  function WrittenPages(history: seq<Event>): seq<Page> {
    if history == [] then []
    else
      var last := history[|history| - 1];
      WrittenPages(history[..|history| - 1]) + if last.Written? then [last.page] else []
  }

  // ------------------------------------------------------------------ what every state keeps

  predicate WrittenAt(history: seq<Event>, j: int, p: Page) {
    0 <= j < |history| && history[j].Written? && history[j].page == p
  }

  ghost predicate WrittenBetween(history: seq<Event>, p: Page, i: int, k: int) {
    exists j :: i < j < k && WrittenAt(history, j, p)
  }

  /** Once an edge is recorded, the window's next physical write comes after a write of `first`. */
  ghost predicate OrderKept(history: seq<Event>) {
    forall i, k :: 0 <= i < k < |history| && history[i].Edge? && WrittenAt(history, k, history[i].window)
      ==> WrittenBetween(history, history[i].first, i, k)
  }

  /** An edge stays in the graph until its first page is written. */
  ghost predicate EdgesLive(history: seq<Event>, higher: Graph) {
    forall i :: 0 <= i < |history| && history[i].Edge?
      ==> history[i].first in Next(higher, history[i].window) || WrittenBetween(history, history[i].first, i, |history|)
  }

  ghost predicate Transposed(higher: Graph, lower: Graph) {
    forall w, f :: f in Next(higher, w) <==> w in Next(lower, f)
  }

  predicate NoEmptyEntry(g: Graph) {
    forall p :: p in g ==> g[p] != {}
  }

  predicate PagesSized(s: State, ps: nat) {
    forall p :: p in s.buffers ==> |s.buffers[p].data| == ps
  }

  ghost predicate GraphOk(s: State) {
    && Transposed(s.higher, s.lower)
    && NoEmptyEntry(s.higher) && NoEmptyEntry(s.lower)
    && forall w, f :: f in Next(s.higher, w) ==> Dirty(s, f)
  }

  ghost predicate HistoryOk(s: State, ps: nat) {
    && AllPages(s.history, ps)
    && s.image == Replay(s.base, ps, s.history)
    && s.writes == WrittenPages(s.history)
    && OrderKept(s.history) && EdgesLive(s.history, s.higher)
  }

  ghost predicate Consistent(s: State, ps: nat) {
    PagesSized(s, ps) && GraphOk(s) && HistoryOk(s, ps)
  }

  ghost predicate Valid(s: State, ps: nat) {
    Consistent(s, ps) && exists rank :: Ranked(s.higher, rank)
  }

  // ------------------------------------------------------------------ one physical write

  /** The edges that named `page` as "must go first" come down. */
  function ClearHigher(higher: Graph, lows: set<Page>, page: Page): Graph {
    map w | w in higher && (w !in lows || higher[w] - {page} != {}) :: if w in lows then higher[w] - {page} else higher[w]
  }

  function WroteOne(s: State, ps: nat, p: Page): State
    requires p in s.buffers && |s.buffers[p].data| == ps
  {
    var data := s.buffers[p].data;
    State(s.buffers[p := Buffer(data, false)], ClearHigher(s.higher, Next(s.lower, p), p), s.lower - {p},
          WriteAt(s.image, ps, p, data), s.writes + [p], s.base, s.history + [Written(p, data)])
  }

  lemma ClearedNext(s: State, p: Page, w: Page)
    requires GraphOk(s)
    ensures Next(ClearHigher(s.higher, Next(s.lower, p), p), w) == Next(s.higher, w) - {p}
    ensures Next(s.lower - {p}, w) == if w == p then {} else Next(s.lower, w)
  {
    assert p in Next(s.higher, w) <==> w in Next(s.lower, p);
  }

  /** Writing a dirty page with nothing ahead of it keeps everything. */
  lemma WroteOneKeeps(s: State, ps: nat, p: Page)
    requires Consistent(s, ps) && Dirty(s, p) && Next(s.higher, p) == {}
    ensures Consistent(WroteOne(s, ps, p), ps)
    ensures forall w :: Next(WroteOne(s, ps, p).higher, w) == Next(s.higher, w) - {p}
    ensures forall q :: Dirty(WroteOne(s, ps, p), q) <==> Dirty(s, q) && q != p
  {
    hide GraphOk, HistoryOk;
    GraphAfterWrite(s, ps, p);
    HistoryAfterWrite(s, ps, p);
  }

  lemma GraphAfterWrite(s: State, ps: nat, p: Page)
    requires PagesSized(s, ps) && GraphOk(s) && Dirty(s, p) && Next(s.higher, p) == {}
    ensures GraphOk(WroteOne(s, ps, p))
    ensures forall w :: Next(WroteOne(s, ps, p).higher, w) == Next(s.higher, w) - {p}
  {
    hide WriteAt;
    var t := WroteOne(s, ps, p);
    forall w ensures Next(t.higher, w) == Next(s.higher, w) - {p} && Next(t.lower, w) == if w == p then {} else Next(s.lower, w) {
      ClearedNext(s, p, w);
    }
    forall w, f ensures f in Next(t.higher, w) <==> w in Next(t.lower, f) {
      assert f in Next(s.higher, w) <==> w in Next(s.lower, f);
    }
    forall w, f | f in Next(t.higher, w) ensures Dirty(t, f) {
      assert f in Next(s.higher, w) && f != p;
      assert Dirty(s, f);
    }
  }

  lemma HistoryAfterWrite(s: State, ps: nat, p: Page)
    requires PagesSized(s, ps) && GraphOk(s) && HistoryOk(s, ps) && Dirty(s, p) && Next(s.higher, p) == {}
    ensures HistoryOk(WroteOne(s, ps, p), ps)
  {
    hide WriteAt, ClearHigher;
    var t := WroteOne(s, ps, p);
    var n := |s.history|;
    assert t.history[..n] == s.history;
    assert forall j, q :: 0 <= j < n ==> (WrittenAt(t.history, j, q) <==> WrittenAt(s.history, j, q));
    forall i, k | 0 <= i < k < |t.history| && t.history[i].Edge? && WrittenAt(t.history, k, t.history[i].window)
      ensures WrittenBetween(t.history, t.history[i].first, i, k)
    {
      assert WrittenBetween(s.history, s.history[i].first, i, k);
      var j :| i < j < k && WrittenAt(s.history, j, s.history[i].first);
      assert WrittenAt(t.history, j, t.history[i].first);
    }
    forall i | 0 <= i < |t.history| && t.history[i].Edge?
      ensures t.history[i].first in Next(t.higher, t.history[i].window) || WrittenBetween(t.history, t.history[i].first, i, |t.history|)
    {
      ClearedNext(s, p, s.history[i].window);
      if s.history[i].first in Next(s.higher, s.history[i].window) {
        if s.history[i].first == p {
          assert WrittenAt(t.history, n, p);
        }
      } else {
        var j :| i < j < n && WrittenAt(s.history, j, s.history[i].first);
        assert WrittenAt(t.history, j, t.history[i].first);
      }
    }
  }

  // ------------------------------------------------------------------ a drain: several writes in order

  predicate NoRepeats(d: seq<Page>) {
    forall i, j :: 0 <= i < j < |d| ==> d[i] != d[j]
  }

  /** Every page comes after all its predecessors. */
  predicate InOrder(g: Graph, d: seq<Page>) {
    forall i :: 0 <= i < |d| ==> forall f :: f in Next(g, d[i]) ==> f in d[..i]
  }

  function PageSet(d: seq<Page>): set<Page> {
    set i | 0 <= i < |d| :: d[i]
  }

  ghost predicate Drainable(s: State, ps: nat, d: seq<Page>) {
    && NoRepeats(d) && InOrder(s.higher, d)
    && forall i :: 0 <= i < |d| ==> Dirty(s, d[i]) && |s.buffers[d[i]].data| == ps
  }

  /** The state after the physical writes `d`, one after another. */
  ghost function Wrote(s: State, ps: nat, d: seq<Page>): (t: State)
    requires forall i :: 0 <= i < |d| ==> d[i] in s.buffers && |s.buffers[d[i]].data| == ps
    ensures t.buffers.Keys == s.buffers.Keys
    ensures forall p :: p in s.buffers ==> t.buffers[p].data == s.buffers[p].data
  {
    if d == [] then s else WroteOne(Wrote(s, ps, d[..|d| - 1]), ps, d[|d| - 1])
  }

  /** A drain keeps everything, cleans exactly its pages and takes exactly their edges down. */
  lemma {:induction false} DrainKeeps(s: State, ps: nat, d: seq<Page>)
    requires Consistent(s, ps) && Drainable(s, ps, d)
    ensures var t := Wrote(s, ps, d);
            && Consistent(t, ps) && t.writes == s.writes + d && t.base == s.base
            && (forall p :: Dirty(t, p) <==> Dirty(s, p) && p !in d)
            && (forall w :: Next(t.higher, w) == Next(s.higher, w) - PageSet(d))
  {
    hide Consistent, WroteOne, InOrder, NoRepeats, PageSet;
    WroteLogs(s, ps, d);
    if d == [] {
      EmptyPageSet();
    } else {
      var n := |d| - 1;
      var front, p := d[..n], d[n];
      FrontDrainable(s, ps, d);
      PageSetLast(d);
      DrainKeeps(s, ps, front);
      var m := Wrote(s, ps, front);
      NothingAhead(s, m, d);
      WroteOneKeeps(m, ps, p);
    }
  }

  lemma EmptyPageSet()
    ensures PageSet([]) == {}
  {
  }

  lemma PageSetLast(d: seq<Page>)
    requires d != []
    ensures PageSet(d) == PageSet(d[..|d| - 1]) + {d[|d| - 1]}
    ensures forall x :: x in d <==> x in d[..|d| - 1] || x == d[|d| - 1]
  {
    assert d == d[..|d| - 1] + [d[|d| - 1]];
  }

  lemma AscendingPageSet(s: set<Page>)
    ensures PageSet(Ascending(s)) == s
  {
    assert forall x :: x in Ascending(s) <==> x in s;
  }

  lemma NothingAhead(s: State, m: State, d: seq<Page>)
    requires d != [] && InOrder(s.higher, d)
    requires forall w :: Next(m.higher, w) == Next(s.higher, w) - PageSet(d[..|d| - 1])
    ensures Next(m.higher, d[|d| - 1]) == {}
  {
    var n := |d| - 1;
    var front, p := d[..n], d[n];
    assert forall f :: f in Next(s.higher, p) ==> f in front;
  }

  lemma {:induction false} WroteLogs(s: State, ps: nat, d: seq<Page>)
    requires forall i :: 0 <= i < |d| ==> d[i] in s.buffers && |s.buffers[d[i]].data| == ps
    ensures Wrote(s, ps, d).writes == s.writes + d && Wrote(s, ps, d).base == s.base
  {
    hide WriteAt, ClearHigher;
    if d == [] {
      assert s.writes + d == s.writes;
    } else {
      var n := |d| - 1;
      WroteLogs(s, ps, d[..n]);
      assert s.writes + d[..n] + [d[n]] == s.writes + d;
    }
  }

  lemma FrontDrainable(s: State, ps: nat, d: seq<Page>)
    requires d != [] && Drainable(s, ps, d)
    ensures Drainable(s, ps, d[..|d| - 1]) && d[|d| - 1] !in d[..|d| - 1]
  {
    var front := d[..|d| - 1];
    assert forall i :: 0 <= i < |front| ==> front[i] == d[i] && front[..i] == d[..i];
  }

  lemma {:induction false} WroteConcat(s: State, ps: nat, d: seq<Page>, e: seq<Page>)
    requires forall i :: 0 <= i < |d| ==> d[i] in s.buffers && |s.buffers[d[i]].data| == ps
    requires forall i :: 0 <= i < |e| ==> e[i] in s.buffers && |s.buffers[e[i]].data| == ps
    ensures forall i :: 0 <= i < |d + e| ==> (d + e)[i] in s.buffers && |s.buffers[(d + e)[i]].data| == ps
    ensures Wrote(s, ps, d + e) == Wrote(Wrote(s, ps, d), ps, e)
  {
    hide WroteOne;
    if e == [] {
      assert d + e == d;
    } else {
      var n := |e| - 1;
      WroteConcat(s, ps, d, e[..n]);
      assert (d + e)[..|d + e| - 1] == d + e[..n];
    }
  }

  /** Two drains one after the other are one drain of the first state. */
  lemma DrainsCompose(s: State, ps: nat, d: seq<Page>, e: seq<Page>)
    requires Consistent(s, ps) && Drainable(s, ps, d) && Drainable(Wrote(s, ps, d), ps, e)
    ensures Drainable(s, ps, d + e) && Wrote(s, ps, d + e) == Wrote(Wrote(s, ps, d), ps, e)
  {
    hide Consistent, WroteOne;
    DrainKeeps(s, ps, d);
    OrdersCompose(s, Wrote(s, ps, d), d, e);
    WroteConcat(s, ps, d, e);
  }

  lemma OrdersCompose(s: State, m: State, d: seq<Page>, e: seq<Page>)
    requires NoRepeats(d) && NoRepeats(e) && InOrder(s.higher, d) && InOrder(m.higher, e)
    requires forall p :: Dirty(m, p) <==> Dirty(s, p) && p !in d
    requires forall w :: Next(m.higher, w) == Next(s.higher, w) - PageSet(d)
    requires forall i :: 0 <= i < |e| ==> Dirty(m, e[i])
    ensures NoRepeats(d + e) && InOrder(s.higher, d + e)
    ensures forall i :: 0 <= i < |e| ==> Dirty(s, e[i])
  {
    forall i | 0 <= i < |d + e| ensures forall f :: f in Next(s.higher, (d + e)[i]) ==> f in (d + e)[..i] {
      if i < |d| {
        assert (d + e)[..i] == d[..i] && (d + e)[i] == d[i];
      } else {
        var k := i - |d|;
        assert (d + e)[..i] == d + e[..k] && (d + e)[i] == e[k];
        forall f | f in Next(s.higher, e[k]) ensures f in d + e[..k] {
          if f !in d {
            assert f in Next(m.higher, e[k]);
          }
        }
      }
    }
  }

  /** The k-th page of `d` lies below one of the roots, and every lesser root is already written. */
  ghost predicate StartedFrom(g: Graph, roots: set<Page>, d: seq<Page>, k: nat, r: Page)
    requires k < |d|
  {
    r in roots && d[k] in ReachSet(g, r) && forall x :: x in roots && x < r ==> x in d[..k]
  }

  ghost predicate Started(g: Graph, roots: set<Page>, d: seq<Page>, k: nat)
    requires k < |d|
  {
    exists r :: StartedFrom(g, roots, d, k, r)
  }

  /** The roots are taken lowest page number first, each with everything below it. */
  ghost predicate LeastFirst(g: Graph, roots: set<Page>, d: seq<Page>) {
    forall k: nat :: k < |d| ==> Started(g, roots, d, k)
  }

  /** A drain without the page it is the drain of, which goes last. */
  function Ahead(d: seq<Page>, page: Page): seq<Page> {
    if d != [] && d[|d| - 1] == page then d[..|d| - 1] else d
  }

  /** What a recursive drain of `page` writes: the dirty pages it reaches, in order, and what must
      precede the page lowest number first. */
  ghost predicate DrainsPage(s: State, ps: nat, page: Page, d: seq<Page>) {
    && Drainable(s, ps, d) && (forall x :: x in d <==> x in ReachSet(s.higher, page) && Dirty(s, x))
    && LeastFirst(s.higher, Next(s.higher, page), Ahead(d, page))
  }

  lemma MoreStarted(g: Graph, roots: set<Page>, d: seq<Page>, e: seq<Page>, r: Page)
    requires LeastFirst(g, roots, d) && r in roots && forall x :: x in e ==> x in ReachSet(g, r)
    requires forall x :: x in roots && x < r ==> x in d
    ensures LeastFirst(g, roots, d + e)
  {
    forall k: nat | k < |d + e| ensures Started(g, roots, d + e, k) {
      if k < |d| {
        assert Started(g, roots, d, k);
        var q :| StartedFrom(g, roots, d, k, q);
        assert (d + e)[..k] == d[..k];
        assert StartedFrom(g, roots, d + e, k, q);
      } else {
        assert (d + e)[..k] == d + e[..k - |d|] && (d + e)[k] in e;
        assert StartedFrom(g, roots, d + e, k, r);
      }
    }
  }

  /** A page is written before one with a lower number only for the sake of a third, a root no higher
      than that one, which it had to precede. */
  lemma OutOfOrderIsNeeded(g: Graph, roots: set<Page>, d: seq<Page>, i: nat, j: nat)
    requires LeastFirst(g, roots, d) && NoRepeats(d) && i < j < |d| && d[j] < d[i] && d[j] in roots
    ensures exists r :: r in roots && r <= d[j] && d[i] in ReachSet(g, r)
  {
    assert Started(g, roots, d, i);
    var r :| StartedFrom(g, roots, d, i, r);
    assert forall k :: 0 <= k < i ==> d[k] != d[j];
    assert d[j] !in d[..i];
  }

  /** With nothing to precede anything the roots go out in ascending order. */
  lemma WithoutEdgesAscending(g: Graph, roots: set<Page>, d: seq<Page>)
    requires LeastFirst(g, roots, d) && NoRepeats(d) && (forall x :: x in d <==> x in roots) && forall p :: Next(g, p) == {}
    ensures d == Ascending(roots)
  {
    forall i, j | 0 <= i < j < |d| ensures d[i] < d[j] {
      if d[j] < d[i] {
        OutOfOrderIsNeeded(g, roots, d, i, j);
        var r :| r in roots && r <= d[j] && d[i] in ReachSet(g, r);
        ReachSetUnfold(g, r, d[i]);
      }
    }
    SortedIsAscending(d, roots);
  }

  lemma {:induction false} SortedIsAscending(d: seq<Page>, s: set<Page>)
    requires (forall i, j :: 0 <= i < j < |d| ==> d[i] < d[j]) && forall x :: x in d <==> x in s
    ensures d == Ascending(s)
    decreases |d|
  {
    if d == [] {
      assert s == {};
    } else {
      assert d[0] in s;
      var m := Least(s);
      assert m in d;
      assert m == d[0];
      assert forall x :: x in d[1..] <==> x in s - {m} by {
        assert d == [d[0]] + d[1..];
      }
      SortedIsAscending(d[1..], s - {m});
    }
  }

  // ------------------------------------------------------------------ recording an edge

  function WithEdgeState(s: State, window: Page, first: Page): State {
    s.(higher := WithEdge(s.higher, window, first), lower := WithEdge(s.lower, first, window),
       history := s.history + [Edge(window, first)])
  }

  lemma EdgeKeeps(s: State, ps: nat, window: Page, first: Page)
    requires Valid(s, ps) && Dirty(s, first) && !Reaches(s.higher, first, window)
    ensures Valid(WithEdgeState(s, window, first), ps)
  {
    var t := WithEdgeState(s, window, first);
    var rank :| Ranked(s.higher, rank);
    EdgeKeepsRank(s.higher, rank, window, first);
    assert Ranked(t.higher, Lifted(s.higher, rank, window, first));
    EdgeKeepsGraph(s, window, first);
    EdgeKeepsHistory(s, ps, window, first);
  }

  lemma EdgeKeepsGraph(s: State, window: Page, first: Page)
    requires GraphOk(s) && Dirty(s, first)
    ensures GraphOk(WithEdgeState(s, window, first))
  {
    var t := WithEdgeState(s, window, first);
    forall w, f ensures f in Next(t.higher, w) <==> w in Next(t.lower, f) {
      assert f in Next(s.higher, w) <==> w in Next(s.lower, f);
    }
    forall w, f | f in Next(t.higher, w) ensures Dirty(t, f) {
      assert f in Next(s.higher, w) || f == first;
      assert Dirty(s, f);
    }
  }

  lemma EdgeKeepsHistory(s: State, ps: nat, window: Page, first: Page)
    requires HistoryOk(s, ps)
    ensures HistoryOk(WithEdgeState(s, window, first), ps)
  {
    var t := WithEdgeState(s, window, first);
    var n := |s.history|;
    assert t.history[..n] == s.history;
    assert forall j, q :: 0 <= j < n ==> (WrittenAt(t.history, j, q) <==> WrittenAt(s.history, j, q));
    forall i, k | 0 <= i < k < |t.history| && t.history[i].Edge? && WrittenAt(t.history, k, t.history[i].window)
      ensures WrittenBetween(t.history, t.history[i].first, i, k)
    {
      assert WrittenAt(s.history, k, s.history[i].window);
      var j :| i < j < k && WrittenAt(s.history, j, s.history[i].first);
      assert WrittenAt(t.history, j, t.history[i].first);
    }
    forall i | 0 <= i < |t.history| && t.history[i].Edge?
      ensures t.history[i].first in Next(t.higher, t.history[i].window) || WrittenBetween(t.history, t.history[i].first, i, |t.history|)
    {
      if i < n && s.history[i].first !in Next(s.higher, s.history[i].window) {
        var j :| i < j < n && WrittenAt(s.history, j, s.history[i].first);
        assert WrittenAt(t.history, j, t.history[i].first);
      }
    }
  }

  // ------------------------------------------------------------------ operations as steps

  datatype Op = Fetch(page: Page) | Mark(page: Page, bytes: Bytes) | Precede(window: Page, first: Page)
              | Write(page: Page) | Flush

  function Fetched(s: State, ps: nat, p: Page): State {
    if p in s.buffers then s else s.(buffers := s.buffers[p := Buffer(PageOf(s.image, ps, p), false)])
  }

  /** What `precedence` does. An edge that would close a cycle, or whose search gave up, is not
      recorded: the window is written at once instead. */
  ghost predicate PrecedeStep(s: State, t: State, ps: nat, window: Page, first: Page) {
    if window == first || !Dirty(s, first) || first in Next(s.higher, window) then t == s
    else if RelatedSpec(s.higher, first, window, RELATED_LIMIT) then
      exists d :: DrainsPage(s, ps, window, d) && t == Wrote(s, ps, d)
    else t == WithEdgeState(s, window, first)
  }

  function DirtyPages(s: State): set<Page> {
    set p | p in s.buffers && s.buffers[p].dirty
  }

  /** All dirty pages, lowest number first but for what must precede them. */
  ghost predicate FlushOrder(s: State, ps: nat, d: seq<Page>) {
    Drainable(s, ps, d) && (forall p :: p in d <==> Dirty(s, p)) && LeastFirst(s.higher, DirtyPages(s), d)
  }

  ghost predicate FlushStep(s: State, t: State, ps: nat) {
    exists d :: FlushOrder(s, ps, d) && t == Wrote(s, ps, d)
  }

  ghost predicate Step(s: State, op: Op, t: State, ps: nat) {
    match op
    case Fetch(p) => t == Fetched(s, ps, p)
    case Mark(p, bytes) => |bytes| == ps && t == s.(buffers := s.buffers[p := Buffer(bytes, true)])
    case Precede(w, f) => PrecedeStep(s, t, ps, w, f)
    case Write(p) => exists d :: DrainsPage(s, ps, p, d) && t == Wrote(s, ps, d)
    case Flush => FlushStep(s, t, ps)
  }

  function Attached(image: Bytes): State {
    State(map[], map[], map[], image, [], image, [])
  }

  lemma AttachedValid(image: Bytes, ps: nat)
    ensures Valid(Attached(image), ps)
  {
    var rank: Page -> nat := p => 0;
    assert Ranked(Attached(image).higher, rank);
  }

  lemma DrainKeepsValid(s: State, ps: nat, d: seq<Page>)
    requires Valid(s, ps) && Drainable(s, ps, d)
    ensures Valid(Wrote(s, ps, d), ps)
  {
    DrainKeeps(s, ps, d);
    var rank :| Ranked(s.higher, rank);
    assert Ranked(Wrote(s, ps, d).higher, rank);
  }

  lemma StepKeepsValid(s: State, op: Op, t: State, ps: nat)
    requires Valid(s, ps) && Step(s, op, t, ps)
    ensures Valid(t, ps)
  {
    hide GraphOk, HistoryOk;
    match op
    case Fetch(p) => BuffersChange(s, t, ps);
    case Mark(p, bytes) => BuffersChange(s, t, ps);
    case Precede(w, f) => PrecedeKeepsValid(s, t, ps, w, f);
    case Write(p) =>
      var d :| DrainsPage(s, ps, p, d) && t == Wrote(s, ps, d);
      DrainKeepsValid(s, ps, d);
    case Flush =>
      var d :| FlushOrder(s, ps, d) && t == Wrote(s, ps, d);
      DrainKeepsValid(s, ps, d);
  }

  /** Nothing depends on a buffer's bytes, and a page only ever becomes dirtier. */
  lemma BuffersChange(s: State, t: State, ps: nat)
    requires Valid(s, ps) && t == s.(buffers := t.buffers) && PagesSized(t, ps)
    requires forall p :: Dirty(s, p) ==> Dirty(t, p)
    ensures Valid(t, ps)
  {
    forall w, f | f in Next(t.higher, w) ensures Dirty(t, f) {
      assert f in Next(s.higher, w);
      assert Dirty(s, f);
    }
  }

  lemma PrecedeKeepsValid(s: State, t: State, ps: nat, window: Page, first: Page)
    requires Valid(s, ps) && PrecedeStep(s, t, ps, window, first)
    ensures Valid(t, ps)
  {
    hide Consistent;
    if t != s {
      if RelatedSpec(s.higher, first, window, RELATED_LIMIT) {
        var d :| DrainsPage(s, ps, window, d) && t == Wrote(s, ps, d);
        DrainKeepsValid(s, ps, d);
      } else {
        ReachSetMeaning(s.higher, first, window);
        EdgeKeeps(s, ps, window, first);
      }
    }
  }

  /** A run of the cache: states and the operations between them. */
  ghost predicate IsRun(states: seq<State>, ops: seq<Op>, ps: nat) {
    && |states| == |ops| + 1
    && states[0] == Attached(states[0].image)
    && forall i :: 0 <= i < |ops| ==> Step(states[i], ops[i], states[i + 1], ps)
  }

  /** Safety over whole runs: in every state of every run the graph is acyclic, its two maps are each
      other's transpose, every page ahead of another is dirty, the image is the attached image with
      the recorded writes replayed, and no window was ever written before a page recorded as first. */
  lemma {:induction false} RunsAreSafe(states: seq<State>, ops: seq<Op>, ps: nat, k: nat)
    requires IsRun(states, ops, ps) && k < |states|
    ensures Valid(states[k], ps)
    ensures Acyclic(states[k].higher) && Transposed(states[k].higher, states[k].lower)
    ensures forall w, f :: f in Next(states[k].higher, w) ==> Dirty(states[k], f)
    ensures OrderKept(states[k].history)
  {
    if k == 0 {
      AttachedValid(states[0].image, ps);
    } else {
      RunsAreSafe(states, ops, ps, k - 1);
      StepKeepsValid(states[k - 1], ops[k - 1], states[k], ps);
    }
    var rank :| Ranked(states[k].higher, rank);
    RankedIsAcyclic(states[k].higher, rank);
  }

  // ------------------------------------------------------------------ what the buffers hold

  /** A clean buffer holds its page of the image. */
  ghost predicate CleanMatches(s: State, ps: nat) {
    forall p :: p in s.buffers && !s.buffers[p].dirty ==> s.buffers[p].data == PageOf(s.image, ps, p)
  }

  lemma WroteOneMatches(s: State, ps: nat, p: Page)
    requires CleanMatches(s, ps) && p in s.buffers && |s.buffers[p].data| == ps
    ensures CleanMatches(WroteOne(s, ps, p), ps)
  {
    hide WriteAt, PageOf, ClearHigher;
    var t := WroteOne(s, ps, p);
    forall q | q in t.buffers && !t.buffers[q].dirty ensures t.buffers[q].data == PageOf(t.image, ps, q) {
      WriteAtPage(s.image, ps, p, s.buffers[p].data, q);
    }
  }

  lemma {:induction false} WroteMatches(s: State, ps: nat, d: seq<Page>)
    requires CleanMatches(s, ps) && forall i :: 0 <= i < |d| ==> d[i] in s.buffers && |s.buffers[d[i]].data| == ps
    ensures CleanMatches(Wrote(s, ps, d), ps)
  {
    hide WroteOne, CleanMatches;
    if d != [] {
      WroteMatches(s, ps, d[..|d| - 1]);
      WroteOneMatches(Wrote(s, ps, d[..|d| - 1]), ps, d[|d| - 1]);
    }
  }

  lemma StepMatches(s: State, op: Op, t: State, ps: nat)
    requires CleanMatches(s, ps) && Step(s, op, t, ps)
    ensures CleanMatches(t, ps)
  {
    hide LeastFirst, InOrder, NoRepeats, Wrote, ReachSet, RelatedSpec, PageOf;
    match op
    case Fetch(p) =>
    case Mark(p, bytes) =>
    case Precede(w, f) =>
      if t != s && RelatedSpec(s.higher, f, w, RELATED_LIMIT) {
        var d :| DrainsPage(s, ps, w, d) && t == Wrote(s, ps, d);
        WroteMatches(s, ps, d);
      }
    case Write(p) =>
      var d :| DrainsPage(s, ps, p, d) && t == Wrote(s, ps, d);
      WroteMatches(s, ps, d);
    case Flush =>
      var d :| FlushOrder(s, ps, d) && t == Wrote(s, ps, d);
      WroteMatches(s, ps, d);
  }

  /** In every state of every run a clean buffer holds what the image has for its page. */
  lemma {:induction false} CleanBuffersMatch(states: seq<State>, ops: seq<Op>, ps: nat, k: nat)
    requires IsRun(states, ops, ps) && k < |states|
    ensures forall p :: p in states[k].buffers && !states[k].buffers[p].dirty ==> states[k].buffers[p].data == PageOf(states[k].image, ps, p)
  {
    hide Step, PageOf;
    if k > 0 {
      CleanBuffersMatch(states, ops, ps, k - 1);
      StepMatches(states[k - 1], ops[k - 1], states[k], ps);
    }
  }

  /** After `precedence` on a dirty first page, either the edge is live or the window is clean. */
  lemma PrecedenceOutcome(s: State, t: State, ps: nat, window: Page, first: Page)
    requires Valid(s, ps) && PrecedeStep(s, t, ps, window, first) && Dirty(s, first) && window != first
    ensures first in Next(t.higher, window) || !Dirty(t, window)
  {
    if first !in Next(s.higher, window) && RelatedSpec(s.higher, first, window, RELATED_LIMIT) {
      var d :| DrainsPage(s, ps, window, d) && t == Wrote(s, ps, d);
      DrainKeeps(s, ps, d);
    }
  }

  /** A flush writes each dirty page exactly once and leaves no dirty page and no edge. */
  lemma FlushLeavesNothing(s: State, t: State, ps: nat)
    requires Valid(s, ps) && FlushStep(s, t, ps)
    ensures forall p :: !Dirty(t, p)
    ensures t.higher == map[] && t.lower == map[]
    ensures exists d :: FlushOrder(s, ps, d) && t.writes == s.writes + d
  {
    var d :| FlushOrder(s, ps, d) && t == Wrote(s, ps, d);
    DrainKeeps(s, ps, d);
    NoEdgesWhenClean(t);
  }

  lemma NoEdgesWhenClean(t: State)
    requires GraphOk(t) && forall p :: !Dirty(t, p)
    ensures t.higher == map[] && t.lower == map[]
  {
    forall w, f ensures f !in Next(t.higher, w) {
      assert f in Next(t.higher, w) ==> Dirty(t, f);
    }
    assert forall w :: w in t.higher ==> Next(t.higher, w) != {};
    assert forall w, f :: w !in Next(t.lower, f) by {
      forall w, f ensures w !in Next(t.lower, f) {
        assert f in Next(t.higher, w) <==> w in Next(t.lower, f);
      }
    }
    assert forall f :: f in t.lower ==> Next(t.lower, f) != {};
  }

  // ------------------------------------------------------------------ the cache itself

  class Cache {
    const pageSize: nat
    var image: Bytes
    var buffers: map<Page, Buffer>
    var higher: Graph
    var lower: Graph
    var writes: seq<Page>
    ghost var base: Bytes
    ghost var history: seq<Event>

    ghost function View(): State
      reads this
    {
      State(buffers, higher, lower, image, writes, base, history)
    }

    ghost predicate Ok()
      reads this
    {
      Valid(View(), pageSize)
    }

    constructor Attach(image: Bytes, pageSize: nat)
      ensures View() == Attached(image) && this.pageSize == pageSize && Ok()
    {
      this.pageSize := pageSize;
      this.image := image;
      buffers, higher, lower, writes := map[], map[], map[], [];
      base, history := image, [];
      new;
      AttachedValid(image, pageSize);
    }

    /** Read a page into its buffer: zeros past the end of the image. */
    method Fetch(page: Page) returns (data: Bytes)
      requires Ok()
      modifies this
      ensures Ok() && Step(old(View()), Op.Fetch(page), View(), pageSize)
      ensures page in buffers && data == buffers[page].data
    {
      if page !in buffers {
        buffers := buffers[page := Buffer(PageOf(image, pageSize, page), false)];
      }
      data := buffers[page].data;
      StepKeepsValid(old(View()), Op.Fetch(page), View(), pageSize);
    }

    /** Replace the buffer's bytes and flag it dirty. */
    method Mark(page: Page, bytes: Bytes)
      requires Ok() && |bytes| == pageSize
      modifies this
      ensures Ok() && Step(old(View()), Op.Mark(page, bytes), View(), pageSize)
    {
      var _ := Fetch(page);
      buffers := buffers[page := Buffer(bytes, true)];
      StepKeepsValid(old(View()), Op.Mark(page, bytes), View(), pageSize);
    }

    /** `first` must reach the image before `window`. */
    method Precedence(window: Page, first: Page)
      requires Ok()
      modifies this
      ensures Ok() && Step(old(View()), Op.Precede(window, first), View(), pageSize)
    {
      if window == first {
        return;
      }
      if !(first in buffers && buffers[first].dirty) {
        return;
      }
      if window in higher && first in higher[window] {
        return;
      }
      hide Consistent, Wrote;
      var related := Related(higher, first, window, RELATED_LIMIT);
      if related {
        ghost var rank :| Ranked(higher, rank);
        ghost var d := WriteBuffer(window, rank);
        StepKeepsValid(old(View()), Op.Precede(window, first), View(), pageSize);
        return;
      }
      higher := higher[window := (if window in higher then higher[window] else {}) + {first}];
      lower := lower[first := (if first in lower then lower[first] else {}) + {window}];
      history := history + [Edge(window, first)];
      assert View() == WithEdgeState(old(View()), window, first);
      ReachSetMeaning(old(higher), first, window);
      EdgeKeeps(old(View()), pageSize, window, first);
    }

    /** Drain every page that must precede `page`, recursively, then write `page` itself. */
    method WriteBuffer(page: Page, ghost rank: Page -> nat) returns (ghost d: seq<Page>)
      requires Ok() && Ranked(higher, rank)
      modifies this
      ensures Ok() && Ranked(higher, rank)
      ensures DrainsPage(old(View()), pageSize, page, d) && View() == Wrote(old(View()), pageSize, d)
      decreases rank(page)
    {
      hide Consistent, WroteOne;
      ghost var s := View();
      d := [];
      while Next(higher, page) != {}
        invariant Ok() && Ranked(higher, rank)
        invariant DrainedSoFar(s, pageSize, page, rank, d) && View() == Wrote(s, pageSize, d)
        decreases |Next(higher, page)|
      {
        ghost var m := View();
        var first := Least(Next(higher, page));
        ghost var e := WriteBuffer(first, rank);
        MoreDrained(s, m, pageSize, page, first, rank, d, e);
        d := d + e;
        ShrunkNext(m, View(), pageSize, page, first, e);
      }
      if page in buffers && buffers[page].dirty {
        WritePage(page, rank);
      }
      LastWrite(s, pageSize, page, rank, d);
      d := if Dirty(Wrote(s, pageSize, d), page) then d + [page] else d;
    }

    /** The physical write. */
    method WritePage(page: Page, ghost rank: Page -> nat)
      requires Ok() && Ranked(higher, rank) && page in buffers && buffers[page].dirty && Next(higher, page) == {}
      modifies this
      ensures Ok() && View() == WroteOne(old(View()), pageSize, page) && Ranked(higher, rank)
    {
      hide Consistent, ClearHigher, Ranked;
      WriteKeepsValid(View(), pageSize, page, rank);
      var b := buffers[page];
      var start := page * pageSize;
      image := Grown(image, start + pageSize);
      image := image[..start] + b.data + image[start + pageSize..];
      buffers := buffers[page := Buffer(b.data, false)];
      writes := writes + [page];
      history := history + [Written(page, b.data)];
      ClearPrecedence(page);
    }

    /** The page is on disk: every edge that named it as first comes down. */
    method ClearPrecedence(page: Page)
      modifies `higher, `lower
      ensures higher == ClearHigher(old(higher), Next(old(lower), page), page)
      ensures lower == old(lower) - {page}
    {
      hide PageSet, ClearHigher, Ascending;
      NothingCleared(higher, page);
      if page in lower {
        var lows := Ascending(lower[page]);
        AscendingPageSet(lower[page]);
        lower := lower - {page};
        EmptyPageSet();
        assert lows[..0] == [];
        for i := 0 to |lows|
          invariant higher == ClearHigher(old(higher), PageSet(lows[..i]), page)
          invariant lower == old(lower) - {page}
        {
          ClearEdge(lows[i], page);
          NextCleared(old(higher), lows, i, page);
        }
        assert lows[..|lows|] == lows;
      }
    }

    /** One edge down; an entry left empty goes with it. */
    method ClearEdge(low: Page, page: Page)
      modifies `higher
      ensures higher == if low !in old(higher) then old(higher)
                        else if old(higher)[low] - {page} == {} then old(higher) - {low}
                        else old(higher)[low := old(higher)[low] - {page}]
    {
      if low in higher {
        var s := higher[low] - {page};
        higher := if s == {} then higher - {low} else higher[low := s];
      }
    }

    /** Write every dirty buffer, lowest page number first, each write draining its own chain. */
    method Flush()
      requires Ok()
      modifies this
      ensures Ok() && Step(old(View()), Op.Flush, View(), pageSize)
      ensures (forall p :: !Dirty(View(), p)) && higher == map[] && lower == map[]
    {
      hide LeastFirst;
      ghost var s := View();
      var dirty := Ascending(set p | p in buffers && buffers[p].dirty);
      assert forall p :: p in dirty <==> Dirty(s, p);
      ghost var d := FlushAll(dirty);
      FlushDone(s, View(), pageSize, d, dirty);
      FlushLeavesNothing(s, View(), pageSize);
    }

    method FlushAll(dirty: seq<Page>) returns (ghost d: seq<Page>)
      requires Ok() && (forall p :: p in dirty <==> Dirty(View(), p)) && forall i, j :: 0 <= i < j < |dirty| ==> dirty[i] < dirty[j]
      modifies this
      ensures Ok() && FlushedSoFar(old(View()), pageSize, dirty, |dirty|, d) && View() == Wrote(old(View()), pageSize, d)
    {
      hide Consistent, Wrote, NoRepeats, InOrder, LeastFirst;
      ghost var s := View();
      ghost var rank :| Ranked(higher, rank);
      d := [];
      NothingDrained(s, pageSize);
      for i := 0 to |dirty|
        invariant Ok() && Ranked(higher, rank)
        invariant FlushedSoFar(s, pageSize, dirty, i, d) && View() == Wrote(s, pageSize, d)
      {
        ghost var e := FlushOne(dirty[i], rank, s, dirty, i, d);
        d := d + e;
      }
    }

    method FlushOne(page: Page, ghost rank: Page -> nat, ghost s: State, ghost dirty: seq<Page>, ghost i: nat, ghost d: seq<Page>)
      returns (ghost e: seq<Page>)
      requires Ok() && Ranked(higher, rank) && Consistent(s, pageSize)
      requires (forall p :: p in dirty <==> Dirty(s, p)) && forall i, j :: 0 <= i < j < |dirty| ==> dirty[i] < dirty[j]
      requires i < |dirty| && page == dirty[i] && FlushedSoFar(s, pageSize, dirty, i, d) && View() == Wrote(s, pageSize, d)
      modifies this
      ensures Ok() && Ranked(higher, rank)
      ensures FlushedSoFar(s, pageSize, dirty, i + 1, d + e) && View() == Wrote(s, pageSize, d + e)
    {
      hide Consistent, Wrote, NoRepeats, InOrder, LeastFirst, Ranked;
      ghost var m := View();
      e := WriteBuffer(page, rank);
      FlushOneMore(s, m, pageSize, d, e, dirty, i);
    }
  }

  // ------------------------------------------------------------------ the steps of a drain

  lemma WriteKeepsValid(s: State, ps: nat, p: Page, rank: Page -> nat)
    requires Valid(s, ps) && Ranked(s.higher, rank) && Dirty(s, p) && Next(s.higher, p) == {}
    ensures |s.buffers[p].data| == ps
    ensures Valid(WroteOne(s, ps, p), ps) && Ranked(WroteOne(s, ps, p).higher, rank)
  {
    WroteOneKeeps(s, ps, p);
  }

  lemma NothingCleared(g: Graph, p: Page)
    ensures ClearHigher(g, {}, p) == g
  {
  }

  lemma NextCleared(g: Graph, lows: seq<Page>, i: nat, p: Page)
    requires i < |lows|
    ensures var h, low := ClearHigher(g, PageSet(lows[..i]), p), lows[i];
            ClearHigher(g, PageSet(lows[..i + 1]), p)
            == if low !in h then h else if h[low] - {p} == {} then h - {low} else h[low := h[low] - {p}]
  {
    hide PageSet;
    assert lows[..i + 1][..i] == lows[..i];
    PageSetLast(lows[..i + 1]);
    ClearOneMore(g, PageSet(lows[..i]), lows[i], p);
  }

  lemma ClearOneMore(g: Graph, lows: set<Page>, low: Page, p: Page)
    ensures var h := ClearHigher(g, lows, p);
            ClearHigher(g, lows + {low}, p)
            == if low !in h then h else if h[low] - {p} == {} then h - {low} else h[low := h[low] - {p}]
  {
    var h, after := ClearHigher(g, lows, p), ClearHigher(g, lows + {low}, p);
    var step := if low !in h then h else if h[low] - {p} == {} then h - {low} else h[low := h[low] - {p}];
    forall w ensures w in after <==> w in step {
      assert w in g && w == low && w in lows ==> g[w] - {p} - {p} == g[w] - {p};
    }
    forall w | w in after ensures after[w] == step[w] {
    }
  }

  /** In the middle of a drain of `page`: everything written so far lies below it. */
  ghost predicate DrainedSoFar(s: State, ps: nat, page: Page, rank: Page -> nat, d: seq<Page>) {
    && Drainable(s, ps, d) && LeastFirst(s.higher, Next(s.higher, page), d)
    && forall x :: x in d ==> x in ReachSet(s.higher, page) && rank(x) < rank(page)
  }

  lemma MoreDrained(s: State, m: State, ps: nat, page: Page, first: Page, rank: Page -> nat, d: seq<Page>, e: seq<Page>)
    requires Consistent(s, ps) && Ranked(m.higher, rank)
    requires DrainedSoFar(s, ps, page, rank, d) && m == Wrote(s, ps, d)
    requires IsLeast(Next(m.higher, page), first) && DrainsPage(m, ps, first, e)
    ensures DrainedSoFar(s, ps, page, rank, d + e) && Wrote(m, ps, e) == Wrote(s, ps, d + e)
  {
    hide Consistent, WroteOne, Drainable, Wrote, LeastFirst, ReachSet;
    DrainKeeps(s, ps, d);
    DrainsCompose(s, ps, d, e);
    SubgraphReaches(s.higher, m.higher, first);
    forall x: Page | x in Next(s.higher, page) && x < first ensures x in d {
      assert x !in Next(m.higher, page);
    }
    MoreStarted(s.higher, Next(s.higher, page), d, e, first);
    forall x | x in d + e ensures x in ReachSet(s.higher, page) && rank(x) < rank(page) {
      if x in e {
        ReachSetClosed(m.higher, page, page);
        ReachSetClosed(m.higher, page, first);
        SubgraphReaches(s.higher, m.higher, page);
        ReachDescends(m.higher, rank, first, x);
      }
    }
  }

  lemma ShrunkNext(m: State, t: State, ps: nat, page: Page, first: Page, e: seq<Page>)
    requires Consistent(m, ps) && first in Next(m.higher, page) && DrainsPage(m, ps, first, e) && t == Wrote(m, ps, e)
    ensures |Next(t.higher, page)| < |Next(m.higher, page)|
  {
    DrainKeeps(m, ps, e);
    assert Dirty(m, first);
    assert first in ReachSet(m.higher, first);
    assert first in e;
    assert first in PageSet(e);
    SmallerSet(Next(t.higher, page), Next(m.higher, page), first);
  }

  lemma SmallerSet(a: set<Page>, b: set<Page>, x: Page)
    requires a <= b && x in b && x !in a
    ensures |a| < |b|
  {
    SubsetSize(a, b - {x});
  }

  lemma {:induction false} SubsetSize(a: set<Page>, b: set<Page>)
    requires a <= b
    ensures |a| <= |b|
    decreases |a|
  {
    if a != {} {
      var x :| x in a;
      SubsetSize(a - {x}, b - {x});
    }
  }

  /** With nothing left ahead of it the page goes last, and the drain is complete. */
  lemma LastWrite(s: State, ps: nat, page: Page, rank: Page -> nat, d: seq<Page>)
    requires Consistent(s, ps) && DrainedSoFar(s, ps, page, rank, d)
    requires Next(Wrote(s, ps, d).higher, page) == {}
    ensures var t := Wrote(s, ps, d);
            var full := if Dirty(t, page) then d + [page] else d;
            && DrainsPage(s, ps, page, full)
            && (Dirty(t, page) ==> |t.buffers[page].data| == ps)
            && Wrote(s, ps, full) == if Dirty(t, page) then WroteOne(t, ps, page) else t
  {
    hide LeastFirst, Consistent, WroteOne, Wrote, ReachSet, InOrder, NoRepeats;
    var t := Wrote(s, ps, d);
    DrainKeeps(s, ps, d);
    assert page !in d;
    AheadOf(d, page);
    var full := if Dirty(t, page) then d + [page] else d;
    if Dirty(t, page) {
      OnePageDrain(t, ps, page);
      DrainsCompose(s, ps, d, [page]);
    }
    DrainCloses(s, t, page, d);
    forall x ensures x in full <==> x in ReachSet(s.higher, page) && Dirty(s, x) {
    }
  }

  lemma OnePageDrain(t: State, ps: nat, page: Page)
    requires Consistent(t, ps) && Dirty(t, page) && Next(t.higher, page) == {}
    ensures |t.buffers[page].data| == ps && Drainable(t, ps, [page]) && Wrote(t, ps, [page]) == WroteOne(t, ps, page)
  {
    assert [page][..0] == [];
  }

  lemma AheadOf(d: seq<Page>, page: Page)
    requires page !in d
    ensures Ahead(d, page) == d && Ahead(d + [page], page) == d
  {
    assert d != [] ==> d[|d| - 1] in d;
    assert (d + [page])[..|d|] == d;
  }

  lemma DrainCloses(s: State, t: State, page: Page, d: seq<Page>)
    requires InOrder(s.higher, d)
    requires forall w :: Next(t.higher, w) == Next(s.higher, w) - PageSet(d)
    requires Next(t.higher, page) == {}
    ensures forall x :: x in ReachSet(s.higher, page) ==> x in d || x == page
  {
    var closed := PageSet(d) + {page};
    forall x | x in closed ensures Next(s.higher, x) <= closed {
      if x != page {
        var i :| 0 <= i < |d| && d[i] == x;
        assert forall f :: f in Next(s.higher, d[i]) ==> f in d[..i];
      } else {
        assert Next(s.higher, page) <= PageSet(d);
      }
    }
    forall x | x in ReachSet(s.higher, page) ensures x in d || x == page {
      ReachSetMeaning(s.higher, page, x);
      ClosedKeepsReach(s.higher, closed, page, x);
    }
  }

  lemma NothingDrained(s: State, ps: nat)
    ensures Drainable(s, ps, []) && Wrote(s, ps, []) == s
    ensures forall roots :: LeastFirst(s.higher, roots, [])
  {
  }

  /** The first i dirty pages are written, with what they needed, in order. */
  ghost predicate FlushedSoFar(s: State, ps: nat, dirty: seq<Page>, i: nat, d: seq<Page>) {
    && Drainable(s, ps, d) && LeastFirst(s.higher, DirtyPages(s), d)
    && i <= |dirty| && forall k :: 0 <= k < i ==> dirty[k] in d
  }

  lemma FlushOneMore(s: State, m: State, ps: nat, d: seq<Page>, e: seq<Page>, dirty: seq<Page>, i: nat)
    requires Consistent(s, ps) && FlushedSoFar(s, ps, dirty, i, d) && i < |dirty| && m == Wrote(s, ps, d)
    requires (forall p :: p in dirty <==> Dirty(s, p)) && forall k, l :: 0 <= k < l < |dirty| ==> dirty[k] < dirty[l]
    requires DrainsPage(m, ps, dirty[i], e)
    ensures FlushedSoFar(s, ps, dirty, i + 1, d + e) && Wrote(s, ps, d + e) == Wrote(m, ps, e)
  {
    hide LeastFirst, Consistent, Wrote, NoRepeats, InOrder, ReachSet, DirtyPages, Drainable;
    var p := dirty[i];
    assert p in dirty;
    DrainKeeps(s, ps, d);
    DrainsCompose(s, ps, d, e);
    DirtyPagesAre(s);
    LesserBefore(s, dirty, i, d);
    assert p in d + e;
    SubgraphReaches(s.higher, m.higher, p);
    MoreStarted(s.higher, DirtyPages(s), d, e, p);
  }

  lemma DirtyPagesAre(s: State)
    ensures forall p: Page :: p in DirtyPages(s) <==> Dirty(s, p)
  {
  }

  lemma LesserBefore(s: State, dirty: seq<Page>, i: nat, d: seq<Page>)
    requires (forall p :: p in dirty <==> Dirty(s, p)) && i < |dirty| && forall k, l :: 0 <= k < l < |dirty| ==> dirty[k] < dirty[l]
    requires forall k :: 0 <= k < i ==> dirty[k] in d
    ensures forall x :: Dirty(s, x) && x < dirty[i] ==> x in d
  {
    forall x | Dirty(s, x) && x < dirty[i] ensures x in d {
      var k :| 0 <= k < |dirty| && dirty[k] == x;
    }
  }

  lemma FlushDone(s: State, t: State, ps: nat, d: seq<Page>, dirty: seq<Page>)
    requires FlushedSoFar(s, ps, dirty, |dirty|, d) && t == Wrote(s, ps, d)
    requires forall p :: p in dirty <==> Dirty(s, p)
    ensures FlushOrder(s, ps, d) && FlushStep(s, t, ps)
  {
    assert forall p :: p in d <==> Dirty(s, p);
    assert FlushOrder(s, ps, d);
  }
}
