/** What a crash leaves on disk, and how a before-to-after transition is turned into a plan. */
module CrashPrefix {
  import opened Words
  import opened Power
  import opened PrecedenceGraph
  import opened PageCache
  import CarefulPlan

  /** The bytes of a page that an image holds, fewer than a page's worth at its end. */
  function SliceOf(image: Bytes, ps: nat, page: Page): (r: Bytes)
    ensures |r| <= ps
  {
    var start := page * ps;
    if start > |image| then [] else image[start..if start + ps < |image| then start + ps else |image|]
  }

  lemma SlicePadded(image: Bytes, ps: nat, page: Page)
    ensures CarefulPlan.Resized(SliceOf(image, ps, page), ps) == PageOf(image, ps, page)
  {
  }

  /** The file after the writes of `order`, each with the page's bytes in `after`. */
  function Fold(before: Bytes, after: Bytes, ps: nat, order: seq<Page>): Bytes {
    if order == [] then before
    else
      var p := order[|order| - 1];
      WriteAt(Fold(before, after, ps, order[..|order| - 1]), ps, p, PageOf(after, ps, p))
  }

  /** The file as it exists after the first k writes of `order`: the image grows as far as each page
      requires, and a page at the end of `after` is filled up with zeros. */
  method Prefix(before: Bytes, after: Bytes, ps: nat, order: seq<Page>, k: nat) returns (out: Bytes)
    requires k <= |order| && forall i :: 0 <= i < k ==> order[i] * ps <= |after|
    ensures out == Fold(before, after, ps, order[..k])
  {
    hide WriteAt, PageOf;
    out := before;
    for i := 0 to k
      invariant out == Fold(before, after, ps, order[..i])
    {
      out := Overlay(out, after, ps, order[i]);
      assert order[..i + 1][..i] == order[..i];
    }
  }

  method Overlay(image: Bytes, after: Bytes, ps: nat, p: Page) returns (out: Bytes)
    requires p * ps <= |after|
    ensures out == WriteAt(image, ps, p, PageOf(after, ps, p))
  {
    hide PageOf, Zeros, WriteAt, Grown;
    var start := p * ps;
    out := image;
    if |out| < start + ps {
      out := out + Zeros(start + ps - |out|);
    }
    GrownBy(image, start + ps);
    var src := after[start..if start + ps < |after| then start + ps else |after|];
    out := CopyIn(out, start, src, ps);
    PageAtEnd(after, ps, p, src);
    WrittenAsPart(image, ps, p, PageOf(after, ps, p), start);
  }

  /** The page's bytes, and zeros where they end early. */
  method CopyIn(image: Bytes, start: nat, src: Bytes, ps: nat) returns (out: Bytes)
    requires |src| <= ps && start + ps <= |image|
    ensures out == image[..start] + (src + Zeros(ps - |src|)) + image[start + ps..]
  {
    hide Zeros;
    out := image[..start] + src + image[start + |src|..];
    out := out[..start + |src|] + Zeros(ps - |src|) + out[start + ps..];
    OverwrittenInTwo(image, start, src, ps);
  }

  lemma GrownBy(image: Bytes, n: nat)
    ensures Grown(image, n) == if |image| < n then image + Zeros(n - |image|) else image
  {
  }

  lemma WrittenAsPart(image: Bytes, ps: nat, p: Page, bytes: Bytes, start: nat)
    requires |bytes| == ps && start == p * ps
    ensures WriteAt(image, ps, p, bytes)
            == Grown(image, start + ps)[..start] + bytes + Grown(image, start + ps)[start + ps..]
  {
  }

  lemma OverwrittenInTwo(g: Bytes, start: nat, src: Bytes, ps: nat)
    requires |src| <= ps && start + ps <= |g|
    ensures var first := g[..start] + src + g[start + |src|..];
            first[..start + |src|] + Zeros(ps - |src|) + first[start + ps..] == g[..start] + (src + Zeros(ps - |src|)) + g[start + ps..]
  {
  }

  lemma PageAtEnd(after: Bytes, ps: nat, p: Page, src: Bytes)
    requires p * ps <= |after| && src == after[p * ps..if p * ps + ps < |after| then p * ps + ps else |after|]
    ensures src + Zeros(ps - |src|) == PageOf(after, ps, p)
  {
    SlicePadded(after, ps, p);
  }

  // ------------------------------------------------------------------ pages of a written image

  lemma {:induction false} FoldPage(before: Bytes, after: Bytes, ps: nat, order: seq<Page>, q: Page)
    ensures PageOf(Fold(before, after, ps, order), ps, q) == if q in order then PageOf(after, ps, q) else PageOf(before, ps, q)
  {
    if order != [] {
      var n := |order| - 1;
      FoldPage(before, after, ps, order[..n], q);
      assert order == order[..n] + [order[n]];
      WriteAtPage(Fold(before, after, ps, order[..n]), ps, order[n], PageOf(after, ps, order[n]), q);
    }
  }

  function EndOf(p: Page, ps: nat): nat {
    p * ps + ps
  }

  /** The file is as long as it was or as the last of the written pages needs, whichever is more. */
  lemma {:induction false} FoldLength(before: Bytes, after: Bytes, ps: nat, order: seq<Page>)
    ensures var n := |Fold(before, after, ps, order)|;
            && |before| <= n && (forall p: Page :: p in order ==> EndOf(p, ps) <= n)
            && (n == |before| || exists p: Page :: p in order && n == EndOf(p, ps))
  {
    hide WriteAt, PageOf, EndOf;
    if order != [] {
      var k := |order| - 1;
      FoldLength(before, after, ps, order[..k]);
      OneLonger(Fold(before, after, ps, order[..k]), ps, order[k], PageOf(after, ps, order[k]));
      assert order == order[..k] + [order[k]];
      assert forall q: Page :: q in order <==> q in order[..k] || q == order[k];
    }
  }

  lemma OneLonger(f: Bytes, ps: nat, p: Page, bytes: Bytes)
    requires |bytes| == ps
    ensures |WriteAt(f, ps, p, bytes)| == if |f| < EndOf(p, ps) then EndOf(p, ps) else |f|
  {
    WriteAtLength(f, ps, p, bytes);
  }

  // ------------------------------------------------------------------ the changed pages

  function CeilDiv(n: nat, d: nat): nat
    requires d > 0
  {
    (n + d - 1) / d
  }

  predicate AllZeros(b: Bytes) {
    forall i :: 0 <= i < |b| ==> b[i] == 0
  }

  predicate Same(before: Bytes, after: Bytes, ps: nat, p: Page) {
    var a, b := SliceOf(after, ps, p), SliceOf(before, ps, p);
    a == b || (b == [] && AllZeros(a))
  }

  predicate Changed(before: Bytes, after: Bytes, ps: nat, p: Page)
    requires ps > 0
  {
    p < CeilDiv(|after|, ps) && !Same(before, after, ps, p)
  }

  /** A page counts as changed in terms of bytes alone: it begins inside the new file, and if it begins
      inside the old one, too, the two files' bytes of it are not the same; else it is not all zeros. */
  lemma ChangedExactly(before: Bytes, after: Bytes, ps: nat, p: Page)
    requires ps > 0
    ensures var start := p * ps;
            var upTo := if start + ps < |after| then start + ps else |after|;
            var oldTo := if start + ps < |before| then start + ps else |before|;
            Changed(before, after, ps, p)
            <==> start < |after| && if start < |before| then after[start..upTo] != before[start..oldTo]
                                    else exists i :: start <= i < upTo && after[i] != 0
  {
    hide CeilDiv, AllZeros;
    var start := p * ps;
    BeginsInside(|after|, ps, p);
    if start < |after| {
      ZerosFrom(after, start, start + |SliceOf(after, ps, p)|);
    }
  }

  lemma ZerosFrom(b: Bytes, start: nat, upTo: nat)
    requires start <= upTo <= |b|
    ensures AllZeros(b[start..upTo]) <==> !exists i :: start <= i < upTo && b[i] != 0
  {
    var a := b[start..upTo];
    if AllZeros(a) {
      forall i | start <= i < upTo ensures b[i] == 0 {
        assert a[i - start] == 0;
      }
    }
  }

  lemma BeginsInside(n: nat, ps: nat, p: Page)
    requires ps > 0
    ensures p < CeilDiv(n, ps) <==> p * ps < n
  {
    var c := CeilDiv(n, ps);
    DivBasics(n + ps - 1, ps);
    if p < c {
      MulLeft(p + 1, c, ps);
      MulDistributes(ps, p, 1);
    } else {
      MulLeft(c, p, ps);
    }
  }

  /** The pages on which the two files differ, in ascending order; a page new in `after` is compared
      with zeros. */
  method ChangedPages(before: Bytes, after: Bytes, ps: nat) returns (out: seq<Page>)
    requires ps > 0
    ensures forall p :: p in out <==> Changed(before, after, ps, p)
    ensures forall i, j :: 0 <= i < j < |out| ==> out[i] < out[j]
  {
    hide Same, CeilDiv, SliceOf, AllZeros;
    out := [];
    var pages := CeilDiv(|after|, ps);
    for p := 0 to pages
      invariant forall q: Page :: q in out <==> q < p && !Same(before, after, ps, q)
      invariant forall i :: 0 <= i < |out| ==> out[i] < p
      invariant forall i, j :: 0 <= i < j < |out| ==> out[i] < out[j]
    {
      var a, b := SliceOf(after, ps, p), SliceOf(before, ps, p);
      var same := (|a| == |b| && a == b) || (|b| == 0 && AllZeros(a));
      SameBytes(before, after, ps, p);
      assert same <==> Same(before, after, ps, p);
      if !same {
        assert forall q: Page :: q in out + [p] <==> q in out || q == p;
        out := out + [p];
      }
    }
  }

  lemma SameBytes(before: Bytes, after: Bytes, ps: nat, p: Page)
    ensures var a, b := SliceOf(after, ps, p), SliceOf(before, ps, p);
            Same(before, after, ps, p) <==> (|a| == |b| && a == b) || (|b| == 0 && AllZeros(a))
  {
  }

  lemma SamePage(before: Bytes, after: Bytes, ps: nat, p: Page)
    requires Same(before, after, ps, p)
    ensures PageOf(before, ps, p) == PageOf(after, ps, p)
  {
    SlicePadded(before, ps, p);
    SlicePadded(after, ps, p);
    var a, b := SliceOf(after, ps, p), SliceOf(before, ps, p);
    if a != b {
      assert CarefulPlan.Resized(a, ps) == CarefulPlan.Resized(b, ps);
    }
  }

  lemma PagePastEnd(image: Bytes, ps: nat, p: Page)
    requires ps > 0 && p >= CeilDiv(|image|, ps)
    ensures PageOf(image, ps, p) == Zeros(ps)
  {
    DivBasics(|image| + ps - 1, ps);
    MulLeft(CeilDiv(|image|, ps), p, ps);
  }

  /** Once all changed pages are written the file reads like `after` on every page if and only if
      `before` has nothing past the pages of `after`. */
  lemma FullPrefixAgrees(before: Bytes, after: Bytes, ps: nat, order: seq<Page>)
    requires ps > 0
    requires forall p :: p in order <==> Changed(before, after, ps, p)
    ensures forall p: Page :: p < CeilDiv(|after|, ps) ==> PageOf(Fold(before, after, ps, order), ps, p) == PageOf(after, ps, p)
    ensures (forall p :: PageOf(Fold(before, after, ps, order), ps, p) == PageOf(after, ps, p))
            <==> (forall p: Page :: p >= CeilDiv(|after|, ps) ==> PageOf(before, ps, p) == Zeros(ps))
  {
    hide Fold, CeilDiv, Same, PageOf;
    forall p: Page
      ensures p < CeilDiv(|after|, ps) ==> PageOf(Fold(before, after, ps, order), ps, p) == PageOf(after, ps, p)
      ensures p >= CeilDiv(|after|, ps) ==> PageOf(Fold(before, after, ps, order), ps, p) == PageOf(before, ps, p)
                                            && PageOf(after, ps, p) == Zeros(ps)
    {
      FoldPage(before, after, ps, order, p);
      if p < CeilDiv(|after|, ps) {
        if p !in order {
          SamePage(before, after, ps, p);
        }
      } else {
        PagePastEnd(after, ps, p);
      }
    }
  }

  // ------------------------------------------------------------------ the cache against its prefixes

  /** The image of a cache whose every write carried the bytes of `after` is the crash prefix of its
      write log. */
  lemma {:induction false} ReplayIsFold(base: Bytes, after: Bytes, ps: nat, history: seq<Event>)
    requires AllPages(history, ps)
    requires forall i :: 0 <= i < |history| && history[i].Written? ==> history[i].bytes == PageOf(after, ps, history[i].page)
    ensures Replay(base, ps, history) == Fold(base, after, ps, WrittenPages(history))
  {
    if history != [] {
      var n := |history| - 1;
      ReplayIsFold(base, after, ps, history[..n]);
      if history[n].Written? {
        var front := WrittenPages(history[..n]);
        assert (front + [history[n].page])[..|front|] == front;
      } else {
        assert WrittenPages(history) == WrittenPages(history[..n]);
      }
    }
  }

  /** Every prefix of the write log is the write log of some earlier moment. */
  lemma {:induction false} MomentOfWrite(history: seq<Event>, k: nat) returns (n: nat)
    requires k <= |WrittenPages(history)|
    ensures n <= |history| && WrittenPages(history[..n]) == WrittenPages(history)[..k]
  {
    if k == |WrittenPages(history)| {
      n := |history|;
      assert history[..n] == history;
    } else {
      var m := |history| - 1;
      n := MomentOfWrite(history[..m], k);
      assert history[..m][..n] == history[..n];
    }
  }

  /** After n events of the run the file was `image`. */
  ghost predicate WasThen(base: Bytes, ps: nat, history: seq<Event>, n: nat, image: Bytes) {
    n <= |history| && AllPages(history[..n], ps) && Replay(base, ps, history[..n]) == image
  }

  /** Every crash prefix of the order was the file at some moment of the run. */
  lemma PrefixWasThen(base: Bytes, after: Bytes, ps: nat, history: seq<Event>, k: nat) returns (n: nat)
    requires AllPages(history, ps) && k <= |WrittenPages(history)|
    requires forall i :: 0 <= i < |history| && history[i].Written? ==> history[i].bytes == PageOf(after, ps, history[i].page)
    ensures WasThen(base, ps, history, n, Fold(base, after, ps, WrittenPages(history)[..k]))
  {
    hide Replay, Fold, PageOf, WrittenPages;
    n := MomentOfWrite(history, k);
    ReplayIsFold(base, after, ps, history[..n]);
  }

  /** The first k writes of the order alone were once in the file. */
  ghost predicate PrefixSeen(base: Bytes, after: Bytes, ps: nat, history: seq<Event>, order: seq<Page>, k: nat)
    requires k <= |order|
  {
    exists n: nat :: WasThen(base, ps, history, n, Fold(base, after, ps, order[..k]))
  }

  /** The file was a crash prefix of the order at every moment of the run, and at some moment each one. */
  ghost predicate MomentsArePrefixes(base: Bytes, after: Bytes, ps: nat, history: seq<Event>, order: seq<Page>) {
    && (forall n :: 0 <= n <= |history| && AllPages(history[..n], ps)
          ==> Replay(base, ps, history[..n]) == Fold(base, after, ps, WrittenPages(history[..n])))
    && (forall k: nat :: k <= |order| ==> PrefixSeen(base, after, ps, history, order, k))
  }

  /** Build the plan of a before-to-after transition and run it. At every moment of its run the image
      was a crash prefix of the order it produced, and every crash prefix was the image at some moment;
      that order holds each changed page once, and obeys the page types exactly when every search fits. */
  method Plan(before: Bytes, after: Bytes, ps: nat) returns (cache: Cache, ghost plan: CarefulPlan.Plan)
    requires ps > 0
    ensures fresh(cache) && cache.pageSize == ps && cache.Ok()
    ensures NoRepeats(cache.writes)
    ensures forall p :: p in cache.writes <==> Changed(before, after, ps, p)
    ensures cache.image == Fold(before, after, ps, cache.writes)
    ensures MomentsArePrefixes(before, after, ps, cache.history, cache.writes)
    ensures TypedBy(plan, after, ps) && forall p: Page :: p in plan.changed <==> p in cache.writes
    ensures CarefulPlan.Obeys(plan, cache.writes) <==> CarefulPlan.SearchesFit(plan)
  {
    hide MomentsArePrefixes, Fold, PageOf, SlicesOf, TypesOf, TypedBy, Changed, NoRepeats, LeastFirst;
    hide CarefulPlan.PlanOf, CarefulPlan.Obeys, CarefulPlan.SearchesFit, CarefulPlan.Marked, CarefulPlan.FlushedAtEnd, CarefulPlan.PlanGraph;
    var changed := ChangedPages(before, after, ps);
    cache := new Cache.Attach(before, ps);
    plan := CarefulPlan.BuildPlan(cache, changed, TypesOf(after, ps), SlicesOf(after, ps));
    PlanNames(changed, after, ps);
    PlanImages(plan, cache.View(), after, ps);
  }

  /** A page's type byte, 0 past the end. */
  function TypeOf(image: Bytes, ps: nat, page: Page): u8 {
    if page * ps < |image| then image[page * ps] else 0
  }

  /** The plan goes by each page's first byte in the new file. */
  ghost predicate TypedBy(plan: CarefulPlan.Plan, after: Bytes, ps: nat) {
    forall p: Page :: plan.typeOf(p) == if p * ps < |after| then after[p * ps] else 0
  }

  function TypesOf(image: Bytes, ps: nat): Page -> u8 {
    (p: Page) => TypeOf(image, ps, p)
  }

  function SlicesOf(image: Bytes, ps: nat): Page -> Bytes {
    (p: Page) => SliceOf(image, ps, p)
  }

  lemma PlanNames(changed: seq<Page>, after: Bytes, ps: nat)
    ensures var plan := CarefulPlan.PlanOf(changed, TypesOf(after, ps), SlicesOf(after, ps), ps);
            && (forall p :: p in plan.changed <==> p in changed)
            && TypedBy(plan, after, ps) && forall p: Page :: plan.bytes(p) == PageOf(after, ps, p)
  {
    var plan := CarefulPlan.PlanOf(changed, TypesOf(after, ps), SlicesOf(after, ps), ps);
    forall p: Page ensures plan.bytes(p) == PageOf(after, ps, p) {
      SlicePadded(after, ps, p);
    }
  }

  lemma PlanImages(plan: CarefulPlan.Plan, s: State, after: Bytes, ps: nat)
    requires CarefulPlan.Marked(plan, s, ps) && forall p :: plan.bytes(p) == PageOf(after, ps, p)
    ensures s.image == Fold(s.base, after, ps, s.writes)
    ensures MomentsArePrefixes(s.base, after, ps, s.history, s.writes)
  {
    hide Replay, Fold, PageOf, WasThen;
    assert s.writes == WrittenPages(s.history);
    forall k: nat | k <= |s.writes|
      ensures PrefixSeen(s.base, after, ps, s.history, s.writes, k)
    {
      var n := PrefixWasThen(s.base, after, ps, s.history, k);
      assert WasThen(s.base, ps, s.history, n, Fold(s.base, after, ps, s.writes[..k]));
    }
    ReplayIsFold(s.base, after, ps, s.history);
    forall n | 0 <= n <= |s.history| && AllPages(s.history[..n], ps)
      ensures Replay(s.base, ps, s.history[..n]) == Fold(s.base, after, ps, WrittenPages(s.history[..n]))
    {
      ReplayIsFold(s.base, after, ps, s.history[..n]);
    }
  }
}
