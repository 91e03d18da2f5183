/** The careful-write plan for a set of changed pages: edges laid by page type, then a flush. The
    order it produces obeys the page-type rules exactly when no search on the way gives up. */
module CarefulPlan {
  import opened Words
  import opened PrecedenceGraph
  import opened PageCache

  type PageType = u8

  const HEADER: PageType := 1
  const PIP: PageType := 2
  const TIP: PageType := 3
  const POINTER_PAGE: PageType := 4
  const DATA: PageType := 5
  const ROOT: PageType := 6
  const BTREE: PageType := 7
  const BLOB: PageType := 8

  /** The eight groups of edges, in the order they are laid: a page of type `first` goes before every
      page of type `window`. */
  predicate Rule(r: int, first: PageType, window: PageType) {
    match r
    case 1 => first == DATA && window == POINTER_PAGE
    case 2 => first == BTREE && window == ROOT
    case 3 => first == DATA && window == BTREE
    case 4 => first == BLOB && window == DATA
    case 5 => first == DATA && window == PIP
    case 6 => first == PIP && window == POINTER_PAGE
    case 7 => first == HEADER && window != HEADER
    case 8 => first != TIP && window == TIP
    case _ => false
  }

  const RULES: int := 8

  /** Some rule up to the k-th. */
  predicate RuleUpTo(k: int, first: PageType, window: PageType) {
    exists r :: 1 <= r <= k && r <= RULES && Rule(r, first, window)
  }

  /** The whole ranking: content before reference, the header before all, the TIP last. */
  predicate MustPrecede(first: PageType, window: PageType) {
    RuleUpTo(RULES, first, window)
  }

  /** The ranking by page type numbers: header 1, PIP 2, TIP 3, pointer page 4, data 5, index root 6,
      index 7, blob 8. Content goes before what refers to it, the header before everything else, and the
      TIP - the commit itself - after everything else. */
  lemma RankingIs(first: PageType, window: PageType)
    ensures MustPrecede(first, window)
            <==> || (first == 1 && window != 1)
                 || (window == 3 && first != 3)
                 || (first == 5 && window == 4) || (first == 7 && window == 6) || (first == 5 && window == 7)
                 || (first == 8 && window == 5) || (first == 5 && window == 2) || (first == 2 && window == 4)
  {
    assert RuleUpTo(RULES, first, window) <==
           (Rule(1, first, window) || Rule(2, first, window) || Rule(3, first, window) || Rule(4, first, window)
            || Rule(5, first, window) || Rule(6, first, window) || Rule(7, first, window) || Rule(8, first, window));
  }

  /** A level every rule climbs. */
  function Level(t: PageType): nat {
    if t == HEADER then 0
    else if t == DATA then 2
    else if t == BTREE || t == PIP then 3
    else if t == POINTER_PAGE || t == ROOT then 4
    else if t == TIP then 5
    else 1
  }

  /** Within one rule every first lies below every window. */
  lemma RuleClimbs(r: int, f: PageType, w: PageType, f': PageType, w': PageType)
    requires Rule(r, f, w) && Rule(r, f', w')
    ensures Level(f) < Level(w')
  {
  }

  lemma RulesClimb(k: int, f: PageType, w: PageType)
    requires RuleUpTo(k, f, w)
    ensures Level(f) < Level(w)
  {
    var r :| 1 <= r <= k && r <= RULES && Rule(r, f, w);
    RuleClimbs(r, f, w, f, w);
  }

  /** What a window was ordered after by an earlier rule lies below what this rule orders it after,
      unless that is a header. */
  lemma LaterRulesLieHigher(r: int, f: PageType, w: PageType, y: PageType)
    requires Rule(r, f, w) && RuleUpTo(r - 1, y, w)
    ensures f == HEADER || Level(y) < Level(f)
  {
    var q :| 1 <= q <= r - 1 && q <= RULES && Rule(q, y, w);
    assert 1 <= q < r <= 8;
  }

  lemma NothingBeforeHeader(k: int, f: PageType)
    ensures !RuleUpTo(k, f, HEADER)
  {
    if RuleUpTo(k, f, HEADER) {
      RulesClimb(k, f, HEADER);
    }
  }

  // ------------------------------------------------------------------ the plan

  /** The changed pages, their types, and the bytes each is to be written with. */
  datatype Plan = Plan(changed: set<Page>, typeOf: Page -> PageType, bytes: Page -> Bytes)

  /** The pages of the plan that the first k rules order before `w`. */
  function Firsts(plan: Plan, k: int, w: Page): set<Page> {
    if w in plan.changed then set f | f in plan.changed && RuleUpTo(k, plan.typeOf(f), plan.typeOf(w)) else {}
  }

  /** The graph the first k rules describe. */
  function PlanGraph(plan: Plan, k: int): Graph {
    map w | w in plan.changed && Firsts(plan, k, w) != {} :: Firsts(plan, k, w)
  }

  lemma PlanGraphNext(plan: Plan, k: int, w: Page)
    ensures Next(PlanGraph(plan, k), w) == Firsts(plan, k, w)
  {
  }

  /** The search a rule makes for `f` ends within its budget. */
  ghost predicate Fits(plan: Plan, r: int, f: Page) {
    SearchCost(PlanGraph(plan, r - 1), f) <= RELATED_LIMIT
  }

  predicate Pair(plan: Plan, r: int, w: Page, f: Page) {
    w in plan.changed && f in plan.changed && Rule(r, plan.typeOf(f), plan.typeOf(w))
  }

  /** No search of the whole plan gives up. A property of the page types alone. */
  ghost predicate SearchesFit(plan: Plan) {
    forall r, w, f :: 1 <= r <= RULES && Pair(plan, r, w, f) ==> Fits(plan, r, f)
  }

  /** A page out of order: written although a page that must precede it was not yet. */
  ghost predicate OutOfOrder(plan: Plan, order: seq<Page>, i: int, f: Page) {
    0 <= i < |order| && f in plan.changed && MustPrecede(plan.typeOf(f), plan.typeOf(order[i])) && f !in order[..i]
  }

  ghost predicate Obeys(plan: Plan, order: seq<Page>) {
    forall i, f :: !OutOfOrder(plan, order, i, f)
  }

  /** Every crash prefix of an obedient order is closed under the rules. */
  lemma PrefixesClosed(plan: Plan, order: seq<Page>, k: nat, w: Page, f: Page)
    requires Obeys(plan, order) && k <= |order| && w in order[..k] && f in plan.changed
    requires MustPrecede(plan.typeOf(f), plan.typeOf(w))
    ensures f in order[..k]
  {
    var i :| 0 <= i < k && order[i] == w;
    assert !OutOfOrder(plan, order, i, f);
    assert order[..i] <= order[..k];
  }

  // ------------------------------------------------------------------ where the plan stands

  /** Every changed page was marked once with its bytes, and written at most once since. */
  ghost predicate Marked(plan: Plan, s: State, ps: nat) {
    && Valid(s, ps)
    && s.buffers.Keys == plan.changed
    && (forall p :: p in s.buffers ==> s.buffers[p].data == plan.bytes(p))
    && NoRepeats(s.writes) && (forall p :: p in s.writes ==> p in plan.changed)
    && (forall p :: Dirty(s, p) <==> p in plan.changed && p !in s.writes)
    && (forall i :: 0 <= i < |s.history| && s.history[i].Written? ==> s.history[i].bytes == plan.bytes(s.history[i].page))
  }

  /** Rules below r are laid, and of rule r the pairs in `done`. */
  ghost predicate Laid(plan: Plan, s: State, r: int, done: set<(Page, Page)>) {
    && s.writes == []
    && forall p: Page :: Next(s.higher, p) == Firsts(plan, r - 1, p) + (set f | f in plan.changed && (p, f) in done)
  }

  ghost predicate FitsSoFar(plan: Plan, r: int, done: set<(Page, Page)>) {
    && (forall q, w, f :: 1 <= q < r && q <= RULES && Pair(plan, q, w, f) ==> Fits(plan, q, f))
    && forall w: Page, f: Page :: (w, f) in done ==> Fits(plan, r, f)
  }

  /** Every edge of a graph is one the rules ask for. */
  ghost predicate Within(plan: Plan, g: Graph) {
    forall w: Page :: Next(g, w) <= Firsts(plan, RULES, w)
  }

  /** So far every search fitted, nothing is written and the graph is the plan's; or one did not, and
      a page has been written out of order. */
  ghost predicate Progress(plan: Plan, s: State, ps: nat, r: int, done: set<(Page, Page)>) {
    && Marked(plan, s, ps) && Within(plan, s.higher)
    && (forall w: Page, f: Page :: (w, f) in done ==> Pair(plan, r, w, f))
    && if FitsSoFar(plan, r, done) then Laid(plan, s, r, done) else !Obeys(plan, s.writes)
  }

  // ------------------------------------------------------------------ one precedence call

  function LevelOf(plan: Plan): Page -> nat {
    (p: Page) => Level(plan.typeOf(p))
  }

  lemma LaidClimbs(plan: Plan, s: State, r: int, done: set<(Page, Page)>)
    requires Laid(plan, s, r, done) && forall w: Page, f: Page :: (w, f) in done ==> Pair(plan, r, w, f)
    ensures Ranked(s.higher, LevelOf(plan))
  {
    forall w, f | f in Next(s.higher, w) ensures LevelOf(plan)(f) < LevelOf(plan)(w) {
      if f in Firsts(plan, r - 1, w) {
        RulesClimb(r - 1, plan.typeOf(f), plan.typeOf(w));
      } else {
        assert Pair(plan, r, w, f);
        RuleClimbs(r, plan.typeOf(f), plan.typeOf(w), plan.typeOf(f), plan.typeOf(w));
      }
    }
  }

  lemma PlanGraphClimbs(plan: Plan, k: int)
    ensures Ranked(PlanGraph(plan, k), LevelOf(plan))
  {
    forall w, f | f in Next(PlanGraph(plan, k), w) ensures LevelOf(plan)(f) < LevelOf(plan)(w) {
      PlanGraphNext(plan, k, w);
      RulesClimb(k, plan.typeOf(f), plan.typeOf(w));
    }
  }

  /** The edges of rule r already laid leave windows no search of rule r comes near. */
  lemma SearchUnaffected(plan: Plan, s: State, r: int, done: set<(Page, Page)>, w: Page, f: Page)
    requires Laid(plan, s, r, done) && (forall x: Page, y: Page :: (x, y) in done ==> Pair(plan, r, x, y)) && Pair(plan, r, w, f)
    ensures ReachSet(s.higher, f) == ReachSet(PlanGraph(plan, r - 1), f)
    ensures SearchCost(s.higher, f) == SearchCost(PlanGraph(plan, r - 1), f)
    ensures w !in ReachSet(s.higher, f)
  {
    var g := PlanGraph(plan, r - 1);
    PlanGraphClimbs(plan, r - 1);
    forall x | x in ReachSet(g, f) ensures Next(g, x) == Next(s.higher, x) {
      ReachDescends(g, LevelOf(plan), f, x);
      PlanGraphNext(plan, r - 1, x);
      forall y: Page | (x, y) in done ensures false {
        assert Pair(plan, r, x, y);
        RuleClimbs(r, plan.typeOf(f), plan.typeOf(w), plan.typeOf(y), plan.typeOf(x));
      }
    }
    SearchCostFrame(g, s.higher, f);
    RuleClimbs(r, plan.typeOf(f), plan.typeOf(w), plan.typeOf(f), plan.typeOf(w));
    if w in ReachSet(g, f) {
      ReachDescends(g, LevelOf(plan), f, w);
    }
  }

  /** A header has nothing before it, so a search from one pops only itself. */
  lemma HeaderFits(plan: Plan, r: int, f: Page)
    requires plan.typeOf(f) == HEADER
    ensures Fits(plan, r, f)
  {
    var g := PlanGraph(plan, r - 1);
    PlanGraphNext(plan, r - 1, f);
    var firsts := Firsts(plan, r - 1, f);
    if y :| y in firsts {
      NothingBeforeHeader(r - 1, plan.typeOf(y));
    }
    ReachesSelf(g, f);
    ReachSetIs(g, f, {f});
    EdgeSumRemove(g, {f}, f);
    assert {f} - {f} == {};
    NoEdges(g);
  }

  /** When a search gives up, what it searched from is not among what the window waits for. */
  lemma GivenUpIsNotAhead(plan: Plan, s: State, r: int, done: set<(Page, Page)>, w: Page, f: Page)
    requires Laid(plan, s, r, done) && (forall x: Page, y: Page :: (x, y) in done ==> Pair(plan, r, x, y)) && Pair(plan, r, w, f)
    requires !Fits(plan, r, f) && forall x: Page, y: Page :: (x, y) in done ==> Fits(plan, r, y)
    ensures f !in ReachSet(s.higher, w)
  {
    if f in ReachSet(s.higher, w) {
      RuleClimbs(r, plan.typeOf(f), plan.typeOf(w), plan.typeOf(f), plan.typeOf(w));
      ReachSetUnfold(s.higher, w, f);
      var y :| y in Next(s.higher, w) && f in ReachSet(s.higher, y);
      if y in Firsts(plan, r - 1, w) {
        LaterRulesLieHigher(r, plan.typeOf(f), plan.typeOf(w), plan.typeOf(y));
        LaidClimbs(plan, s, r, done);
        ReachDescends(s.higher, LevelOf(plan), y, f);
        HeaderFits(plan, r, f);
      } else {
        assert (w, y) in done;
        SearchUnaffected(plan, s, r, done, w, y);
        SearchCostMonotone(PlanGraph(plan, r - 1), y, f);
      }
      assert false;
    }
  }

  /** Writes only grow an order, and what is out of order stays out of order. */
  lemma DisorderStays(plan: Plan, order: seq<Page>, more: seq<Page>)
    requires !Obeys(plan, order)
    ensures !Obeys(plan, order + more)
  {
    var i, f :| OutOfOrder(plan, order, i, f);
    assert (order + more)[..i] == order[..i];
    assert OutOfOrder(plan, order + more, i, f);
  }

  lemma DrainKeepsMarked(plan: Plan, s: State, ps: nat, d: seq<Page>)
    requires Marked(plan, s, ps) && Drainable(s, ps, d)
    ensures Marked(plan, Wrote(s, ps, d), ps)
  {
    hide GraphOk, HistoryOk, InOrder;
    DrainKeepsValid(s, ps, d);
    DrainKeepsLogs(plan, s, ps, d);
    WritesAfterDrain(plan.changed, s, Wrote(s, ps, d), d);
  }

  lemma WritesAfterDrain(changed: set<Page>, s: State, t: State, d: seq<Page>)
    requires NoRepeats(s.writes) && NoRepeats(d) && t.writes == s.writes + d
    requires forall p :: p in s.writes ==> p in changed
    requires forall p :: Dirty(s, p) <==> p in changed && p !in s.writes
    requires forall p :: Dirty(t, p) <==> Dirty(s, p) && p !in d
    requires forall i :: 0 <= i < |d| ==> Dirty(s, d[i])
    ensures NoRepeats(t.writes)
    ensures forall p :: p in t.writes ==> p in changed
    ensures forall p :: Dirty(t, p) <==> p in changed && p !in t.writes
  {
  }

  lemma {:induction false} DrainKeepsLogs(plan: Plan, s: State, ps: nat, d: seq<Page>)
    requires Consistent(s, ps) && Drainable(s, ps, d)
    requires forall p :: p in s.buffers ==> s.buffers[p].data == plan.bytes(p)
    requires forall i :: 0 <= i < |s.history| && s.history[i].Written? ==> s.history[i].bytes == plan.bytes(s.history[i].page)
    ensures var t := Wrote(s, ps, d);
            && t.writes == s.writes + d
            && (forall p :: Dirty(t, p) <==> Dirty(s, p) && p !in d)
            && forall i :: 0 <= i < |t.history| && t.history[i].Written? ==> t.history[i].bytes == plan.bytes(t.history[i].page)
  {
    hide Consistent;
    DrainKeeps(s, ps, d);
    if d != [] {
      FrontDrainable(s, ps, d);
      DrainKeepsLogs(plan, s, ps, d[..|d| - 1]);
    }
  }

  /** One `precedence` call of rule r moves the plan on by its pair. */
  lemma PrecedeProgress(plan: Plan, s: State, t: State, ps: nat, r: int, done: set<(Page, Page)>, w: Page, f: Page)
    requires Progress(plan, s, ps, r, done) && Pair(plan, r, w, f) && 1 <= r <= RULES
    requires PrecedeStep(s, t, ps, w, f)
    ensures Progress(plan, t, ps, r, done + {(w, f)})
  {
    hide Valid, Wrote, Rule, Within;
    PrecedeKeepsMarked(plan, s, t, ps, w, f);
    PrecedeKeepsWithin(plan, s, t, ps, r, w, f);
    if !FitsSoFar(plan, r, done) {
      if FitsSoFar(plan, r, done + {(w, f)}) {
        FittedBefore(plan, r, done, w, f);
      }
      var more := PrecedeWrites(s, t, ps, w, f);
      DisorderStays(plan, s.writes, more);
    } else if Fits(plan, r, f) {
      EdgeLaid(plan, s, t, ps, r, done, w, f);
    } else {
      PairGivenUp(plan, s, t, ps, r, done, w, f);
    }
  }

  lemma FittedBefore(plan: Plan, r: int, done: set<(Page, Page)>, w: Page, f: Page)
    requires FitsSoFar(plan, r, done + {(w, f)})
    ensures FitsSoFar(plan, r, done)
  {
    assert forall x: Page, y: Page :: (x, y) in done ==> (x, y) in done + {(w, f)};
  }

  lemma PrecedeKeepsMarked(plan: Plan, s: State, t: State, ps: nat, w: Page, f: Page)
    requires Marked(plan, s, ps) && PrecedeStep(s, t, ps, w, f)
    ensures Marked(plan, t, ps)
  {
    hide Consistent, Wrote;
    if t != s {
      if RelatedSpec(s.higher, f, w, RELATED_LIMIT) {
        var d :| DrainsPage(s, ps, w, d) && t == Wrote(s, ps, d);
        DrainKeepsMarked(plan, s, ps, d);
      } else {
        PrecedeKeepsValid(s, t, ps, w, f);
      }
    }
  }

  lemma PrecedeKeepsWithin(plan: Plan, s: State, t: State, ps: nat, r: int, w: Page, f: Page)
    requires Valid(s, ps) && PrecedeStep(s, t, ps, w, f) && Within(plan, s.higher) && Pair(plan, r, w, f) && 1 <= r <= RULES
    ensures Within(plan, t.higher)
  {
    hide Consistent, Wrote, Rule, Firsts, LeastFirst, NoRepeats, InOrder, RelatedSpec;
    if t != s {
      if RelatedSpec(s.higher, f, w, RELATED_LIMIT) {
        var d :| DrainsPage(s, ps, w, d) && t == Wrote(s, ps, d);
        DrainKeeps(s, ps, d);
        forall p: Page ensures Next(t.higher, p) <= Firsts(plan, RULES, p) {
          assert Next(t.higher, p) <= Next(s.higher, p);
        }
      } else {
        PairInFirsts(plan, r, w, f);
        forall p: Page ensures Next(t.higher, p) <= Firsts(plan, RULES, p) {
          assert Next(t.higher, p) <= Next(s.higher, p) + if p == w then {f} else {};
        }
      }
    }
  }

  lemma PairInFirsts(plan: Plan, r: int, w: Page, f: Page)
    requires Pair(plan, r, w, f) && 1 <= r <= RULES
    ensures f in Firsts(plan, RULES, w)
  {
    hide Rule;
  }

  lemma PrecedeWrites(s: State, t: State, ps: nat, w: Page, f: Page) returns (more: seq<Page>)
    requires Valid(s, ps) && PrecedeStep(s, t, ps, w, f)
    ensures t.writes == s.writes + more
  {
    hide Consistent;
    if t != s && RelatedSpec(s.higher, f, w, RELATED_LIMIT) {
      more :| DrainsPage(s, ps, w, more) && t == Wrote(s, ps, more);
      DrainKeeps(s, ps, more);
    } else {
      more := [];
    }
  }

  lemma EdgeLaid(plan: Plan, s: State, t: State, ps: nat, r: int, done: set<(Page, Page)>, w: Page, f: Page)
    requires Progress(plan, s, ps, r, done) && FitsSoFar(plan, r, done) && Pair(plan, r, w, f)
    requires Fits(plan, r, f) && PrecedeStep(s, t, ps, w, f)
    ensures Laid(plan, t, r, done + {(w, f)}) && FitsSoFar(plan, r, done + {(w, f)})
    ensures forall x: Page, y: Page :: (x, y) in done + {(w, f)} ==> Pair(plan, r, x, y)
  {
    hide Valid, Wrote, RuleUpTo, Laid;
    SearchUnaffected(plan, s, r, done, w, f);
    RuleClimbs(r, plan.typeOf(f), plan.typeOf(w), plan.typeOf(f), plan.typeOf(w));
    StillDirty(plan, s, ps, r, done, f);
    LaidMore(plan, s, t, r, done, w, f);
    FitsMore(plan, r, done, w, f);
  }

  lemma StillDirty(plan: Plan, s: State, ps: nat, r: int, done: set<(Page, Page)>, f: Page)
    requires Marked(plan, s, ps) && Laid(plan, s, r, done) && f in plan.changed
    ensures Dirty(s, f)
  {
    hide Valid, RuleUpTo, Firsts;
  }

  lemma LaidMore(plan: Plan, s: State, t: State, r: int, done: set<(Page, Page)>, w: Page, f: Page)
    requires Laid(plan, s, r, done) && f in plan.changed
    requires (t == s && f in Next(s.higher, w)) || t == WithEdgeState(s, w, f)
    ensures Laid(plan, t, r, done + {(w, f)})
  {
    hide Firsts;
    var more := done + {(w, f)};
    assert forall p: Page :: Next(t.higher, p) == Next(s.higher, p) + if p == w then {f} else {};
    forall p: Page ensures Next(t.higher, p) == Firsts(plan, r - 1, p) + (set y | y in plan.changed && (p, y) in more) {
      var before, after := set y | y in plan.changed && (p, y) in done, set y | y in plan.changed && (p, y) in more;
      assert Next(s.higher, p) == Firsts(plan, r - 1, p) + before;
      assert after == before + if p == w then {f} else {};
    }
  }

  lemma FitsMore(plan: Plan, r: int, done: set<(Page, Page)>, w: Page, f: Page)
    requires FitsSoFar(plan, r, done) && Fits(plan, r, f)
    ensures FitsSoFar(plan, r, done + {(w, f)})
  {
    hide Fits, Pair;
  }

  lemma PairGivenUp(plan: Plan, s: State, t: State, ps: nat, r: int, done: set<(Page, Page)>, w: Page, f: Page)
    requires Progress(plan, s, ps, r, done) && FitsSoFar(plan, r, done) && Pair(plan, r, w, f) && 1 <= r <= RULES
    requires !Fits(plan, r, f) && PrecedeStep(s, t, ps, w, f)
    ensures !Obeys(plan, t.writes) && !FitsSoFar(plan, r, done + {(w, f)})
    ensures forall x: Page, y: Page :: (x, y) in done + {(w, f)} ==> Pair(plan, r, x, y)
  {
    hide Valid, Wrote, RuleUpTo, Laid, PrecedeStep, DrainsPage, Fits, Obeys;
    assert (w, f) in done + {(w, f)};
    GivenUpCost(plan, s, r, done, w, f);
    GivenUpIsNotAhead(plan, s, r, done, w, f);
    RuleClimbs(r, plan.typeOf(f), plan.typeOf(w), plan.typeOf(f), plan.typeOf(w));
    StillDirty(plan, s, ps, r, done, f);
    StillDirty(plan, s, ps, r, done, w);
    var d := MustDrain(s, t, ps, w, f);
    LaidUnwritten(plan, s, r, done);
    assert [] + d == d;
    RuleCounts(r, plan.typeOf(f), plan.typeOf(w));
    DrainedEarly(plan, s, ps, w, f, d);
  }

  lemma GivenUpCost(plan: Plan, s: State, r: int, done: set<(Page, Page)>, w: Page, f: Page)
    requires Laid(plan, s, r, done) && (forall x: Page, y: Page :: (x, y) in done ==> Pair(plan, r, x, y)) && Pair(plan, r, w, f)
    requires !Fits(plan, r, f)
    ensures SearchCost(s.higher, f) > RELATED_LIMIT
  {
    SearchUnaffected(plan, s, r, done, w, f);
  }

  lemma MustDrain(s: State, t: State, ps: nat, w: Page, f: Page) returns (d: seq<Page>)
    requires Valid(s, ps) && PrecedeStep(s, t, ps, w, f) && w != f && Dirty(s, f)
    requires f !in ReachSet(s.higher, w) && SearchCost(s.higher, f) > RELATED_LIMIT
    ensures DrainsPage(s, ps, w, d) && t.writes == s.writes + d
  {
    hide Consistent, SearchCost, NoRepeats, InOrder, ReachSet, Wrote;
    NextIsReached(s.higher, w);
    assert RelatedSpec(s.higher, f, w, RELATED_LIMIT) && f !in Next(s.higher, w);
    d :| DrainsPage(s, ps, w, d) && t == Wrote(s, ps, d);
    DrainLogged(s, ps, w, d);
  }

  lemma NextIsReached(g: Graph, w: Page)
    ensures Next(g, w) <= ReachSet(g, w)
  {
    ReachSetClosed(g, w, w);
  }

  lemma DrainLogged(s: State, ps: nat, w: Page, d: seq<Page>)
    requires Valid(s, ps) && DrainsPage(s, ps, w, d)
    ensures Wrote(s, ps, d).writes == s.writes + d
  {
    DrainKeeps(s, ps, d);
  }

  /** The window is written while the page it should have waited for is not. */
  lemma DrainedEarly(plan: Plan, s: State, ps: nat, w: Page, f: Page, d: seq<Page>)
    requires DrainsPage(s, ps, w, d) && Dirty(s, w) && f !in ReachSet(s.higher, w)
    requires f in plan.changed && MustPrecede(plan.typeOf(f), plan.typeOf(w))
    ensures !Obeys(plan, d)
  {
    hide MustPrecede, Drainable;
    assert w in ReachSet(s.higher, w);
    var i :| 0 <= i < |d| && d[i] == w;
    assert f !in d;
    assert OutOfOrder(plan, d, i, f);
  }

  lemma LaidUnwritten(plan: Plan, s: State, r: int, done: set<(Page, Page)>)
    requires Laid(plan, s, r, done)
    ensures s.writes == []
  {
  }

  lemma RuleCounts(r: int, f: PageType, w: PageType)
    requires 1 <= r <= RULES && Rule(r, f, w)
    ensures MustPrecede(f, w)
  {
  }

  /** With all its pairs done a rule is laid. */
  lemma RuleDone(plan: Plan, s: State, ps: nat, r: int, done: set<(Page, Page)>)
    requires Progress(plan, s, ps, r, done) && 1 <= r <= RULES
    requires forall w: Page, f: Page :: Pair(plan, r, w, f) ==> (w, f) in done
    ensures Progress(plan, s, ps, r + 1, {})
  {
    hide Valid, Rule;
    if FitsSoFar(plan, r, done) {
      forall q, w: Page, f: Page | 1 <= q < r + 1 && q <= RULES && Pair(plan, q, w, f) ensures Fits(plan, q, f) {
        if q == r {
          assert (w, f) in done;
        }
      }
      forall p: Page ensures Next(s.higher, p) == Firsts(plan, r, p) + set f | f in plan.changed && (p, f) in {} {
        FirstsGrow(plan, r, p, done);
        assert Next(s.higher, p) == Firsts(plan, r - 1, p) + set f | f in plan.changed && (p, f) in done;
      }
    } else if FitsSoFar(plan, r + 1, {}) {
      FittedBelow(plan, r, done);
    }
  }

  lemma FittedBelow(plan: Plan, r: int, done: set<(Page, Page)>)
    requires FitsSoFar(plan, r + 1, {}) && 1 <= r <= RULES
    requires forall w: Page, f: Page :: (w, f) in done ==> Pair(plan, r, w, f)
    ensures FitsSoFar(plan, r, done)
  {
    hide Fits, Pair;
  }

  lemma FirstsGrow(plan: Plan, r: int, p: Page, done: set<(Page, Page)>)
    requires 1 <= r <= RULES && forall w: Page, f: Page :: (w, f) in done <==> Pair(plan, r, w, f)
    ensures Firsts(plan, r, p) == Firsts(plan, r - 1, p) + set f | f in plan.changed && (p, f) in done
  {
    hide Rule;
    forall f | f in plan.changed && p in plan.changed
      ensures RuleUpTo(r, plan.typeOf(f), plan.typeOf(p))
              <==> RuleUpTo(r - 1, plan.typeOf(f), plan.typeOf(p)) || Rule(r, plan.typeOf(f), plan.typeOf(p))
    {
    }
    forall f ensures f in Firsts(plan, r, p) <==> f in Firsts(plan, r - 1, p) || (f in plan.changed && (p, f) in done) {
      assert (p, f) in done <==> Pair(plan, r, p, f);
    }
  }

  // ------------------------------------------------------------------ the beginning and the end

  lemma PlanStarts(plan: Plan, s: State, ps: nat)
    requires Marked(plan, s, ps) && s.writes == [] && s.higher == map[]
    ensures Progress(plan, s, ps, 1, {})
  {
    hide Valid;
    forall p: Page ensures Firsts(plan, 0, p) == {} {
    }
  }

  /** The flush at the end: every changed page goes out exactly once, and the order obeys the page
      types if and only if every search fitted its budget. */
  lemma PlanEnds(plan: Plan, s: State, t: State, ps: nat)
    requires Progress(plan, s, ps, RULES + 1, {}) && FlushStep(s, t, ps)
    ensures Marked(plan, t, ps)
    ensures NoRepeats(t.writes) && forall p :: p in t.writes <==> p in plan.changed
    ensures Obeys(plan, t.writes) <==> SearchesFit(plan)
    ensures FlushedAtEnd(plan, t.writes)
    ensures SearchesFit(plan) ==> LeastFirst(PlanGraph(plan, RULES), plan.changed, t.writes)
  {
    hide Consistent, Wrote, Rule, Fits, LeastFirst, Within, RuleUpTo;
    var d :| FlushOrder(s, ps, d) && t == Wrote(s, ps, d);
    EndOfPlan(plan, s, t, ps, d);
    DrainKeepsMarked(plan, s, ps, d);
    DrainKeeps(s, ps, d);
    assert SearchesFit(plan) <==> FitsSoFar(plan, RULES + 1, {});
    if SearchesFit(plan) {
      LaidUnwritten(plan, s, RULES + 1, {});
      assert [] + d == d;
      OrderedByPlan(plan, s, d);
    } else {
      DisorderStays(plan, s.writes, d);
    }
  }

  /** From the n-th write on the order is that of one flush, lowest page number first but for what the
      rules put ahead. */
  ghost predicate FlushedFrom(plan: Plan, order: seq<Page>, n: nat, g: Graph) {
    n <= |order| && Within(plan, g) && LeastFirst(g, plan.changed - PageSet(order[..n]), order[n..])
  }

  ghost predicate FlushedAtEnd(plan: Plan, order: seq<Page>) {
    exists n, g :: FlushedFrom(plan, order, n, g)
  }

  lemma EndOfPlan(plan: Plan, s: State, t: State, ps: nat, d: seq<Page>)
    requires Progress(plan, s, ps, RULES + 1, {}) && FlushOrder(s, ps, d) && t == Wrote(s, ps, d)
    ensures FlushedAtEnd(plan, t.writes)
    ensures FitsSoFar(plan, RULES + 1, {}) ==> LeastFirst(PlanGraph(plan, RULES), plan.changed, t.writes)
  {
    hide Consistent, Wrote, Rule, Fits, LeastFirst, Within, RuleUpTo, Valid, Obeys, Laid, Firsts, NoRepeats, InOrder, PageSet;
    WroteLogs(s, ps, d);
    var n := |s.writes|;
    assert t.writes[..n] == s.writes && t.writes[n..] == d;
    StillToWrite(plan, s, ps);
    assert FlushedFrom(plan, t.writes, n, s.higher);
    if FitsSoFar(plan, RULES + 1, {}) {
      LaidIsPlan(plan, s);
      EmptyPageSet();
      assert [] + d == d && plan.changed - {} == plan.changed;
      SameOrder(s.higher, PlanGraph(plan, RULES), plan.changed, d);
    }
  }

  lemma StillToWrite(plan: Plan, s: State, ps: nat)
    requires Marked(plan, s, ps)
    ensures plan.changed - PageSet(s.writes) == DirtyPages(s)
  {
    hide Valid, NoRepeats;
    forall p: Page ensures p in PageSet(s.writes) <==> p in s.writes {
    }
    forall p: Page ensures p in DirtyPages(s) <==> Dirty(s, p) {
    }
  }

  lemma LaidIsPlan(plan: Plan, s: State)
    requires Laid(plan, s, RULES + 1, {})
    ensures s.writes == [] && forall p: Page :: Next(s.higher, p) == Next(PlanGraph(plan, RULES), p)
  {
    hide Firsts, PlanGraph, Next;
    forall p: Page ensures Next(s.higher, p) == Next(PlanGraph(plan, RULES), p) {
      PlanGraphNext(plan, RULES, p);
      assert (set f | f in plan.changed && (p, f) in {}) == {};
    }
  }

  lemma SameOrder(g: Graph, h: Graph, roots: set<Page>, d: seq<Page>)
    requires LeastFirst(g, roots, d) && forall p: Page :: Next(g, p) == Next(h, p)
    ensures LeastFirst(h, roots, d)
  {
    forall k: nat | k < |d| ensures Started(h, roots, d, k) {
      assert Started(g, roots, d, k);
      var r :| StartedFrom(g, roots, d, k, r);
      ReachSetFrame(g, h, r);
      assert StartedFrom(h, roots, d, k, r);
    }
  }

  /** In that flush a page goes out before one with a lower number only because a third, no higher
      than that one, comes after it by the rules. */
  lemma LowestFirst(plan: Plan, order: seq<Page>, n: nat, g: Graph, i: nat, j: nat)
    requires FlushedFrom(plan, order, n, g) && NoRepeats(order) && (forall p :: p in order ==> p in plan.changed)
    requires n <= i < j < |order| && order[j] < order[i]
    ensures exists r :: r in plan.changed && r <= order[j] && order[i] in ReachSet(PlanGraph(plan, RULES), r)
  {
    hide LeastFirst, Rule, RuleUpTo;
    var d, roots := order[n..], plan.changed - PageSet(order[..n]);
    assert d[i - n] == order[i] && d[j - n] == order[j];
    assert order[j] in roots;
    OutOfOrderIsNeeded(g, roots, d, i - n, j - n);
    var r :| r in roots && r <= order[j] && order[i] in ReachSet(g, r);
    forall p: Page ensures Next(g, p) <= Next(PlanGraph(plan, RULES), p) {
      PlanGraphNext(plan, RULES, p);
    }
    SubgraphReaches(PlanGraph(plan, RULES), g, r);
  }

  lemma OrderedByPlan(plan: Plan, s: State, d: seq<Page>)
    requires Laid(plan, s, RULES + 1, {}) && InOrder(s.higher, d) && forall p :: p in d ==> p in plan.changed
    ensures Obeys(plan, d)
  {
    hide Rule, RuleUpTo;
    forall i, f ensures !OutOfOrder(plan, d, i, f) {
      if 0 <= i < |d| && f in plan.changed && MustPrecede(plan.typeOf(f), plan.typeOf(d[i])) {
        assert f in Firsts(plan, RULES, d[i]);
        assert f in Next(s.higher, d[i]);
      }
    }
  }

  // ------------------------------------------------------------------ build_plan

  /** `page.resize(page_size, 0)`. */
  function Resized(bytes: Bytes, ps: nat): (r: Bytes)
    ensures |r| == ps
  {
    if |bytes| < ps then bytes + Zeros(ps - |bytes|) else bytes[..ps]
  }

  function PlanOf(changed: seq<Page>, typeOf: Page -> PageType, pageBytes: Page -> Bytes, ps: nat): Plan {
    Plan(PageSet(changed), typeOf, (p: Page) => Resized(pageBytes(p), ps))
  }

  /** The pages of one type, in the order of the change set. */
  function OfType(changed: seq<Page>, typeOf: Page -> PageType, t: PageType): (r: seq<Page>)
    ensures forall p :: p in r <==> p in changed && typeOf(p) == t
  {
    if changed == [] then []
    else
      var last := changed[|changed| - 1];
      assert changed == changed[..|changed| - 1] + [last];
      OfType(changed[..|changed| - 1], typeOf, t) + if typeOf(last) == t then [last] else []
  }

  /** `by_type` holds the change set sorted into types. */
  ghost predicate Sorted(byType: map<PageType, seq<Page>>, changed: seq<Page>, typeOf: Page -> PageType) {
    forall t :: (if t in byType then byType[t] else []) == OfType(changed, typeOf, t)
  }

  method MarkAll(cache: Cache, changed: seq<Page>, typeOf: Page -> PageType, pageBytes: Page -> Bytes, ghost plan: Plan)
    returns (byType: map<PageType, seq<Page>>)
    requires cache.Ok() && cache.View() == Attached(cache.image)
    requires plan.changed == PageSet(changed) && forall p :: plan.bytes(p) == Resized(pageBytes(p), cache.pageSize)
    modifies cache
    ensures cache.Ok() && Progress(plan, cache.View(), cache.pageSize, 1, {})
    ensures cache.View().base == old(cache.image)
    ensures Sorted(byType, changed, typeOf)
  {
    hide Valid, Sorted;
    var ps := cache.pageSize;
    byType := map[];
    NothingSorted(typeOf);
    for i := 0 to |changed|
      invariant cache.Ok()
      invariant cache.View() == Attached(old(cache.image)).(buffers := cache.buffers)
      invariant cache.buffers.Keys == PageSet(changed[..i])
      invariant forall p :: p in cache.buffers ==> cache.buffers[p] == Buffer(Resized(pageBytes(p), ps), true)
      invariant Sorted(byType, changed[..i], typeOf)
    {
      var p := changed[i];
      cache.Mark(p, Resized(pageBytes(p), ps));
      var t := typeOf(p);
      ghost var before := byType;
      byType := byType[t := (if t in byType then byType[t] else []) + [p]];
      OneMoreSorted(before, byType, changed, i, typeOf);
    }
    assert changed[..|changed|] == changed;
    FreshlyMarked(plan, cache.View(), ps);
  }

  lemma NothingSorted(typeOf: Page -> PageType)
    ensures Sorted(map[], [], typeOf) && PageSet([]) == {}
  {
  }

  lemma OneMoreSorted(before: map<PageType, seq<Page>>, byType: map<PageType, seq<Page>>, changed: seq<Page>, i: nat, typeOf: Page -> PageType)
    requires i < |changed|
    requires Sorted(before, changed[..i], typeOf)
    requires var t := typeOf(changed[i]);
             byType == before[t := (if t in before then before[t] else []) + [changed[i]]]
    ensures Sorted(byType, changed[..i + 1], typeOf)
    ensures PageSet(changed[..i + 1]) == PageSet(changed[..i]) + {changed[i]}
  {
    hide Sorted, PageSet;
    var front, next := changed[..i], changed[..i + 1];
    assert next[..i] == front && next[i] == changed[i] && next == front + [changed[i]];
    PageSetLast(next);
    SortedStep(before, byType, front, changed[i], typeOf);
  }

  lemma SortedStep(before: map<PageType, seq<Page>>, byType: map<PageType, seq<Page>>, front: seq<Page>, p: Page, typeOf: Page -> PageType)
    requires Sorted(before, front, typeOf)
    requires byType == before[typeOf(p) := (if typeOf(p) in before then before[typeOf(p)] else []) + [p]]
    ensures Sorted(byType, front + [p], typeOf)
  {
    hide OfType;
    forall t ensures (if t in byType then byType[t] else []) == OfType(front + [p], typeOf, t) {
      OfTypeLast(front, p, typeOf, t);
      assert (if t in before then before[t] else []) == OfType(front, typeOf, t);
    }
  }

  lemma OfTypeLast(front: seq<Page>, p: Page, typeOf: Page -> PageType, t: PageType)
    ensures OfType(front + [p], typeOf, t) == OfType(front, typeOf, t) + if typeOf(p) == t then [p] else []
  {
    assert (front + [p])[..|front|] == front;
  }

  lemma FreshlyMarked(plan: Plan, s: State, ps: nat)
    requires Valid(s, ps) && s.writes == [] && s.history == [] && s.higher == map[]
    requires s.buffers.Keys == plan.changed
    requires forall p :: p in s.buffers ==> s.buffers[p] == Buffer(plan.bytes(p), true)
    ensures Progress(plan, s, ps, 1, {})
  {
    hide Valid;
    PlanStarts(plan, s, ps);
  }

  /** `for w in windows { for f in firsts { cache.precedence(w, f) } }`: one whole rule. */
  method Lay(cache: Cache, windows: seq<Page>, firsts: seq<Page>, ghost plan: Plan, ghost r: int)
    requires cache.Ok() && Progress(plan, cache.View(), cache.pageSize, r, {}) && 1 <= r <= RULES
    requires forall w: Page, f: Page :: Pair(plan, r, w, f) <==> w in windows && f in firsts
    modifies cache
    ensures cache.Ok() && Progress(plan, cache.View(), cache.pageSize, r + 1, {})
    ensures cache.View().base == old(cache.View().base)
  {
    hide Valid, Progress, Pair, PrecedeStep;
    ghost var done: set<(Page, Page)> := {};
    for i := 0 to |windows|
      invariant cache.Ok() && Progress(plan, cache.View(), cache.pageSize, r, done)
      invariant cache.base == old(cache.base)
      invariant forall k, l :: 0 <= k < i && 0 <= l < |firsts| ==> (windows[k], firsts[l]) in done
    {
      for j := 0 to |firsts|
        invariant cache.Ok() && Progress(plan, cache.View(), cache.pageSize, r, done)
        invariant cache.base == old(cache.base)
        invariant forall k, l :: 0 <= k < i && 0 <= l < |firsts| ==> (windows[k], firsts[l]) in done
        invariant forall l :: 0 <= l < j ==> (windows[i], firsts[l]) in done
      {
        var w, f := windows[i], firsts[j];
        ghost var s := cache.View();
        cache.Precedence(w, f);
        StepKeepsBase(s, Op.Precede(w, f), cache.View(), cache.pageSize);
        PrecedeProgress(plan, s, cache.View(), cache.pageSize, r, done, w, f);
        done := done + {(w, f)};
      }
    }
    assert forall w: Page, f: Page :: Pair(plan, r, w, f) ==> (w, f) in done;
    RuleDone(plan, cache.View(), cache.pageSize, r, done);
  }

  lemma StepKeepsBase(s: State, op: Op, t: State, ps: nat)
    requires Valid(s, ps) && Step(s, op, t, ps)
    ensures t.base == s.base
  {
    hide Consistent;
    match op
    case Fetch(p) =>
    case Mark(p, bytes) =>
    case Precede(w, f) =>
      if t != s && RelatedSpec(s.higher, f, w, RELATED_LIMIT) {
        var d :| DrainsPage(s, ps, w, d) && t == Wrote(s, ps, d);
        DrainKeeps(s, ps, d);
      }
    case Write(p) =>
      var d :| DrainsPage(s, ps, p, d) && t == Wrote(s, ps, d);
      DrainKeeps(s, ps, d);
    case Flush =>
      var d :| FlushOrder(s, ps, d) && t == Wrote(s, ps, d);
      DrainKeeps(s, ps, d);
  }

  /** The header's rule: `for h in header { for p in changed { if p is not a header ... } }`. */
  method LayHeaders(cache: Cache, headers: seq<Page>, changed: seq<Page>, typeOf: Page -> PageType, ghost plan: Plan)
    requires cache.Ok() && Progress(plan, cache.View(), cache.pageSize, 7, {})
    requires plan.typeOf == typeOf && plan.changed == PageSet(changed)
    requires forall p :: p in headers <==> p in changed && typeOf(p) == HEADER
    modifies cache
    ensures cache.Ok() && Progress(plan, cache.View(), cache.pageSize, 8, {})
    ensures cache.View().base == old(cache.View().base)
  {
    hide Valid, Progress, PrecedeStep;
    ghost var done: set<(Page, Page)> := {};
    for i := 0 to |headers|
      invariant cache.Ok() && Progress(plan, cache.View(), cache.pageSize, 7, done)
      invariant cache.base == old(cache.base)
      invariant forall k, l :: 0 <= k < i && 0 <= l < |changed| && typeOf(changed[l]) != HEADER ==> (changed[l], headers[k]) in done
    {
      for j := 0 to |changed|
        invariant cache.Ok() && Progress(plan, cache.View(), cache.pageSize, 7, done)
        invariant cache.base == old(cache.base)
        invariant forall k, l :: 0 <= k < i && 0 <= l < |changed| && typeOf(changed[l]) != HEADER ==> (changed[l], headers[k]) in done
        invariant forall l :: 0 <= l < j && typeOf(changed[l]) != HEADER ==> (changed[l], headers[i]) in done
      {
        var p, h := changed[j], headers[i];
        assert h in headers && p in changed;
        if typeOf(p) != HEADER {
          ghost var s := cache.View();
          cache.Precedence(p, h);
          StepKeepsBase(s, Op.Precede(p, h), cache.View(), cache.pageSize);
          PrecedeProgress(plan, s, cache.View(), cache.pageSize, 7, done, p, h);
          done := done + {(p, h)};
        }
      }
    }
    assert forall w: Page, f: Page :: Pair(plan, 7, w, f) ==> w in changed && f in headers;
    assert forall w: Page, f: Page :: Pair(plan, 7, w, f) ==> (w, f) in done;
    RuleDone(plan, cache.View(), cache.pageSize, 7, done);
  }

  /** The commit flip goes last: `for t in tip { for p in changed { if p is not a TIP ... } }`. */
  method LayTips(cache: Cache, tips: seq<Page>, changed: seq<Page>, typeOf: Page -> PageType, ghost plan: Plan)
    requires cache.Ok() && Progress(plan, cache.View(), cache.pageSize, 8, {})
    requires plan.typeOf == typeOf && plan.changed == PageSet(changed)
    requires forall p :: p in tips <==> p in changed && typeOf(p) == TIP
    modifies cache
    ensures cache.Ok() && Progress(plan, cache.View(), cache.pageSize, 9, {})
    ensures cache.View().base == old(cache.View().base)
  {
    hide Valid, Progress, PrecedeStep;
    ghost var done: set<(Page, Page)> := {};
    for i := 0 to |tips|
      invariant cache.Ok() && Progress(plan, cache.View(), cache.pageSize, 8, done)
      invariant cache.base == old(cache.base)
      invariant forall k, l :: 0 <= k < i && 0 <= l < |changed| && typeOf(changed[l]) != TIP ==> (tips[k], changed[l]) in done
    {
      for j := 0 to |changed|
        invariant cache.Ok() && Progress(plan, cache.View(), cache.pageSize, 8, done)
        invariant cache.base == old(cache.base)
        invariant forall k, l :: 0 <= k < i && 0 <= l < |changed| && typeOf(changed[l]) != TIP ==> (tips[k], changed[l]) in done
        invariant forall l :: 0 <= l < j && typeOf(changed[l]) != TIP ==> (tips[i], changed[l]) in done
      {
        var p, t := changed[j], tips[i];
        assert t in tips && p in changed;
        if typeOf(p) != TIP {
          ghost var s := cache.View();
          cache.Precedence(t, p);
          StepKeepsBase(s, Op.Precede(t, p), cache.View(), cache.pageSize);
          PrecedeProgress(plan, s, cache.View(), cache.pageSize, 8, done, t, p);
          done := done + {(t, p)};
        }
      }
    }
    assert forall w: Page, f: Page :: Pair(plan, 8, w, f) ==> w in tips && f in changed;
    assert forall w: Page, f: Page :: Pair(plan, 8, w, f) ==> (w, f) in done;
    RuleDone(plan, cache.View(), cache.pageSize, 8, done);
  }

  /** Mark every changed page, lay the edges rule by rule, and flush. */
  method BuildPlan(cache: Cache, changed: seq<Page>, typeOf: Page -> PageType, pageBytes: Page -> Bytes) returns (ghost plan: Plan)
    requires cache.Ok() && cache.View() == Attached(cache.image)
    modifies cache
    ensures plan == PlanOf(changed, typeOf, pageBytes, cache.pageSize)
    ensures cache.Ok() && Marked(plan, cache.View(), cache.pageSize) && cache.View().base == old(cache.image)
    ensures NoRepeats(cache.writes) && forall p :: p in cache.writes <==> p in changed
    ensures Obeys(plan, cache.writes) <==> SearchesFit(plan)
    ensures FlushedAtEnd(plan, cache.writes)
    ensures SearchesFit(plan) ==> LeastFirst(PlanGraph(plan, RULES), plan.changed, cache.writes)
  {
    hide Valid, Progress, FlushStep, Marked, Obeys, SearchesFit, FlushedAtEnd, LeastFirst, PlanGraph;
    plan := PlanOf(changed, typeOf, pageBytes, cache.pageSize);
    var byType := MarkAll(cache, changed, typeOf, pageBytes, plan);
    LayRules(cache, byType, changed, typeOf, plan);
    ghost var s := cache.View();
    cache.Flush();
    StepKeepsBase(s, Op.Flush, cache.View(), cache.pageSize);
    PlanEnds(plan, s, cache.View(), cache.pageSize);
    assert forall p :: p in changed <==> p in plan.changed;
  }

  method LayRules(cache: Cache, byType: map<PageType, seq<Page>>, changed: seq<Page>, typeOf: Page -> PageType, ghost plan: Plan)
    requires cache.Ok() && Progress(plan, cache.View(), cache.pageSize, 1, {})
    requires Sorted(byType, changed, typeOf) && plan.typeOf == typeOf && plan.changed == PageSet(changed)
    modifies cache
    ensures cache.Ok() && Progress(plan, cache.View(), cache.pageSize, RULES + 1, {})
    ensures cache.View().base == old(cache.View().base)
  {
    hide Valid, Progress, Pair, Rule, PageSet;
    var header, pip, tip := Of(HEADER, byType), Of(PIP, byType), Of(TIP, byType);
    var pointer, data, root := Of(POINTER_PAGE, byType), Of(DATA, byType), Of(ROOT, byType);
    var btree, blob := Of(BTREE, byType), Of(BLOB, byType);
    PairsByType(plan, changed, typeOf, 1, POINTER_PAGE, DATA);
    Lay(cache, pointer, data, plan, 1);
    PairsByType(plan, changed, typeOf, 2, ROOT, BTREE);
    Lay(cache, root, btree, plan, 2);
    PairsByType(plan, changed, typeOf, 3, BTREE, DATA);
    Lay(cache, btree, data, plan, 3);
    PairsByType(plan, changed, typeOf, 4, DATA, BLOB);
    Lay(cache, data, blob, plan, 4);
    PairsByType(plan, changed, typeOf, 5, PIP, DATA);
    Lay(cache, pip, data, plan, 5);
    PairsByType(plan, changed, typeOf, 6, POINTER_PAGE, PIP);
    Lay(cache, pointer, pip, plan, 6);
    LayHeaders(cache, header, changed, typeOf, plan);
    LayTips(cache, tip, changed, typeOf, plan);
  }

  /** The first six rules each tie all pages of one type to all pages of another. */
  lemma PairsByType(plan: Plan, changed: seq<Page>, typeOf: Page -> PageType, r: int, window: PageType, first: PageType)
    requires plan.typeOf == typeOf && plan.changed == PageSet(changed)
    requires 1 <= r <= 6 && Rule(r, first, window)
    ensures forall w: Page, f: Page ::
              Pair(plan, r, w, f) <==> w in OfType(changed, typeOf, window) && f in OfType(changed, typeOf, first)
  {
    assert forall p :: p in changed <==> p in plan.changed;
  }

  function Of(t: PageType, byType: map<PageType, seq<Page>>): seq<Page> {
    if t in byType then byType[t] else []
  }

  // ------------------------------------------------------------------ when every search fits

  lemma FirstsMonotone(plan: Plan, j: int, k: int, w: Page)
    requires j <= k
    ensures Firsts(plan, j, w) <= Firsts(plan, k, w)
  {
    forall f | f in Firsts(plan, j, w) ensures f in Firsts(plan, k, w) {
      var r :| 1 <= r <= j && r <= RULES && Rule(r, plan.typeOf(f), plan.typeOf(w));
      assert 1 <= r <= k && r <= RULES && Rule(r, plan.typeOf(f), plan.typeOf(w));
    }
  }

  lemma {:induction false} EdgeSumLarger(g: Graph, h: Graph, s: set<Page>)
    requires forall x :: x in s ==> Next(g, x) <= Next(h, x)
    ensures EdgeSum(g, s) <= EdgeSum(h, s)
    decreases |s|
  {
    if s != {} {
      var x :| x in s;
      EdgeSumRemove(g, s, x);
      EdgeSumRemove(h, s, x);
      SubsetSize(Next(g, x), Next(h, x));
      EdgeSumLarger(g, h, s - {x});
    }
  }

  /** The number of edges the whole plan lays. */
  ghost function PlanEdges(plan: Plan): nat {
    EdgeSum(PlanGraph(plan, RULES), plan.changed)
  }

  /** Fewer than a thousand edges in all, and no search can give up. */
  lemma FewEdgesFit(plan: Plan)
    requires PlanEdges(plan) < RELATED_LIMIT
    ensures SearchesFit(plan)
  {
    forall r, w, f | 1 <= r <= RULES && Pair(plan, r, w, f) ensures Fits(plan, r, f) {
      var g, all := PlanGraph(plan, r - 1), PlanGraph(plan, RULES);
      forall x | x in ReachSet(g, f) ensures x in plan.changed {
        InsidePlan(plan, r - 1, f, x);
      }
      EdgeSumMonotone(g, ReachSet(g, f), plan.changed);
      forall x ensures Next(g, x) <= Next(all, x) {
        PlanGraphNext(plan, r - 1, x);
        PlanGraphNext(plan, RULES, x);
        FirstsMonotone(plan, r - 1, RULES, x);
      }
      EdgeSumLarger(g, all, plan.changed);
    }
  }

  lemma InsidePlan(plan: Plan, k: int, f: Page, x: Page)
    requires f in plan.changed && x in ReachSet(PlanGraph(plan, k), f)
    ensures x in plan.changed
  {
    var g := PlanGraph(plan, k);
    forall y | y in plan.changed ensures Next(g, y) <= plan.changed {
      PlanGraphNext(plan, k, y);
    }
    ReachSetMeaning(g, f, x);
    ClosedKeepsReach(g, plan.changed, f, x);
  }

  ghost function InnerSum(g: Graph, s: set<Page>, t: set<Page>): nat {
    if s == {} then 0 else var x :| x in s; |Next(g, x) * t| + InnerSum(g, s - {x}, t)
  }

  lemma {:induction false} InnerSumRemove(g: Graph, s: set<Page>, t: set<Page>, x: Page)
    requires x in s
    ensures InnerSum(g, s, t) == |Next(g, x) * t| + InnerSum(g, s - {x}, t)
    decreases |s|
  {
    var y :| y in s && InnerSum(g, s, t) == |Next(g, y) * t| + InnerSum(g, s - {y}, t);
    if y != x {
      InnerSumRemove(g, s - {y}, t, x);
      InnerSumRemove(g, s - {x}, t, y);
      assert s - {y} - {x} == s - {x} - {y};
    }
  }

  lemma {:induction false} InnerSumDrop(g: Graph, s: set<Page>, t: set<Page>, x: Page)
    requires forall y :: y in s ==> x !in Next(g, y)
    ensures InnerSum(g, s, t) == InnerSum(g, s, t - {x})
    decreases |s|
  {
    hide InnerSum, Next;
    if s == {} {
      NoInnerEdges(g, t);
      NoInnerEdges(g, t - {x});
    } else {
      var y :| y in s;
      InnerSumRemove(g, s, t, y);
      InnerSumRemove(g, s, t - {x}, y);
      assert Next(g, y) * (t - {x}) == Next(g, y) * t;
      InnerSumDrop(g, s - {y}, t, x);
    }
  }

  lemma {:induction false} EdgeSumInner(g: Graph, s: set<Page>, t: set<Page>)
    requires forall x :: x in s ==> Next(g, x) <= t
    ensures EdgeSum(g, s) == InnerSum(g, s, t)
    decreases |s|
  {
    if s != {} {
      var x :| x in s;
      EdgeSumRemove(g, s, x);
      InnerSumRemove(g, s, t, x);
      assert Next(g, x) * t == Next(g, x);
      EdgeSumInner(g, s - {x}, t);
    }
  }

  lemma {:induction false} Highest(s: set<Page>, rank: Page -> nat) returns (m: Page)
    requires s != {}
    ensures m in s && forall x :: x in s ==> rank(x) <= rank(m)
    decreases |s|
  {
    var y :| y in s;
    var rest := s - {y};
    if rest == {} {
      m := y;
      assert s == {y};
    } else {
      var k := Highest(rest, rank);
      m := if rank(k) < rank(y) then y else k;
      forall x | x in s ensures rank(x) <= rank(m) {
        assert x == y || x in rest;
      }
    }
  }

  /** A ranked graph on n pages has at most n (n - 1) / 2 edges. */
  lemma {:induction false} TriangleBound(g: Graph, rank: Page -> nat, s: set<Page>)
    requires Ranked(g, rank)
    ensures 2 * InnerSum(g, s, s) <= |s| * (|s| - 1)
    decreases |s|
  {
    hide InnerSum;
    if s == {} {
      NoInnerEdges(g, s);
    } else {
      var m := Highest(s, rank);
      var rest := s - {m};
      TriangleBound(g, rank, rest);
      InnerSumRemove(g, s, s, m);
      InnerSumDrop(g, rest, s, m);
      assert m !in Next(g, m);
      SubsetSize(Next(g, m) * s, rest);
      TriangleStep(|s|, |Next(g, m) * s|, InnerSum(g, rest, rest), InnerSum(g, s, s));
    }
  }

  lemma NoInnerEdges(g: Graph, t: set<Page>)
    ensures InnerSum(g, {}, t) == 0
  {
  }

  lemma TriangleStep(n: int, out: int, inner: int, total: int)
    requires n >= 1 && out <= n - 1 && 2 * inner <= (n - 1) * (n - 2) && total == out + inner
    ensures 2 * total <= n * (n - 1)
  {
    assert n * (n - 1) == (n - 1) * (n - 2) + 2 * (n - 1);
  }

  lemma TriangleOf45(n: int, edges: int)
    requires 0 <= n <= 45 && 2 * edges <= n * (n - 1)
    ensures edges <= 990
  {
    if n > 0 {
      assert n * (n - 1) <= 45 * (n - 1);
    }
  }

  /** A change set of at most 45 pages always fits. */
  lemma SmallPlansFit(plan: Plan)
    requires |plan.changed| <= 45
    ensures SearchesFit(plan)
  {
    var g, n := PlanGraph(plan, RULES), |plan.changed|;
    PlanGraphClimbs(plan, RULES);
    forall x | x in plan.changed ensures Next(g, x) <= plan.changed {
      PlanGraphNext(plan, RULES, x);
    }
    EdgeSumInner(g, plan.changed, plan.changed);
    TriangleBound(g, LevelOf(plan), plan.changed);
    TriangleOf45(n, PlanEdges(plan));
    FewEdgesFit(plan);
  }

  /** A thousand data pages, one PIP and one pointer page do not: the search the pointer's edge to the
      PIP needs meets every data page first. */
  lemma ManyDataPagesGiveUp(plan: Plan, data: set<Page>, pip: Page, pointer: Page)
    requires pip in plan.changed && plan.typeOf(pip) == PIP && pointer in plan.changed && plan.typeOf(pointer) == POINTER_PAGE
    requires data <= plan.changed && (forall d :: d in data ==> plan.typeOf(d) == DATA) && |data| >= RELATED_LIMIT
    ensures !SearchesFit(plan)
  {
    var g := PlanGraph(plan, 5);
    PlanGraphNext(plan, 5, pip);
    forall d | d in data ensures d in Next(g, pip) {
      assert Rule(5, plan.typeOf(d), plan.typeOf(pip));
    }
    SubsetSize(data, Next(g, pip));
    ReachesSelf(g, pip);
    EdgeSumRemove(g, ReachSet(g, pip), pip);
    assert Pair(plan, 6, pointer, pip);
    assert !Fits(plan, 6, pip);
  }

  /** The change list of pages 0 to 1001: a PIP, a pointer page and a thousand data pages. */
  function LargeChange(): (changed: seq<Page>)
    ensures |changed| == 1002 && forall i :: 0 <= i < 1002 ==> changed[i] == i
  {
    seq(1002, i => i)
  }

  function LargeTypes(): Page -> PageType {
    (p: Page) => if p == 0 then PIP else if p == 1 then POINTER_PAGE else DATA
  }

  lemma DataPages(n: nat) returns (data: set<Page>)
    requires n <= 1000
    ensures |data| == n && forall p :: p in data <==> 2 <= p < 2 + n
  {
    data := {};
    for k := 0 to n
      invariant |data| == k && forall p :: p in data <==> 2 <= p < 2 + k
    {
      data := data + {2 + k};
    }
  }

  lemma LargeChangeGivesUp(pageBytes: Page -> Bytes, ps: nat)
    ensures !SearchesFit(PlanOf(LargeChange(), LargeTypes(), pageBytes, ps))
  {
    var plan := PlanOf(LargeChange(), LargeTypes(), pageBytes, ps);
    var data := DataPages(1000);
    assert LargeChange()[0] == 0 && LargeChange()[1] == 1;
    forall p | 0 <= p < 1002 ensures p in plan.changed {
      assert LargeChange()[p] == p;
    }
    ManyDataPagesGiveUp(plan, data, 0, 1);
  }

  /** So orders that break the page-type rules exist: planning that change list gives one, whatever the
      pages hold and whatever the file was. */
  method DisorderExists(cache: Cache, pageBytes: Page -> Bytes) returns (ghost plan: Plan, ghost i: nat, ghost f: Page)
    requires cache.Ok() && cache.View() == Attached(cache.image)
    modifies cache
    ensures plan == PlanOf(LargeChange(), LargeTypes(), pageBytes, cache.pageSize)
    ensures OutOfOrder(plan, cache.writes, i, f)
  {
    hide SearchesFit, Valid, Marked;
    plan := BuildPlan(cache, LargeChange(), LargeTypes(), pageBytes);
    LargeChangeGivesUp(pageBytes, cache.pageSize);
    assert !Obeys(plan, cache.writes);
    i, f :| OutOfOrder(plan, cache.writes, i, f);
  }
}
