/** Directed graphs of "must be written first" edges: reachability, acyclicity, and what a bounded
    depth-first search over them costs. */
module PrecedenceGraph {

  type Page = nat

  /** `g[p]` holds the pages that must be written before `p`. */
  type Graph = map<Page, set<Page>>

  function Next(g: Graph, p: Page): set<Page> {
    if p in g then g[p] else {}
  }

  // ------------------------------------------------------------------ reachability

  ghost predicate Path(g: Graph, s: seq<Page>) {
    s != [] && forall i :: 0 <= i < |s| - 1 ==> s[i + 1] in Next(g, s[i])
  }

  ghost predicate PathFrom(g: Graph, s: seq<Page>, a: Page, b: Page) {
    Path(g, s) && s[0] == a && s[|s| - 1] == b
  }

  ghost predicate Reaches(g: Graph, a: Page, b: Page) {
    exists s :: PathFrom(g, s, a, b)
  }

  lemma ReachesSelf(g: Graph, a: Page)
    ensures Reaches(g, a, a)
  {
    assert PathFrom(g, [a], a, a);
  }

  lemma ReachesStep(g: Graph, a: Page, b: Page, c: Page)
    requires Reaches(g, a, b) && c in Next(g, b)
    ensures Reaches(g, a, c)
  {
    var s :| PathFrom(g, s, a, b);
    assert PathFrom(g, s + [c], a, c);
  }

  lemma ReachesTransitive(g: Graph, a: Page, b: Page, c: Page)
    requires Reaches(g, a, b) && Reaches(g, b, c)
    ensures Reaches(g, a, c)
  {
    var s :| PathFrom(g, s, a, b);
    var t :| PathFrom(g, t, b, c);
    assert PathFrom(g, s + t[1..], a, c);
  }

  /** A set closed under the edges keeps everything reachable from inside it. */
  lemma {:induction false} ClosedKeepsPath(g: Graph, closed: set<Page>, s: seq<Page>)
    requires Path(g, s) && s[0] in closed
    requires forall x :: x in closed ==> Next(g, x) <= closed
    ensures s[|s| - 1] in closed
  {
    if |s| > 1 {
      assert s[1] in Next(g, s[0]);
      assert forall i :: 0 <= i < |s[1..]| ==> s[1..][i] == s[i + 1];
      ClosedKeepsPath(g, closed, s[1..]);
    }
  }

  lemma ClosedKeepsReach(g: Graph, closed: set<Page>, a: Page, b: Page)
    requires a in closed && Reaches(g, a, b)
    requires forall x :: x in closed ==> Next(g, x) <= closed
    ensures b in closed
  {
    var s :| PathFrom(g, s, a, b);
    ClosedKeepsPath(g, closed, s);
  }

  /** Every page an edge mentions. */
  ghost function Nodes(g: Graph): set<Page> {
    g.Keys + set w, f | w in g.Keys && f in g[w] :: f
  }

  ghost function ReachSet(g: Graph, a: Page): (r: set<Page>)
    ensures a in r
  {
    ReachesSelf(g, a);
    set b | b in Nodes(g) + {a} && Reaches(g, a, b)
  }

  lemma ReachSetMeaning(g: Graph, a: Page, b: Page)
    ensures b in ReachSet(g, a) <==> Reaches(g, a, b)
  {
    if Reaches(g, a, b) {
      var s :| PathFrom(g, s, a, b);
      if |s| > 1 {
        var w := s[|s| - 2];
        assert s[|s| - 2 + 1] in Next(g, w);
        assert w in g.Keys && b in g[w];
      }
    }
  }

  lemma ReachSetClosed(g: Graph, a: Page, x: Page)
    requires x in ReachSet(g, a)
    ensures Next(g, x) <= ReachSet(g, a)
    ensures ReachSet(g, x) <= ReachSet(g, a)
  {
    ReachSetMeaning(g, a, x);
    forall y | y in Next(g, x) ensures y in ReachSet(g, a) {
      ReachesStep(g, a, x, y);
      ReachSetMeaning(g, a, y);
    }
    forall y | y in ReachSet(g, x) ensures y in ReachSet(g, a) {
      ReachSetMeaning(g, x, y);
      ReachesTransitive(g, a, x, y);
      ReachSetMeaning(g, a, y);
    }
  }

  /** A closed set that holds `a` and only what `a` reaches is the reach set. */
  lemma ReachSetIs(g: Graph, a: Page, r: set<Page>)
    requires a in r && forall x :: x in r ==> Next(g, x) <= r && Reaches(g, a, x)
    ensures r == ReachSet(g, a)
  {
    forall b ensures b in r <==> b in ReachSet(g, a) {
      ReachSetMeaning(g, a, b);
      if Reaches(g, a, b) {
        ClosedKeepsReach(g, r, a, b);
      }
    }
  }

  /** What a page reaches: itself, and what its predecessors reach. */
  lemma ReachSetUnfold(g: Graph, a: Page, x: Page)
    requires x in ReachSet(g, a)
    ensures x == a || exists y :: y in Next(g, a) && x in ReachSet(g, y)
  {
    ReachSetMeaning(g, a, x);
    var s :| PathFrom(g, s, a, x);
    if |s| > 1 {
      var y := s[1];
      assert s[0 + 1] in Next(g, s[0]);
      var t := s[1..];
      assert forall i :: 0 <= i < |t| ==> t[i] == s[i + 1];
      assert PathFrom(g, t, y, x);
      ReachSetMeaning(g, y, x);
    }
  }

  /** Graphs that agree on what `a` reaches in one of them agree on what `a` reaches. */
  lemma ReachSetFrame(g: Graph, h: Graph, a: Page)
    requires forall x :: x in ReachSet(g, a) ==> Next(g, x) == Next(h, x)
    ensures ReachSet(h, a) == ReachSet(g, a)
  {
    var r := ReachSet(g, a);
    forall x | x in r ensures Next(h, x) <= r && Reaches(h, a, x) {
      ReachSetClosed(g, a, x);
      ReachSetMeaning(g, a, x);
      var s :| PathFrom(g, s, a, x);
      PathCopies(g, h, a, s);
      assert PathFrom(h, s, a, x);
    }
    ReachSetIs(h, a, r);
  }

  lemma PathCopies(g: Graph, h: Graph, a: Page, s: seq<Page>)
    requires Path(g, s) && s[0] == a && forall x :: x in ReachSet(g, a) ==> Next(g, x) == Next(h, x)
    ensures Path(h, s)
  {
    forall i | 0 <= i < |s| - 1 ensures s[i + 1] in Next(h, s[i]) {
      assert forall k :: 0 <= k < |s[..i + 1]| ==> s[..i + 1][k] == s[k];
      assert PathFrom(g, s[..i + 1], a, s[i]);
      ReachSetMeaning(g, a, s[i]);
    }
  }

  /** A graph with fewer edges reaches no more. */
  lemma SubgraphReaches(g: Graph, h: Graph, a: Page)
    requires forall x :: Next(h, x) <= Next(g, x)
    ensures ReachSet(h, a) <= ReachSet(g, a)
  {
    forall x | x in ReachSet(h, a) ensures x in ReachSet(g, a) {
      ReachSetMeaning(h, a, x);
      var s :| PathFrom(h, s, a, x);
      assert PathFrom(g, s, a, x);
      ReachSetMeaning(g, a, x);
    }
  }

  // ------------------------------------------------------------------ acyclicity

  /** A rank that every edge descends. */
  ghost predicate Ranked(g: Graph, rank: Page -> nat) {
    forall w, f :: f in Next(g, w) ==> rank(f) < rank(w)
  }

  ghost predicate Acyclic(g: Graph) {
    forall s :: Path(g, s) && |s| > 1 ==> s[0] != s[|s| - 1]
  }

  lemma {:induction false} RankDescends(g: Graph, rank: Page -> nat, s: seq<Page>)
    requires Ranked(g, rank) && Path(g, s)
    ensures rank(s[|s| - 1]) <= rank(s[0])
    ensures |s| > 1 ==> rank(s[|s| - 1]) < rank(s[0])
  {
    if |s| > 1 {
      assert s[0 + 1] in Next(g, s[0]);
      assert forall i :: 0 <= i < |s[1..]| ==> s[1..][i] == s[i + 1];
      RankDescends(g, rank, s[1..]);
    }
  }

  lemma RankedIsAcyclic(g: Graph, rank: Page -> nat)
    requires Ranked(g, rank)
    ensures Acyclic(g)
  {
    forall s | Path(g, s) && |s| > 1 ensures s[0] != s[|s| - 1] {
      RankDescends(g, rank, s);
    }
  }

  lemma ReachDescends(g: Graph, rank: Page -> nat, a: Page, x: Page)
    requires Ranked(g, rank) && x in ReachSet(g, a)
    ensures rank(x) <= rank(a)
  {
    ReachSetMeaning(g, a, x);
    var s :| PathFrom(g, s, a, x);
    RankDescends(g, rank, s);
  }

  function WithEdge(g: Graph, window: Page, first: Page): Graph {
    g[window := Next(g, window) + {first}]
  }

  /** Adding an edge whose head does not reach its tail keeps the graph ranked: whatever reaches the
      window moves above everything else. */
  ghost function Lifted(g: Graph, rank: Page -> nat, window: Page, first: Page): Page -> nat {
    (p: Page) => rank(p) + if Reaches(g, p, window) then rank(first) + 1 else 0
  }

  lemma EdgeKeepsRank(g: Graph, rank: Page -> nat, window: Page, first: Page)
    requires Ranked(g, rank) && !Reaches(g, first, window)
    ensures Ranked(WithEdge(g, window, first), Lifted(g, rank, window, first))
  {
    var h, lifted := WithEdge(g, window, first), Lifted(g, rank, window, first);
    ReachesSelf(g, window);
    forall w, f | f in Next(h, w) ensures lifted(f) < lifted(w) {
      if f in Next(g, w) {
        if Reaches(g, f, window) {
          ReachesSelf(g, w);
          ReachesStep(g, w, w, f);
          ReachesTransitive(g, w, f, window);
        }
      } else {
        assert w == window && f == first;
      }
    }
  }

  // ------------------------------------------------------------------ counting edges

  ghost function EdgeSum(g: Graph, s: set<Page>): nat {
    if s == {} then 0 else var x :| x in s; |Next(g, x)| + EdgeSum(g, s - {x})
  }

  lemma {:induction false} EdgeSumRemove(g: Graph, s: set<Page>, x: Page)
    requires x in s
    ensures EdgeSum(g, s) == |Next(g, x)| + EdgeSum(g, s - {x})
    decreases |s|
  {
    var y :| y in s && EdgeSum(g, s) == |Next(g, y)| + EdgeSum(g, s - {y});
    if y != x {
      EdgeSumRemove(g, s - {y}, x);
      EdgeSumRemove(g, s - {x}, y);
      assert s - {y} - {x} == s - {x} - {y};
    }
  }

  lemma EdgeSumAdd(g: Graph, s: set<Page>, x: Page)
    requires x !in s
    ensures EdgeSum(g, s + {x}) == EdgeSum(g, s) + |Next(g, x)|
  {
    EdgeSumRemove(g, s + {x}, x);
    assert s + {x} - {x} == s;
  }

  lemma {:induction false} EdgeSumMonotone(g: Graph, s: set<Page>, t: set<Page>)
    requires s <= t
    ensures EdgeSum(g, s) <= EdgeSum(g, t)
    decreases |s|
  {
    if s != {} {
      var x :| x in s;
      EdgeSumRemove(g, s, x);
      EdgeSumRemove(g, t, x);
      EdgeSumMonotone(g, s - {x}, t - {x});
    }
  }

  lemma {:induction false} EdgeSumFrame(g: Graph, h: Graph, s: set<Page>)
    requires forall x :: x in s ==> Next(g, x) == Next(h, x)
    ensures EdgeSum(g, s) == EdgeSum(h, s)
    decreases |s|
  {
    if s != {} {
      var x :| x in s;
      EdgeSumRemove(g, s, x);
      EdgeSumRemove(h, s, x);
      EdgeSumFrame(g, h, s - {x});
    }
  }

  /** The number of pops an unlimited search from `a` makes before it knows what `a` reaches: one for
      `a` itself and one per edge leaving a reached page. */
  ghost function SearchCost(g: Graph, a: Page): nat {
    1 + EdgeSum(g, ReachSet(g, a))
  }

  lemma SearchCostMonotone(g: Graph, a: Page, x: Page)
    requires x in ReachSet(g, a)
    ensures SearchCost(g, x) <= SearchCost(g, a)
  {
    ReachSetClosed(g, a, x);
    EdgeSumMonotone(g, ReachSet(g, x), ReachSet(g, a));
  }

  lemma SearchCostFrame(g: Graph, h: Graph, a: Page)
    requires forall x :: x in ReachSet(g, a) ==> Next(g, x) == Next(h, x)
    ensures ReachSet(h, a) == ReachSet(g, a) && SearchCost(h, a) == SearchCost(g, a)
  {
    ReachSetFrame(g, h, a);
    EdgeSumFrame(g, h, ReachSet(g, a));
  }

  // ------------------------------------------------------------------ ascending order

  predicate IsLeast(s: set<Page>, m: Page) {
    m in s && forall x :: x in s ==> m <= x
  }

  function Least(s: set<Page>): (m: Page)
    requires s != {}
    ensures IsLeast(s, m)
  {
    LeastExists(s);
    var m :| m in s && IsLeast(s, m);
    m
  }

  lemma {:induction false} LeastExists(s: set<Page>)
    requires s != {}
    ensures exists m :: m in s && IsLeast(s, m)
    decreases |s|
  {
    var y :| y in s;
    var rest := s - {y};
    assert forall x :: x in s ==> x == y || x in rest;
    if rest == {} {
      assert IsLeast(s, y);
    } else {
      LeastExists(rest);
      var m :| m in rest && IsLeast(rest, m);
      assert IsLeast(s, if y < m then y else m);
    }
  }

  /** The members of a set in ascending order: how an ordered set is walked. */
  function Ascending(s: set<Page>): (q: seq<Page>)
    ensures |q| == |s|
    ensures forall x :: x in q <==> x in s
    ensures forall i, j :: 0 <= i < j < |q| ==> q[i] < q[j]
    decreases |s|
  {
    if s == {} then [] else var m := Least(s); [m] + Ascending(s - {m})
  }

  // ------------------------------------------------------------------ the bounded search

  /** What the bounded search answers. */
  ghost predicate RelatedSpec(g: Graph, from: Page, to: Page, budget: nat) {
    to in ReachSet(g, from) || SearchCost(g, from) > budget
  }

  /** What the search has found so far: everything popped or stacked is reached, everything leaving a
      popped page is popped or stacked, and the target has not been popped. */
  ghost predicate Searching(g: Graph, from: Page, to: Page, seen: set<Page>, stack: seq<Page>) {
    && (forall x :: x in seen || x in stack ==> Reaches(g, from, x))
    && (forall x, y :: x in seen && y in Next(g, x) ==> y in seen || y in stack)
    && (from in seen || from in stack)
    && to !in seen
  }

  lemma SkipSeen(g: Graph, from: Page, to: Page, seen: set<Page>, rest: seq<Page>, p: Page)
    requires Searching(g, from, to, seen, rest + [p]) && p in seen
    ensures Searching(g, from, to, seen, rest)
  {
    assert forall x :: x in rest + [p] <==> x in rest || x == p;
  }

  lemma Expand(g: Graph, from: Page, to: Page, seen: set<Page>, rest: seq<Page>, p: Page, next: seq<Page>)
    requires Searching(g, from, to, seen, rest + [p]) && p != to
    requires forall x :: x in next <==> x in Next(g, p)
    ensures Searching(g, from, to, seen + {p}, rest + next)
  {
    assert p in rest + [p];
    forall y | y in Next(g, p) ensures Reaches(g, from, y) {
      ReachesStep(g, from, p, y);
    }
    assert forall x :: x in rest + [p] <==> x in rest || x == p;
    assert forall x :: x in rest + next <==> x in rest || x in next;
  }

  /** Is `to` reachable from `from`? Past its budget of pops the search says yes. */
  method Related(g: Graph, from: Page, to: Page, limit: nat) returns (r: bool)
    ensures r <==> RelatedSpec(g, from, to, limit)
  {
    hide Reaches, ReachSet, EdgeSum;
    var budget: nat := limit;
    var stack := [from];
    var seen: set<Page> := {};
    ReachesSelf(g, from);
    NoEdges(g);
    while stack != []
      invariant budget <= limit
      invariant Searching(g, from, to, seen, stack)
      invariant limit - budget + |stack| == 1 + EdgeSum(g, seen)
      decreases budget, |stack|
    {
      var p := stack[|stack| - 1];
      var rest := stack[..|stack| - 1];
      assert stack == rest + [p];
      if budget == 0 {
        SeenIsReached(g, from, seen);
        return true;
      }
      budget := budget - 1;
      if p == to {
        ReachSetMeaning(g, from, to);
        return true;
      }
      if p in seen {
        SkipSeen(g, from, to, seen, rest, p);
        stack := rest;
      } else {
        EdgeSumAdd(g, seen, p);
        Expand(g, from, to, seen, rest, p, Ascending(Next(g, p)));
        stack := rest + Ascending(Next(g, p));
        seen := seen + {p};
      }
    }
    ReachSetIs(g, from, seen);
    return false;
  }

  lemma NoEdges(g: Graph)
    ensures EdgeSum(g, {}) == 0
  {
  }

  lemma SeenIsReached(g: Graph, from: Page, seen: set<Page>)
    requires forall x :: x in seen ==> Reaches(g, from, x)
    ensures EdgeSum(g, seen) <= EdgeSum(g, ReachSet(g, from))
  {
    forall x | x in seen ensures x in ReachSet(g, from) {
      ReachSetMeaning(g, from, x);
    }
    EdgeSumMonotone(g, seen, ReachSet(g, from));
  }
}
