/** Event counters and interests: posts are buffered per transaction, counted at commit, and an interest
    fires once when its counter reaches the threshold. */
module Events {

  type Name = string

  datatype Interest = Interest(session: nat, name: Name, threshold: int)

  datatype Delivery = Delivery(session: nat, name: Name, count: int)

  type Posts = map<Name, nat>

  /** A delivery carries the counter plus one. */
  const DELIVERED_OFFSET: int := 1

  datatype Option<T> = None | Some(value: T)

  // ------------------------------------------------------------------ name order

  /** Lexicographic order: the order a `BTreeMap` hands its keys out in. */
  predicate Less(a: Name, b: Name) {
    b != [] && (a == [] || a[0] < b[0] || (a[0] == b[0] && Less(a[1..], b[1..])))
  }

  lemma {:induction false} LessTransitive(a: Name, b: Name, c: Name)
    requires Less(a, b) && Less(b, c)
    ensures Less(a, c)
  {
    if a != [] && a[0] == b[0] == c[0] {
      LessTransitive(a[1..], b[1..], c[1..]);
    }
  }

  lemma {:induction false} LessTotal(a: Name, b: Name)
    ensures a == b || Less(a, b) || Less(b, a)
    ensures !(Less(a, b) && Less(b, a)) && !Less(a, a)
  {
    if a != [] && b != [] {
      LessTotal(a[1..], b[1..]);
      if a[0] == b[0] && a[1..] == b[1..] {
        assert a == [a[0]] + a[1..] && b == [b[0]] + b[1..];
      }
      LessTotal(a[1..], a[1..]);
    } else if a != [] {
      LessTotal(a[1..], a[1..]);
    }
  }

  ghost predicate IsFirst(names: set<Name>, n: Name) {
    n in names && forall k :: k in names && k != n ==> Less(n, k)
  }

  lemma {:induction false} FirstExists(names: set<Name>)
    requires names != {}
    ensures exists n :: IsFirst(names, n)
  {
    var x :| x in names;
    var rest := names - {x};
    if rest == {} {
      assert names == {x};
      assert IsFirst(names, x);
    } else {
      FirstExists(rest);
      var n :| IsFirst(rest, n);
      LessTotal(x, n);
      if Less(x, n) {
        forall k | k in names && k != x ensures Less(x, k) {
          if k != n {
            LessTransitive(x, n, k);
          }
        }
        assert IsFirst(names, x);
      } else {
        assert IsFirst(names, n);
      }
    }
  }

  lemma FirstUnique(names: set<Name>, a: Name, b: Name)
    requires IsFirst(names, a) && IsFirst(names, b)
    ensures a == b
  {
    LessTotal(a, b);
  }

  /** The names in ascending order. */
  ghost function Ascending(names: set<Name>): seq<Name>
    decreases |names|
  {
    if names == {} then [] else
      FirstExists(names);
      var n :| IsFirst(names, n);
      [n] + Ascending(names - {n})
  }

  lemma AscendingStep(names: set<Name>, n: Name)
    requires IsFirst(names, n)
    ensures Ascending(names) == [n] + Ascending(names - {n})
  {
    FirstExists(names);
    var m :| IsFirst(names, m) && Ascending(names) == [m] + Ascending(names - {m});
    FirstUnique(names, n, m);
  }

  // ------------------------------------------------------------------ the table as a value

  datatype State = State(counts: map<Name, nat>, interests: seq<Interest>, pending: map<nat, Posts>) {
    /** Zero for a name never heard of. */
    function Count(name: Name): nat {
      if name in counts then counts[name] else 0
    }
  }

  const EMPTY := State(map[], [], map[])

  function Queue(s: State, session: nat, name: Name, seen: int): (State, seq<Delivery>) {
    var t := s.(counts := s.counts[name := s.Count(name)]);
    if seen <= s.Count(name) then (t, [Delivery(session, name, s.Count(name) + DELIVERED_OFFSET)])
    else (t.(interests := s.interests + [Interest(session, name, seen)]), [])
  }

  function WithoutSession(interests: seq<Interest>, session: nat): seq<Interest> {
    if interests == [] then [] else
      WithoutSession(interests[..|interests| - 1], session)
      + if interests[|interests| - 1].session == session then [] else [interests[|interests| - 1]]
  }

  function Cancel(s: State, session: nat): State {
    s.(interests := WithoutSession(s.interests, session))
  }

  function PostsOf(s: State, tx: nat): Posts {
    if tx in s.pending then s.pending[tx] else map[]
  }

  function Times(posts: Posts, name: Name): nat {
    if name in posts then posts[name] else 0
  }

  function Post(s: State, tx: nat, name: Name): State {
    var posts := PostsOf(s, tx);
    s.(pending := s.pending[tx := posts[name := Times(posts, name) + 1]])
  }

  predicate Fires(i: Interest, name: Name, now: nat) {
    i.name == name && i.threshold <= now
  }

  /** The interests a counter leaves standing, in order. */
  function Kept(interests: seq<Interest>, name: Name, now: nat): seq<Interest> {
    if interests == [] then [] else
      var i := interests[|interests| - 1];
      Kept(interests[..|interests| - 1], name, now) + if Fires(i, name, now) then [] else [i]
  }

  /** One delivery for each interest the counter has reached, in order. */
  function Fired(interests: seq<Interest>, name: Name, now: nat): seq<Delivery> {
    if interests == [] then [] else
      var i := interests[|interests| - 1];
      Fired(interests[..|interests| - 1], name, now)
      + if Fires(i, name, now) then [Delivery(i.session, name, now + DELIVERED_OFFSET)] else []
  }

  /** One posted name at commit; without an event block the posts are dropped. */
  function Count(s: State, name: Name, times: nat): (State, seq<Delivery>) {
    if name !in s.counts then (s, []) else
      var now := s.counts[name] + times;
      (s.(counts := s.counts[name := now], interests := Kept(s.interests, name, now)), Fired(s.interests, name, now))
  }

  function CountAll(s: State, names: seq<Name>, posts: Posts): (State, seq<Delivery>)
    requires forall n :: n in names ==> n in posts
    decreases |names|
  {
    if names == [] then (s, []) else
      var first := Count(s, names[0], posts[names[0]]);
      var rest := CountAll(first.0, names[1..], posts);
      (rest.0, first.1 + rest.1)
  }

  lemma {:induction false} AscendingOf(names: set<Name>)
    ensures forall n :: n in Ascending(names) <==> n in names
    decreases |names|
  {
    if names != {} {
      FirstExists(names);
      var n :| IsFirst(names, n);
      AscendingStep(names, n);
      AscendingOf(names - {n});
    }
  }

  /** The counting of the names still to come. */
  ghost function CommitFrom(s: State, names: set<Name>, posts: Posts): (State, seq<Delivery>)
    requires names <= posts.Keys
  {
    AscendingOf(names);
    CountAll(s, Ascending(names), posts)
  }

  function Deferred(out: seq<Delivery>, r: (State, seq<Delivery>)): (State, seq<Delivery>) {
    (r.0, out + r.1)
  }

  lemma CommitStep(s: State, names: set<Name>, n: Name, posts: Posts, out: seq<Delivery>)
    requires names <= posts.Keys && IsFirst(names, n)
    ensures n in names
    ensures var first := Count(s, n, posts[n]);
            Deferred(out, CommitFrom(s, names, posts)) == Deferred(out + first.1, CommitFrom(first.0, names - {n}, posts))
  {
    hide Count;
    AscendingOf(names);
    AscendingOf(names - {n});
    AscendingStep(names, n);
    assert Ascending(names)[1..] == Ascending(names - {n});
    var first := Count(s, n, posts[n]);
    var rest := CommitFrom(first.0, names - {n}, posts);
    assert out + (first.1 + rest.1) == out + first.1 + rest.1;
  }

  lemma NothingLeft(s: State, posts: Posts)
    ensures CommitFrom(s, {}, posts) == (s, [])
  {
  }

  /** Commit: the buffered names in ascending order. */
  ghost function Commit(s: State, tx: nat): (State, seq<Delivery>) {
    if tx !in s.pending then (s, []) else
      CommitFrom(s.(pending := s.pending - {tx}), s.pending[tx].Keys, s.pending[tx])
  }

  function Rollback(s: State, tx: nat): State {
    s.(pending := s.pending - {tx})
  }

  // ------------------------------------------------------------------ the table in place

  class EventTable {
    var counts: map<Name, nat>
    var interests: seq<Interest>
    var pending: map<nat, Posts>

    ghost function View(): State
      reads this
    {
      State(counts, interests, pending)
    }

    constructor ()
      ensures View() == EMPTY
    {
      counts, interests, pending := map[], [], map[];
    }

    method QueueEvents(session: nat, name: Name, seen: int) returns (out: seq<Delivery>)
      modifies this
      ensures (View(), out) == Queue(old(View()), session, name, seen)
    {
      if name !in counts {
        counts := counts[name := 0];
      }
      assert counts == old(counts)[name := old(View()).Count(name)];
      var now := counts[name];
      if seen <= now {
        return [Delivery(session, name, now + DELIVERED_OFFSET)];
      }
      interests := interests + [Interest(session, name, seen)];
      out := [];
    }

    method CancelEvents(session: nat)
      modifies this
      ensures View() == Cancel(old(View()), session)
    {
      var kept: seq<Interest> := [];
      for k := 0 to |interests|
        invariant counts == old(counts) && pending == old(pending) && interests == old(interests)
        invariant kept == WithoutSession(interests[..k], session)
      {
        assert interests[..k + 1][..k] == interests[..k];
        if interests[k].session != session {
          kept := kept + [interests[k]];
        }
      }
      assert interests[..|interests|] == interests;
      interests := kept;
    }

    method PostEvent(tx: nat, name: Name)
      modifies this
      ensures View() == Post(old(View()), tx, name)
    {
      if tx !in pending {
        pending := pending[tx := map[]];
      }
      var posts := pending[tx];
      if name !in posts {
        posts := posts[name := 0];
      }
      posts := posts[name := posts[name] + 1];
      pending := pending[tx := posts];
      assert pending == old(pending)[tx := posts];
      assert posts == PostsOf(old(View()), tx)[name := Times(PostsOf(old(View()), tx), name) + 1];
    }

    /** The least of some names. */
    method FirstName(names: set<Name>) returns (n: Name)
      requires names != {}
      ensures IsFirst(names, n)
    {
      var rest := names;
      n :| n in rest;
      rest := rest - {n};
      while rest != {}
        invariant rest <= names && n in names - rest && IsFirst(names - rest, n)
        decreases |rest|
      {
        var k :| k in rest;
        LessTotal(n, k);
        if Before(k, n) {
          forall m | m in names - rest ensures Less(k, m) {
            if m != n {
              LessTransitive(k, n, m);
            }
          }
          n := k;
        }
        rest := rest - {k};
      }
      assert names - rest == names;
    }

    static function Before(a: Name, b: Name): (r: bool)
      ensures r <==> Less(a, b)
    {
      Less(a, b)
    }

    /** One posted name lands on its counter, and the interests it reached come down. */
    method CountName(name: Name, times: nat) returns (fired: seq<Delivery>)
      modifies `counts, `interests
      ensures (View(), fired) == Count(old(View()), name, times)
    {
      fired := [];
      if name !in counts {
        return;
      }
      var now := counts[name] + times;
      counts := counts[name := now];
      var kept: seq<Interest> := [];
      for k := 0 to |interests|
        invariant interests == old(interests) && counts == old(counts)[name := now]
        invariant kept == Kept(interests[..k], name, now)
        invariant fired == Fired(interests[..k], name, now)
      {
        var i := interests[k];
        assert interests[..k + 1][..k] == interests[..k];
        if i.name == name && i.threshold <= now {
          fired := fired + [Delivery(i.session, name, now + DELIVERED_OFFSET)];
        } else {
          kept := kept + [i];
        }
      }
      assert interests[..|interests|] == interests;
      interests := kept;
    }

    method CommitPosts(tx: nat) returns (out: seq<Delivery>)
      modifies this
      ensures (View(), out) == Commit(old(View()), tx)
    {
      if tx !in pending {
        return [];
      }
      hide Ascending, IsFirst, Count, Less;
      var posts := pending[tx];
      pending := pending - {tx};
      out := [];
      ghost var whole := CommitFrom(View(), posts.Keys, posts);
      var rest := posts.Keys;
      assert [] + whole.1 == whole.1;
      while rest != {}
        invariant rest <= posts.Keys
        invariant whole == Deferred(out, CommitFrom(View(), rest, posts))
        decreases |rest|
      {
        var name := FirstName(rest);
        CommitStep(View(), rest, name, posts, out);
        assert name in rest;
        var fired := CountName(name, posts[name]);
        out := out + fired;
        rest := rest - {name};
      }
      NothingLeft(View(), posts);
      assert out + [] == out;
    }

    method RollbackPosts(tx: nat)
      modifies this
      ensures View() == Rollback(old(View()), tx)
    {
      pending := pending - {tx};
    }
  }
}
