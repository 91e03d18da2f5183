/** What holds over every interleaving of sessions and transactions: no interest is left behind its
    counter, counters count exactly the committed posts somebody listened for, and a client that
    always queues again at its last delivered count misses none of them. */
module EventRuns {
  import opened Events

  datatype Op =
    | QueueOp(session: nat, name: Name, seen: int)
    | CancelOp(session: nat)
    | PostOp(tx: nat, name: Name)
    | CommitOp(tx: nat)
    | RollbackOp(tx: nat)

  ghost function Step(s: State, op: Op): (State, seq<Delivery>) {
    match op
    case QueueOp(session, name, seen) => Queue(s, session, name, seen)
    case CancelOp(session) => (Cancel(s, session), [])
    case PostOp(tx, name) => (Post(s, tx, name), [])
    case CommitOp(tx) => Commit(s, tx)
    case RollbackOp(tx) => (Rollback(s, tx), [])
  }

  /** The table after a run, and everything it delivered. */
  ghost function Run(ops: seq<Op>): (State, seq<Delivery>) {
    if ops == [] then (EMPTY, []) else
      var before := Run(ops[..|ops| - 1]);
      var after := Step(before.0, ops[|ops| - 1]);
      (after.0, before.1 + after.1)
  }

  // ------------------------------------------------------------------ one commit, at once

  lemma {:induction false} KeptIn(interests: seq<Interest>, name: Name, now: nat, i: Interest)
    ensures i in Kept(interests, name, now) <==> i in interests && !Fires(i, name, now)
  {
    if interests != [] {
      var n := |interests| - 1;
      KeptIn(interests[..n], name, now, i);
      assert interests == interests[..n] + [interests[n]];
    }
  }

  lemma {:induction false} FiredIn(interests: seq<Interest>, name: Name, now: nat, d: Delivery)
    ensures d in Fired(interests, name, now)
            <==> d.name == name && d.count == now + 1 && exists i :: i in interests && Fires(i, name, now) && i.session == d.session
  {
    if interests != [] {
      var n := |interests| - 1;
      FiredIn(interests[..n], name, now, d);
      assert interests == interests[..n] + [interests[n]];
      assert interests[n] in interests;
    }
  }

  /** The interests no counter has reached, in order. */
  function Standing(interests: seq<Interest>, names: set<Name>, counts: map<Name, nat>): seq<Interest> {
    if interests == [] then [] else
      var i := interests[|interests| - 1];
      Standing(interests[..|interests| - 1], names, counts)
      + if i.name in names && i.name in counts && i.threshold <= counts[i.name] then [] else [i]
  }

  lemma {:induction false} StandingStep(interests: seq<Interest>, names: set<Name>, counts: map<Name, nat>, n: Name)
    requires n in names
    ensures Standing(interests, names, counts)
            == Standing(if n in counts then Kept(interests, n, counts[n]) else interests, names - {n}, counts)
  {
    if interests != [] {
      var k := |interests| - 1;
      var i := interests[k];
      StandingStep(interests[..k], names, counts, n);
      if n in counts && !Fires(i, n, counts[n]) {
        var kept := Kept(interests[..k], n, counts[n]);
        assert Kept(interests, n, counts[n]) == kept + [i];
        assert (kept + [i])[..|kept + [i]| - 1] == kept;
      } else if n in counts {
        var kept := Kept(interests[..k], n, counts[n]);
        assert kept + [] == kept;
        var standing := Standing(interests[..k], names, counts);
        assert standing + [] == standing;
      }
    }
  }

  /** For each name in turn, one delivery for each interest its final counter reaches. */
  function Told(interests: seq<Interest>, names: seq<Name>, counts: map<Name, nat>): seq<Delivery> {
    if names == [] then [] else
      (if names[0] in counts then Fired(interests, names[0], counts[names[0]]) else []) + Told(interests, names[1..], counts)
  }

  lemma {:induction false} FiredOfOther(interests: seq<Interest>, m: Name, reached: nat, n: Name, now: nat)
    requires m != n
    ensures Fired(Kept(interests, m, reached), n, now) == Fired(interests, n, now)
  {
    if interests != [] {
      var k := |interests| - 1;
      var i := interests[k];
      FiredOfOther(interests[..k], m, reached, n, now);
      if !Fires(i, m, reached) {
        var kept := Kept(interests[..k], m, reached);
        assert (kept + [i])[..|kept + [i]| - 1] == kept;
      } else {
        var kept, fired := Kept(interests[..k], m, reached), Fired(interests[..k], n, now);
        assert kept + [] == kept && fired + [] == fired;
      }
    }
  }

  lemma {:induction false} ToldOfOthers(interests: seq<Interest>, m: Name, reached: nat, names: seq<Name>, counts: map<Name, nat>)
    requires m !in names
    ensures Told(Kept(interests, m, reached), names, counts) == Told(interests, names, counts)
  {
    if names != [] {
      ToldOfOthers(interests, m, reached, names[1..], counts);
      if names[0] in counts {
        FiredOfOther(interests, m, reached, names[0], counts[names[0]]);
      }
    }
  }

  /** The counters once every posted name has landed: names without an event block stay unknown. */
  function Landed(counts: map<Name, nat>, names: set<Name>, posts: Posts): map<Name, nat>
    requires names <= posts.Keys
  {
    map n | n in counts :: if n in names then counts[n] + posts[n] else counts[n]
  }

  /** A commit, name by name, is all counters moving at once and one look at every interest. */
  lemma {:induction false} CommitAtOnce(s: State, names: set<Name>, posts: Posts)
    requires names <= posts.Keys
    ensures var counts := Landed(s.counts, names, posts);
            CommitFrom(s, names, posts)
            == (State(counts, Standing(s.interests, names, counts), s.pending), Told(s.interests, Ascending(names), counts))
    decreases |names|
  {
    var counts := Landed(s.counts, names, posts);
    if names == {} {
      NothingLeft(s, posts);
      assert counts == s.counts;
      StandingNone(s.interests, counts);
    } else {
      hide CommitFrom, Ascending, Count, Landed, Standing, Told;
      FirstExists(names);
      var n :| IsFirst(names, n);
      AscendingStep(names, n);
      AscendingOf(names - {n});
      CommitStep(s, names, n, posts, []);
      var first := Count(s, n, posts[n]);
      var rest := names - {n};
      CommitAtOnce(first.0, rest, posts);
      FirstLanded(s, names, posts, n);
      StandingStep(s.interests, names, counts, n);
      ToldStep(s.interests, n, Ascending(rest), counts);
      EmptyFirst(CommitFrom(s, names, posts));
    }
  }

  /** The first name's count, seen from the end of the commit. */
  lemma FirstLanded(s: State, names: set<Name>, posts: Posts, n: Name)
    requires n in names && names <= posts.Keys
    ensures var counts := Landed(s.counts, names, posts); var first := Count(s, n, posts[n]);
            && Landed(first.0.counts, names - {n}, posts) == counts
            && first.0.pending == s.pending
            && first.0.interests == (if n in counts then Kept(s.interests, n, counts[n]) else s.interests)
            && first.1 == if n in counts then Fired(s.interests, n, counts[n]) else []
  {
    hide Kept, Fired;
    var counts := Landed(s.counts, names, posts);
    assert Landed(Count(s, n, posts[n]).0.counts, names - {n}, posts) == counts;
  }

  lemma ToldStep(interests: seq<Interest>, n: Name, rest: seq<Name>, counts: map<Name, nat>)
    requires n !in rest
    ensures Told(interests, [n] + rest, counts)
            == (if n in counts then Fired(interests, n, counts[n]) else [])
               + Told(if n in counts then Kept(interests, n, counts[n]) else interests, rest, counts)
  {
    assert ([n] + rest)[1..] == rest;
    if n in counts {
      ToldOfOthers(interests, n, counts[n], rest, counts);
    }
  }

  lemma EmptyFirst(r: (State, seq<Delivery>))
    ensures Deferred([], r) == r
  {
    assert [] + r.1 == r.1;
  }

  lemma {:induction false} StandingNone(interests: seq<Interest>, counts: map<Name, nat>)
    ensures Standing(interests, {}, counts) == interests
  {
    if interests != [] {
      StandingNone(interests[..|interests| - 1], counts);
    }
  }

  // ------------------------------------------------------------------ no interest behind its counter

  predicate Waiting(s: State) {
    forall i :: i in s.interests ==> i.name in s.counts && i.threshold > s.counts[i.name]
  }

  lemma {:induction false} StandingIn(interests: seq<Interest>, names: set<Name>, counts: map<Name, nat>, i: Interest)
    ensures i in Standing(interests, names, counts)
            <==> i in interests && !(i.name in names && i.name in counts && i.threshold <= counts[i.name])
  {
    if interests != [] {
      var n := |interests| - 1;
      StandingIn(interests[..n], names, counts, i);
      assert interests == interests[..n] + [interests[n]];
    }
  }

  lemma {:induction false} WithoutSessionIn(interests: seq<Interest>, session: nat, i: Interest)
    ensures i in WithoutSession(interests, session) <==> i in interests && i.session != session
  {
    if interests != [] {
      var n := |interests| - 1;
      WithoutSessionIn(interests[..n], session, i);
      assert interests == interests[..n] + [interests[n]];
    }
  }

  lemma CommitParts(s: State, tx: nat)
    requires tx in s.pending
    ensures var posts := s.pending[tx]; var counts := Landed(s.counts, posts.Keys, posts);
            && Commit(s, tx).0 == State(counts, Standing(s.interests, posts.Keys, counts), s.pending - {tx})
            && Commit(s, tx).1 == Told(s.interests, Ascending(posts.Keys), counts)
  {
    CommitAtOnce(s.(pending := s.pending - {tx}), s.pending[tx].Keys, s.pending[tx]);
  }

  /** Every step keeps every interest above its counter: nothing that has happened goes untold. */
  lemma StepKeepsWaiting(s: State, op: Op)
    requires Waiting(s)
    ensures Waiting(Step(s, op).0)
  {
    match op
    case QueueOp(session, name, seen) =>
    case CancelOp(session) =>
      forall i | i in Cancel(s, session).interests ensures i in s.interests {
        WithoutSessionIn(s.interests, session, i);
      }
    case PostOp(tx, name) =>
    case CommitOp(tx) =>
      if tx in s.pending {
        hide Commit, Standing;
        CommitParts(s, tx);
        var posts := s.pending[tx];
        var t := Commit(s, tx).0;
        forall i | i in t.interests ensures i.name in t.counts && i.threshold > t.counts[i.name] {
          StandingIn(s.interests, posts.Keys, t.counts, i);
        }
      }
    case RollbackOp(tx) =>
  }

  lemma {:induction false} AlwaysWaiting(ops: seq<Op>)
    ensures Waiting(Run(ops).0)
  {
    if ops != [] {
      AlwaysWaiting(ops[..|ops| - 1]);
      StepKeepsWaiting(Run(ops[..|ops| - 1]).0, ops[|ops| - 1]);
    }
  }

  // ------------------------------------------------------------------ what a counter counts

  /** Somebody has queued an interest in the name: its event block exists. */
  ghost predicate Listened(ops: seq<Op>, name: Name) {
    exists k :: 0 <= k < |ops| && ops[k].QueueOp? && ops[k].name == name
  }

  predicate Ends(op: Op, tx: nat) {
    op == CommitOp(tx) || op == RollbackOp(tx)
  }

  /** A post whose transaction has not ended yet. */
  ghost predicate Buffered(ops: seq<Op>, i: nat, tx: nat, name: Name)
    requires i < |ops|
  {
    ops[i] == PostOp(tx, name) && forall m :: i < m < |ops| ==> !Ends(ops[m], tx)
  }

  /** A post that was counted: its transaction's first end after it is a commit, and by then somebody
      had listened for the name. */
  ghost predicate Heard(ops: seq<Op>, i: nat, name: Name)
    requires i < |ops|
  {
    && ops[i].PostOp? && ops[i].name == name
    && exists j :: i < j < |ops| && CountedAt(ops, i, j)
  }

  ghost predicate CountedAt(ops: seq<Op>, i: nat, j: nat)
    requires i < j < |ops|
  {
    && ops[i].PostOp? && ops[j] == CommitOp(ops[i].tx) && (forall m :: i < m < j ==> !Ends(ops[m], ops[i].tx))
    && Listened(ops[..j], ops[i].name)
  }

  ghost function BufferedSet(ops: seq<Op>, tx: nat, name: Name): set<nat> {
    set i: nat | i < |ops| && Buffered(ops, i, tx, name)
  }

  ghost function HeardSet(ops: seq<Op>, name: Name): set<nat> {
    set i: nat | i < |ops| && Heard(ops, i, name)
  }

  lemma ListenedStep(front: seq<Op>, op: Op, name: Name)
    ensures Listened(front + [op], name) <==> Listened(front, name) || (op.QueueOp? && op.name == name)
  {
    var ops := front + [op];
    if Listened(front, name) {
      var k :| 0 <= k < |front| && front[k].QueueOp? && front[k].name == name;
      assert ops[k] == front[k];
    }
    if op.QueueOp? && op.name == name {
      assert ops[|front|] == op;
    }
    if Listened(ops, name) {
      var k :| 0 <= k < |ops| && ops[k].QueueOp? && ops[k].name == name;
      assert k < |front| ==> front[k] == ops[k];
    }
  }

  lemma BufferedStep(front: seq<Op>, op: Op, tx: nat, name: Name)
    ensures BufferedSet(front + [op], tx, name)
            == if Ends(op, tx) then {} else BufferedSet(front, tx, name) + if op == PostOp(tx, name) then {|front|} else {}
  {
    var ops := front + [op];
    forall i: nat | i < |front| ensures Buffered(ops, i, tx, name) <==> Buffered(front, i, tx, name) && !Ends(op, tx) {
      assert ops[i] == front[i];
      assert forall m :: i < m < |front| ==> ops[m] == front[m];
      assert ops[|front|] == op;
    }
    assert Buffered(ops, |front|, tx, name) <==> op == PostOp(tx, name);
  }

  lemma HeardStep(front: seq<Op>, op: Op, name: Name)
    ensures HeardSet(front + [op], name)
            == HeardSet(front, name) + if op.CommitOp? && Listened(front, name) then BufferedSet(front, op.tx, name) else {}
  {
    var ops := front + [op];
    forall i: nat | i < |front|
      ensures Heard(ops, i, name)
              <==> Heard(front, i, name) || (op.CommitOp? && Listened(front, name) && Buffered(front, i, op.tx, name))
    {
      assert ops[i] == front[i];
      assert forall m :: 0 <= m < |front| ==> ops[m] == front[m];
      assert ops[..|front|] == front;
      if front[i].PostOp? && front[i].name == name {
        forall j | i < j < |front| ensures CountedAt(ops, i, j) <==> CountedAt(front, i, j) {
          assert ops[..j] == front[..j];
        }
        assert CountedAt(ops, i, |front|)
               <==> op == CommitOp(front[i].tx) && Listened(front, name) && Buffered(front, i, front[i].tx, name);
      }
    }
    assert !Heard(ops, |front|, name);
  }

  lemma HeardNotBuffered(ops: seq<Op>, tx: nat, name: Name)
    ensures HeardSet(ops, name) !! BufferedSet(ops, tx, name)
  {
    forall i: nat | i < |ops| && Heard(ops, i, name) ensures !Buffered(ops, i, tx, name) {
      var j :| i < j < |ops| && CountedAt(ops, i, j);
      assert Ends(ops[j], ops[i].tx);
    }
  }

  lemma UnionSize(a: set<nat>, b: set<nat>)
    requires a !! b
    ensures |a + b| == |a| + |b|
  {
  }

  ghost predicate Counts(s: State, ops: seq<Op>, name: Name) {
    && (name in s.counts <==> Listened(ops, name))
    && s.Count(name) == |HeardSet(ops, name)|
  }

  ghost predicate Buffers(s: State, ops: seq<Op>, tx: nat, name: Name) {
    Times(PostsOf(s, tx), name) == |BufferedSet(ops, tx, name)|
  }

  lemma BuffersStep(s: State, front: seq<Op>, op: Op, tx: nat, name: Name)
    requires Buffers(s, front, tx, name)
    ensures Buffers(Step(s, op).0, front + [op], tx, name)
  {
    BufferedStep(front, op, tx, name);
    match op
    case QueueOp(_, _, _) =>
    case CancelOp(_) =>
    case PostOp(t, n) =>
      if op == PostOp(tx, name) {
        UnionSize(BufferedSet(front, tx, name), {|front|});
      }
    case CommitOp(t) =>
      if t in s.pending {
        hide Commit;
        CommitParts(s, t);
      }
    case RollbackOp(t) =>
  }

  lemma CountsStep(s: State, front: seq<Op>, op: Op, name: Name)
    requires Counts(s, front, name) && (op.CommitOp? ==> Buffers(s, front, op.tx, name))
    ensures Counts(Step(s, op).0, front + [op], name)
  {
    hide HeardSet, BufferedSet, Listened;
    ListenedStep(front, op, name);
    HeardStep(front, op, name);
    var h := HeardSet(front, name);
    if op.CommitOp? {
      HeardNotBuffered(front, op.tx, name);
      UnionSize(h, BufferedSet(front, op.tx, name));
      hide Commit, Standing, Told;
      if op.tx in s.pending {
        CommitParts(s, op.tx);
      } else {
        assert Commit(s, op.tx) == (s, []) by {
          NoCommit(s, op.tx);
        }
        assert BufferedSet(front, op.tx, name) == {};
      }
    }
    assert h + {} == h;
  }

  lemma NoCommit(s: State, tx: nat)
    requires tx !in s.pending
    ensures Commit(s, tx) == (s, [])
  {
  }

  /** After any run each counter is the number of posts of its name that were committed after somebody
      had listened for it: a rolled-back post, one still buffered, and one committed to a name nobody
      had ever asked for contribute nothing. */
  lemma {:induction false} CountersCount(ops: seq<Op>, name: Name)
    ensures Counts(Run(ops).0, ops, name)
    ensures forall tx: nat :: Buffers(Run(ops).0, ops, tx, name)
  {
    if ops != [] {
      var front, op := ops[..|ops| - 1], ops[|ops| - 1];
      assert ops == front + [op];
      CountersCount(front, name);
      CountsStep(Run(front).0, front, op, name);
      forall tx: nat ensures Buffers(Run(ops).0, ops, tx, name) {
        BuffersStep(Run(front).0, front, op, tx, name);
      }
    }
  }

  // ------------------------------------------------------------------ a client that keeps up

  predicate For(d: Delivery, session: nat, name: Name) {
    d.session == session && d.name == name
  }

  /** The count a client was last given, 0 before its first delivery. */
  function LastTold(out: seq<Delivery>, session: nat, name: Name): int {
    if out == [] then 0
    else if For(out[|out| - 1], session, name) then out[|out| - 1].count
    else LastTold(out[..|out| - 1], session, name)
  }

  /** The client queues only at its last delivered count. */
  ghost predicate KeepsUp(ops: seq<Op>, session: nat, name: Name) {
    forall k :: 0 <= k < |ops| && ops[k].QueueOp? && ops[k].session == session && ops[k].name == name
      ==> ops[k].seen == LastTold(Run(ops[..k]).1, session, name)
  }

  lemma {:induction false} LastToldConcat(a: seq<Delivery>, b: seq<Delivery>, session: nat, name: Name)
    ensures LastTold(a + b, session, name)
            == if exists d :: d in b && For(d, session, name) then LastTold(b, session, name) else LastTold(a, session, name)
  {
    if b == [] {
      assert a + b == a;
    } else {
      var n := |b| - 1;
      assert (a + b)[..|a + b| - 1] == a + b[..n];
      LastToldConcat(a, b[..n], session, name);
      assert b == b[..n] + [b[n]];
      assert b[n] in b;
    }
  }

  lemma {:induction false} LastToldIn(b: seq<Delivery>, session: nat, name: Name, count: int)
    requires exists d :: d in b && For(d, session, name)
    requires forall d :: d in b && For(d, session, name) ==> d.count == count
    ensures LastTold(b, session, name) == count
  {
    var n := |b| - 1;
    assert b == b[..n] + [b[n]];
    assert b[n] in b;
    if !For(b[n], session, name) {
      LastToldIn(b[..n], session, name, count);
    }
  }

  lemma {:induction false} ToldIn(interests: seq<Interest>, names: seq<Name>, counts: map<Name, nat>, d: Delivery)
    ensures d in Told(interests, names, counts)
            <==> d.name in names && d.name in counts && d in Fired(interests, d.name, counts[d.name])
  {
    if names != [] {
      ToldIn(interests, names[1..], counts, d);
      assert names == [names[0]] + names[1..];
      if names[0] in counts {
        FiredIn(interests, names[0], counts[names[0]], d);
      }
    }
  }

  /** What one step tells a client: nothing, or the counter plus one. */
  lemma StepTells(s: State, op: Op, session: nat, name: Name)
    ensures forall d :: d in Step(s, op).1 && For(d, session, name) ==> d.count == Step(s, op).0.Count(name) + 1
    ensures s.Count(name) <= Step(s, op).0.Count(name)
  {
    if op.CommitOp? && op.tx in s.pending {
      hide Commit, Standing;
      CommitParts(s, op.tx);
      var posts := s.pending[op.tx];
      var t, out := Commit(s, op.tx).0, Commit(s, op.tx).1;
      forall d | d in out && For(d, session, name) ensures d.count == t.Count(name) + 1 {
        ToldIn(s.interests, Ascending(posts.Keys), t.counts, d);
        FiredIn(s.interests, name, t.counts[name], d);
      }
    }
  }

  lemma LastToldStep(out: seq<Delivery>, s: State, op: Op, session: nat, name: Name)
    requires LastTold(out, session, name) <= s.Count(name) + 1
    ensures var last := LastTold(out + Step(s, op).1, session, name);
            && LastTold(out, session, name) <= last <= Step(s, op).0.Count(name) + 1
            && (last == LastTold(out, session, name) || last == Step(s, op).0.Count(name) + 1)
  {
    hide Step;
    StepTells(s, op, session, name);
    LastToldConcat(out, Step(s, op).1, session, name);
    if exists d :: d in Step(s, op).1 && For(d, session, name) {
      LastToldIn(Step(s, op).1, session, name, Step(s, op).0.Count(name) + 1);
    }
  }

  /** Where a client's standing interests come from. */
  lemma StepInterests(s: State, op: Op, i: Interest)
    requires i in Step(s, op).0.interests
    ensures i in s.interests || op == QueueOp(i.session, i.name, i.threshold)
  {
    match op
    case QueueOp(_, _, _) =>
    case CancelOp(session) => WithoutSessionIn(s.interests, session, i);
    case PostOp(_, _) =>
    case RollbackOp(_) =>
    case CommitOp(tx) =>
      if tx in s.pending {
        hide Commit;
        CommitParts(s, tx);
        StandingIn(s.interests, s.pending[tx].Keys, Commit(s, tx).0.counts, i);
      }
  }

  lemma KeepsUpPrefix(ops: seq<Op>, session: nat, name: Name)
    requires ops != [] && KeepsUp(ops, session, name)
    ensures KeepsUp(ops[..|ops| - 1], session, name)
    ensures ops[|ops| - 1].QueueOp? && ops[|ops| - 1].session == session && ops[|ops| - 1].name == name
            ==> ops[|ops| - 1].seen == LastTold(Run(ops[..|ops| - 1]).1, session, name)
  {
    var front := ops[..|ops| - 1];
    forall k | 0 <= k < |front| && front[k].QueueOp? && front[k].session == session && front[k].name == name
      ensures front[k].seen == LastTold(Run(front[..k]).1, session, name)
    {
      assert front[..k] == ops[..k] && front[k] == ops[k];
    }
  }

  /** A client that queues only at its last delivered count never holds an interest beyond it, and was
      never told more than the counter plus one. */
  lemma {:induction false} ClientBounds(ops: seq<Op>, session: nat, name: Name)
    requires KeepsUp(ops, session, name)
    ensures LastTold(Run(ops).1, session, name) <= Run(ops).0.Count(name) + 1
    ensures forall i :: i in Run(ops).0.interests && i.session == session && i.name == name
              ==> i.threshold <= LastTold(Run(ops).1, session, name)
  {
    if ops != [] {
      hide Step, LastTold, KeepsUp;
      var front, op := ops[..|ops| - 1], ops[|ops| - 1];
      KeepsUpPrefix(ops, session, name);
      ClientBounds(front, session, name);
      LastToldStep(Run(front).1, Run(front).0, op, session, name);
      forall i | i in Run(ops).0.interests && i.session == session && i.name == name
        ensures i.threshold <= LastTold(Run(ops).1, session, name)
      {
        StepInterests(Run(front).0, op, i);
      }
    } else {
      assert Run(ops) == (EMPTY, []);
    }
  }

  /** Whenever its interest is pending, the client stands exactly at the counter plus one, which is
      what it was last told: the next committed post reaches it. */
  lemma NeverMisses(ops: seq<Op>, session: nat, name: Name, i: Interest)
    requires KeepsUp(ops, session, name) && i in Run(ops).0.interests && i.session == session && i.name == name
    ensures i.threshold == Run(ops).0.Count(name) + 1 == LastTold(Run(ops).1, session, name)
  {
    AlwaysWaiting(ops);
    ClientBounds(ops, session, name);
  }

  /** Between two moments at which its interest is pending, the numbers a client was told differ by
      exactly the posts counted in between. */
  lemma DeltasCountPosts(ops: seq<Op>, k: nat, session: nat, name: Name, i: Interest, j: Interest)
    requires k <= |ops| && KeepsUp(ops, session, name)
    requires i in Run(ops[..k]).0.interests && i.session == session && i.name == name
    requires j in Run(ops).0.interests && j.session == session && j.name == name
    ensures LastTold(Run(ops).1, session, name) - LastTold(Run(ops[..k]).1, session, name)
            == |HeardSet(ops, name)| - |HeardSet(ops[..k], name)|
  {
    hide Run, LastTold, HeardSet;
    assert KeepsUp(ops[..k], session, name) by {
      forall m | 0 <= m < k ensures ops[..k][m] == ops[m] && ops[..k][..m] == ops[..m] {
      }
    }
    NeverMisses(ops[..k], session, name, i);
    NeverMisses(ops, session, name, j);
    CountersCount(ops, name);
    CountersCount(ops[..k], name);
  }

  /** A committed post that is counted tells every client waiting for the name, with the new counter
      plus one, if and only if the counter reached its threshold; the others keep waiting. */
  lemma CommitTells(s: State, tx: nat, i: Interest)
    requires Waiting(s) && i in s.interests
    ensures var t := Commit(s, tx);
            if i.threshold <= t.0.Count(i.name)
            then Delivery(i.session, i.name, t.0.Count(i.name) + 1) in t.1 && i !in t.0.interests
            else i in t.0.interests
  {
    hide Commit, Standing, Told, Fired, Ascending, Landed, Waiting;
    if tx !in s.pending {
      NoCommit(s, tx);
      StillWaiting(s, i);
    } else {
      CommitParts(s, tx);
      var posts, t := s.pending[tx], Commit(s, tx);
      NotPosted(s, posts, i);
      StandingIn(s.interests, posts.Keys, t.0.counts, i);
      if i.threshold <= t.0.Count(i.name) {
        AscendingOf(posts.Keys);
        FiredTells(s.interests, i.name, t.0.Count(i.name), i);
        ToldIn(s.interests, Ascending(posts.Keys), t.0.counts, Delivery(i.session, i.name, t.0.Count(i.name) + 1));
      }
    }
  }

  lemma StillWaiting(s: State, i: Interest)
    requires Waiting(s) && i in s.interests
    ensures i.name in s.counts && i.threshold > s.Count(i.name)
  {
  }

  lemma NotPosted(s: State, posts: Posts, i: Interest)
    requires Waiting(s) && i in s.interests
    ensures i.name in Landed(s.counts, posts.Keys, posts)
    ensures i.name !in posts ==> i.threshold > Landed(s.counts, posts.Keys, posts)[i.name]
  {
  }

  lemma FiredTells(interests: seq<Interest>, name: Name, now: nat, i: Interest)
    requires i in interests && Fires(i, name, now)
    ensures Delivery(i.session, name, now + 1) in Fired(interests, name, now)
  {
    FiredIn(interests, name, now, Delivery(i.session, name, now + 1));
  }
}
