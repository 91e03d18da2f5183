/** Who is told what, and in which order: what a queue answers at once, that nobody who queued is
    forgotten, and the order in which a commit delivers and in which interests are kept. */
module EventOrder {
  import opened Events
  import opened EventRuns

  // ------------------------------------------------------------------ the answer to a queue

  /** After any run, a queue is answered at once - by one delivery carrying the number of counted posts
      plus one - if and only if that number has reached what the client has seen; otherwise exactly its
      interest is added behind the others. Nothing else changes, but that the name is known from now on. */
  lemma QueueAnswers(ops: seq<Op>, session: nat, name: Name, seen: int)
    ensures var before, after := Run(ops), Run(ops + [QueueOp(session, name, seen)]);
            var counter := |HeardSet(ops, name)|;
            && (if seen <= counter
                then after.1 == before.1 + [Delivery(session, name, counter + 1)] && after.0.interests == before.0.interests
                else after.1 == before.1 && after.0.interests == before.0.interests + [Interest(session, name, seen)])
            && after.0.pending == before.0.pending && after.0.counts.Keys == before.0.counts.Keys + {name}
            && forall n :: n in after.0.counts ==> after.0.counts[n] == |HeardSet(ops, n)|
  {
    hide HeardSet;
    var all := ops + [QueueOp(session, name, seen)];
    assert all[..|all| - 1] == ops && all[|all| - 1] == QueueOp(session, name, seen);
    CountersCount(ops, name);
    var before := Run(ops);
    assert before.1 + [] == before.1;
    forall n | n in Run(all).0.counts ensures Run(all).0.counts[n] == |HeardSet(ops, n)| {
      CountersCount(ops, n);
    }
  }

  // ------------------------------------------------------------------ nobody is forgotten

  /** Something about the name stands for the session, or it was told something since `told` deliveries. */
  ghost predicate Remembered(s: State, out: seq<Delivery>, told: nat, session: nat, name: Name) {
    || (exists i :: i in s.interests && i.session == session && i.name == name)
    || (exists k :: told <= k < |out| && For(out[k], session, name))
  }

  lemma StaysTold(s: State, t: State, out: seq<Delivery>, more: seq<Delivery>, told: nat, session: nat, name: Name)
    requires Remembered(s, out, told, session, name)
    requires forall i :: i in s.interests && i.session == session && i.name == name ==>
               i in t.interests || exists d :: d in more && For(d, session, name)
    requires told <= |out|
    ensures Remembered(t, out + more, told, session, name)
  {
    if k :| told <= k < |out| && For(out[k], session, name) {
      assert (out + more)[k] == out[k];
    } else {
      var i :| i in s.interests && i.session == session && i.name == name;
      if i !in t.interests {
        var d :| d in more && For(d, session, name);
        var k :| 0 <= k < |more| && more[k] == d;
        assert (out + more)[|out| + k] == d;
      }
    }
  }

  /** A step takes an interest away only by a cancel of its session or by telling it. */
  lemma StepRemembers(s: State, op: Op, i: Interest)
    requires Waiting(s) && i in s.interests && op != CancelOp(i.session)
    ensures i in Step(s, op).0.interests || exists d :: d in Step(s, op).1 && For(d, i.session, i.name)
  {
    match op
    case QueueOp(_, _, _) =>
    case CancelOp(session) => WithoutSessionIn(s.interests, session, i);
    case PostOp(_, _) =>
    case RollbackOp(_) =>
    case CommitOp(tx) =>
      hide Commit;
      CommitTells(s, tx, i);
      var t := Commit(s, tx);
      if i !in t.0.interests {
        assert For(Delivery(i.session, i.name, t.0.Count(i.name) + 1), i.session, i.name);
      }
  }

  /** A client that has queued and not cancelled since either still has an interest standing or was told
      something by that queue or after it: no queue goes without an answer to come. */
  lemma {:induction false} QueueIsAnswered(ops: seq<Op>, q: nat, session: nat, name: Name)
    requires q < |ops| && ops[q].QueueOp? && ops[q].session == session && ops[q].name == name
    requires forall k :: q < k < |ops| ==> ops[k] != CancelOp(session)
    ensures |Run(ops[..q]).1| <= |Run(ops).1|
    ensures Remembered(Run(ops).0, Run(ops).1, |Run(ops[..q]).1|, session, name)
    decreases |ops|
  {
    var front, op := ops[..|ops| - 1], ops[|ops| - 1];
    assert ops == front + [op];
    if q == |ops| - 1 {
      QueueAnswers(front, session, name, op.seen);
      var before, after := Run(front), Run(ops);
      assert ops[..q] == front;
      if op.seen <= |HeardSet(front, name)| {
        assert For(after.1[|before.1|], session, name);
      } else {
        var i := Interest(session, name, op.seen);
        assert i in after.0.interests;
      }
    } else {
      assert front[..q] == ops[..q];
      QueueIsAnswered(front, q, session, name);
      AlwaysWaiting(front);
      var s := Run(front);
      forall i | i in s.0.interests && i.session == session && i.name == name
        ensures i in Step(s.0, op).0.interests || exists d :: d in Step(s.0, op).1 && For(d, session, name)
      {
        StepRemembers(s.0, op, i);
      }
      StaysTold(s.0, Step(s.0, op).0, s.1, Step(s.0, op).1, |Run(ops[..q]).1|, session, name);
    }
  }

  // ------------------------------------------------------------------ the order of names

  /** Names are ordered by their first difference; a name comes before what it is the beginning of. */
  predicate DiffersAt(a: Name, b: Name, k: nat) {
    k <= |a| && k < |b| && a[..k] == b[..k] && (k == |a| || a[k] < b[k])
  }

  lemma {:induction false} LessExactly(a: Name, b: Name)
    ensures Less(a, b) <==> exists k: nat :: DiffersAt(a, b, k)
  {
    if a == [] {
      if b != [] {
        assert DiffersAt(a, b, 0);
      }
    } else if b != [] {
      LessExactly(a[1..], b[1..]);
      if a[0] < b[0] {
        assert DiffersAt(a, b, 0);
      }
      if a[0] == b[0] && Less(a[1..], b[1..]) {
        var k: nat :| DiffersAt(a[1..], b[1..], k);
        assert a[..k + 1] == [a[0]] + a[1..][..k] && b[..k + 1] == [b[0]] + b[1..][..k];
        assert DiffersAt(a, b, k + 1);
      }
      if k: nat :| DiffersAt(a, b, k) {
        if k > 0 {
          assert a[..k][0] == b[..k][0];
          assert a[1..][..k - 1] == a[..k][1..] && b[1..][..k - 1] == b[..k][1..];
          assert DiffersAt(a[1..], b[1..], k - 1);
        }
      }
    }
  }

  lemma {:induction false} AscendingSorted(names: set<Name>)
    ensures forall i, j :: 0 <= i < j < |Ascending(names)| ==> Less(Ascending(names)[i], Ascending(names)[j])
    decreases |names|
  {
    hide Less;
    if names != {} {
      FirstExists(names);
      var n :| IsFirst(names, n);
      AscendingStep(names, n);
      AscendingSorted(names - {n});
      AscendingOf(names - {n});
      var rest := Ascending(names - {n});
      forall i, j | 0 <= i < j < |Ascending(names)| ensures Less(Ascending(names)[i], Ascending(names)[j]) {
        if i == 0 {
          assert rest[j - 1] in names - {n};
        } else {
          assert Less(rest[i - 1], rest[j - 1]);
        }
      }
    }
  }

  // ------------------------------------------------------------------ the order of interests

  predicate Rising(idx: seq<nat>) {
    forall k, l :: 0 <= k < l < |idx| ==> idx[k] < idx[l]
  }

  /** `r` is what stands in `s` at the positions `idx`, in order. */
  predicate Picks(s: seq<Interest>, idx: seq<nat>, r: seq<Interest>) {
    Rising(idx) && |idx| == |r| && forall k :: 0 <= k < |idx| ==> idx[k] < |s| && r[k] == s[idx[k]]
  }

  lemma PickMore(s: seq<Interest>, idx: seq<nat>, r: seq<Interest>)
    requires s != [] && Picks(s[..|s| - 1], idx, r)
    ensures Picks(s, idx, r) && Picks(s, idx + [|s| - 1], r + [s[|s| - 1]])
    ensures forall j :: j in idx + [|s| - 1] <==> j in idx || j == |s| - 1
    ensures forall j :: j in idx ==> j < |s| - 1
  {
  }

  /** A cancel keeps the other sessions' interests, all of them and in order. */
  lemma {:induction false} CancelKeepsOrder(interests: seq<Interest>, session: nat) returns (idx: seq<nat>)
    ensures Picks(interests, idx, WithoutSession(interests, session))
    ensures forall j :: 0 <= j < |interests| ==> (j in idx <==> interests[j].session != session)
  {
    if interests == [] {
      idx := [];
    } else {
      var n := |interests| - 1;
      var front := CancelKeepsOrder(interests[..n], session);
      PickMore(interests, front, WithoutSession(interests[..n], session));
      assert WithoutSession(interests[..n], session) + [] == WithoutSession(interests[..n], session);
      idx := if interests[n].session == session then front else front + [n];
    }
  }

  /** So does a commit with those it does not reach. */
  lemma {:induction false} StandingKeepsOrder(interests: seq<Interest>, names: set<Name>, counts: map<Name, nat>) returns (idx: seq<nat>)
    ensures Picks(interests, idx, Standing(interests, names, counts))
    ensures forall j :: 0 <= j < |interests| ==>
              (j in idx <==> !(interests[j].name in names && interests[j].name in counts && interests[j].threshold <= counts[interests[j].name]))
  {
    if interests == [] {
      idx := [];
    } else {
      var n := |interests| - 1;
      var front := StandingKeepsOrder(interests[..n], names, counts);
      var i, standing := interests[n], Standing(interests[..n], names, counts);
      PickMore(interests, front, standing);
      assert standing + [] == standing;
      idx := if i.name in names && i.name in counts && i.threshold <= counts[i.name] then front else front + [n];
    }
  }

  /** The deliveries for one name: one for each interest it reaches, in the order they were queued. */
  predicate TellsInOrder(interests: seq<Interest>, name: Name, now: nat, idx: seq<nat>, out: seq<Delivery>) {
    && Rising(idx) && |idx| == |out|
    && (forall j :: 0 <= j < |interests| ==> (j in idx <==> interests[j].name == name && interests[j].threshold <= now))
    && forall k :: 0 <= k < |idx| ==> idx[k] < |interests| && out[k] == Delivery(interests[idx[k]].session, name, now + 1)
  }

  lemma {:induction false} FiredInOrder(interests: seq<Interest>, name: Name, now: nat) returns (idx: seq<nat>)
    ensures TellsInOrder(interests, name, now, idx, Fired(interests, name, now))
  {
    if interests == [] {
      idx := [];
    } else {
      var n := |interests| - 1;
      var front := FiredInOrder(interests[..n], name, now);
      var fired := Fired(interests[..n], name, now);
      assert fired + [] == fired;
      TellMore(interests, name, now, front, fired);
      idx := if Fires(interests[n], name, now) then front + [n] else front;
    }
  }

  lemma TellMore(interests: seq<Interest>, name: Name, now: nat, idx: seq<nat>, out: seq<Delivery>)
    requires interests != [] && TellsInOrder(interests[..|interests| - 1], name, now, idx, out)
    ensures var n := |interests| - 1;
            if interests[n].name == name && interests[n].threshold <= now
            then TellsInOrder(interests, name, now, idx + [n], out + [Delivery(interests[n].session, name, now + 1)])
            else TellsInOrder(interests, name, now, idx, out)
  {
    var n := |interests| - 1;
    assert forall j :: j in idx ==> j < n;
    assert forall j :: 0 <= j < n ==> interests[..n][j] == interests[j];
    assert forall j :: j in idx + [n] <==> j in idx || j == n;
  }

  // ------------------------------------------------------------------ the order of a commit

  predicate Reached(interests: seq<Interest>, j: nat, names: seq<Name>, counts: map<Name, nat>)
    requires j < |interests|
  {
    interests[j].name in names && interests[j].name in counts && interests[j].threshold <= counts[interests[j].name]
  }

  /** Every reached interest is told once, with its counter plus one; lesser names before greater ones,
      and for one name in the order the interests were queued. */
  ghost predicate CommitInOrder(interests: seq<Interest>, names: seq<Name>, counts: map<Name, nat>, idx: seq<nat>, out: seq<Delivery>) {
    && |idx| == |out|
    && (forall k :: 0 <= k < |idx| ==> idx[k] < |interests| && Reached(interests, idx[k], names, counts))
    && (forall j :: 0 <= j < |interests| && Reached(interests, j, names, counts) ==> j in idx)
    && (forall k :: 0 <= k < |idx| ==>
          out[k] == Delivery(interests[idx[k]].session, interests[idx[k]].name, counts[interests[idx[k]].name] + 1))
    && forall k, l :: 0 <= k < l < |idx| ==>
         Less(out[k].name, out[l].name) || (out[k].name == out[l].name && idx[k] < idx[l])
  }

  lemma {:induction false} ToldInOrder(interests: seq<Interest>, names: seq<Name>, counts: map<Name, nat>) returns (idx: seq<nat>)
    requires forall i, j :: 0 <= i < j < |names| ==> Less(names[i], names[j])
    ensures CommitInOrder(interests, names, counts, idx, Told(interests, names, counts))
  {
    hide Less, Fired;
    if names == [] {
      idx := [];
    } else {
      var n, rest := names[0], names[1..];
      var back := ToldInOrder(interests, rest, counts);
      var front, fired: seq<Delivery> := [], [];
      if n in counts {
        front := FiredInOrder(interests, n, counts[n]);
        fired := Fired(interests, n, counts[n]);
      }
      idx := front + back;
      FirstThenRest(interests, names, counts, front, fired, back, Told(interests, rest, counts));
    }
  }

  lemma FirstThenRest(interests: seq<Interest>, names: seq<Name>, counts: map<Name, nat>, front: seq<nat>, fired: seq<Delivery>,
                      back: seq<nat>, told: seq<Delivery>)
    requires names != [] && forall i, j :: 0 <= i < j < |names| ==> Less(names[i], names[j])
    requires if names[0] in counts then TellsInOrder(interests, names[0], counts[names[0]], front, fired) else front == [] && fired == []
    requires CommitInOrder(interests, names[1..], counts, back, told)
    ensures CommitInOrder(interests, names, counts, front + back, fired + told)
  {
    hide Less;
    var n, rest := names[0], names[1..];
    var idx, out := front + back, fired + told;
    assert forall j :: 0 <= j < |interests| ==>
        (Reached(interests, j, names, counts) <==> Reached(interests, j, rest, counts) || (interests[j].name == n && n in counts && interests[j].threshold <= counts[n]))
    by {
      ReachedFirst(interests, names, counts);
    }
    forall k | 0 <= k < |idx|
      ensures idx[k] < |interests| && Reached(interests, idx[k], names, counts)
      ensures out[k] == Delivery(interests[idx[k]].session, interests[idx[k]].name, counts[interests[idx[k]].name] + 1)
    {
      if k < |front| {
        assert idx[k] == front[k] && front[k] in front;
      } else {
        assert idx[k] == back[k - |front|] && out[k] == told[k - |front|];
      }
    }
    forall k, l | 0 <= k < l < |idx| ensures Less(out[k].name, out[l].name) || (out[k].name == out[l].name && idx[k] < idx[l]) {
      OneBeforeOther(interests, names, counts, front, fired, back, told, k, l);
    }
  }

  lemma ReachedFirst(interests: seq<Interest>, names: seq<Name>, counts: map<Name, nat>)
    requires names != []
    ensures forall j :: 0 <= j < |interests| ==>
              (Reached(interests, j, names, counts) <==>
               Reached(interests, j, names[1..], counts)
               || (interests[j].name == names[0] && names[0] in counts && interests[j].threshold <= counts[names[0]]))
  {
    assert names == [names[0]] + names[1..];
  }

  lemma OneBeforeOther(interests: seq<Interest>, names: seq<Name>, counts: map<Name, nat>, front: seq<nat>, fired: seq<Delivery>,
                       back: seq<nat>, told: seq<Delivery>, k: nat, l: nat)
    requires names != [] && forall i, j :: 0 <= i < j < |names| ==> Less(names[i], names[j])
    requires if names[0] in counts then TellsInOrder(interests, names[0], counts[names[0]], front, fired) else front == [] && fired == []
    requires CommitInOrder(interests, names[1..], counts, back, told) && k < l < |front + back|
    ensures var idx, out := front + back, fired + told;
            Less(out[k].name, out[l].name) || (out[k].name == out[l].name && idx[k] < idx[l])
  {
    hide Less;
    var rest, idx, out := names[1..], front + back, fired + told;
    if k >= |front| {
      assert out[k] == told[k - |front|] && out[l] == told[l - |front|] && idx[k] == back[k - |front|] && idx[l] == back[l - |front|];
    } else if l >= |front| {
      var j := back[l - |front|];
      assert Reached(interests, j, rest, counts) && out[l] == told[l - |front|];
      var m :| 0 <= m < |rest| && rest[m] == interests[j].name;
      assert Less(names[0], names[m + 1]);
    }
  }

  /** What a commit delivers, position by position, and which interests it leaves, in order. */
  lemma CommitDelivers(s: State, tx: nat) returns (names: seq<Name>, idx: seq<nat>, left: seq<nat>)
    requires tx in s.pending
    ensures var t := Commit(s, tx);
            && (forall n :: n in names <==> n in s.pending[tx]) && (forall i, j :: 0 <= i < j < |names| ==> Less(names[i], names[j]))
            && t.0.counts == (map n | n in s.counts :: s.counts[n] + (if n in s.pending[tx] then s.pending[tx][n] else 0))
            && CommitInOrder(s.interests, names, t.0.counts, idx, t.1)
            && Picks(s.interests, left, t.0.interests)
            && (forall j :: 0 <= j < |s.interests| ==> (j in left <==> !Reached(s.interests, j, names, t.0.counts)))
            && t.0.pending == s.pending - {tx}
  {
    hide Commit, Less, Standing, Told, Ascending;
    var posts := s.pending[tx];
    CommitParts(s, tx);
    names := Ascending(posts.Keys);
    AscendingOf(posts.Keys);
    AscendingSorted(posts.Keys);
    var counts := Landed(s.counts, posts.Keys, posts);
    idx := ToldInOrder(s.interests, names, counts);
    left := StandingKeepsOrder(s.interests, posts.Keys, counts);
    assert counts == map n | n in s.counts :: s.counts[n] + (if n in posts then posts[n] else 0);
  }
}
