/** One image per database file, shared by many threads, and the recursive write token that orders
    their read-modify-write installs. A run is any interleaving of the steps of any threads; each step
    holds one lock. */
module WriteToken {

  datatype Option<T> = None | Some(value: T)

  type Thread = nat

  // ------------------------------------------------------------------ the shared state

  /** `live` holds, for each token not yet dropped, the thread it was granted to; `installs` counts
      the images put in place. */
  datatype State<Image> = State(owner: Option<Thread>, depth: nat, live: multiset<Thread>, image: Image, installs: nat)

  ghost predicate Valid<Image>(s: State<Image>) {
    && s.depth == |s.live|
    && (s.owner == None <==> s.depth == 0)
    && forall t :: t in s.live ==> s.owner == Some(t)
  }

  datatype Event<Image> =
    | Begin(thread: Thread)
    | Wait(thread: Thread)
    | Drop(thread: Thread)
    | Read(thread: Thread)
    | Publish(thread: Thread, image: Image)
    | Reload(image: Image)

  /** A thread gets the token when nobody or itself owns it, and waits otherwise; a token is dropped
      once, by whoever holds it. */
  predicate Enabled<Image>(s: State<Image>, e: Event<Image>) {
    match e
    case Begin(t) => s.owner == None || s.owner == Some(t)
    case Wait(t) => s.owner.Some? && s.owner != Some(t)
    case Drop(t) => t in s.live
    case Read(_) => true
    case Publish(_, _) => true
    case Reload(_) => true
  }

  /** `end_write`: one level less, and no owner at the last. */
  function Released<Image>(s: State<Image>): State<Image> {
    var depth := if s.depth > 0 then s.depth - 1 else 0;
    s.(depth := depth, owner := if depth == 0 then None else s.owner)
  }

  function Installed<Image>(s: State<Image>, image: Image): State<Image> {
    s.(image := image, installs := s.installs + 1)
  }

  function Next<Image>(s: State<Image>, e: Event<Image>): State<Image> {
    match e
    case Begin(t) => s.(owner := Some(t), depth := if s.owner == None then 1 else s.depth + 1, live := s.live + multiset{t})
    case Wait(_) => s
    case Drop(t) => Released(s).(live := s.live - multiset{t})
    case Read(_) => s
    case Publish(_, image) => Installed(s, image)
    case Reload(image) => Installed(s, image)
  }

  function Start<Image>(image: Image): State<Image> {
    State(None, 0, multiset{}, image, 0)
  }

  // ------------------------------------------------------------------ the image in place

  class SharedImage<Image> {
    var owner: Option<Thread>
    var depth: nat
    var image: Image
    ghost var live: multiset<Thread>
    ghost var installs: nat

    ghost function View(): State<Image>
      reads this
    {
      State(owner, depth, live, image, installs)
    }

    constructor (image: Image)
      ensures View() == Start(image) && Valid(View())
    {
      owner, depth, this.image := None, 0, image;
      live, installs := multiset{}, 0;
    }

    /** One look at the token under its lock: taken, taken again, or still somebody else's. */
    method BeginWrite(me: Thread) returns (granted: bool)
      requires Valid(View())
      modifies this
      ensures Valid(View())
      ensures granted <==> Enabled(old(View()), Begin(me))
      ensures !granted <==> Enabled(old(View()), Wait(me))
      ensures View() == Next(old(View()), if granted then Begin(me) else Wait(me))
    {
      match owner {
        case None =>
          owner := Some(me);
          depth := 1;
        case Some(o) =>
          if o != me {
            return false;
          }
          depth := depth + 1;
      }
      live := live + multiset{me};
      granted := true;
    }

    /** A token granted to `holder` is dropped. */
    method EndWrite(ghost holder: Thread)
      requires Valid(View()) && Enabled(View(), Drop(holder))
      modifies this
      ensures Valid(View()) && View() == Next(old(View()), Drop(holder))
    {
      DropKeeps(View(), holder);
      if depth > 0 {
        depth := depth - 1;
      }
      if depth == 0 {
        owner := None;
      }
      live := live - multiset{holder};
    }

    method PublishImage(img: Image)
      requires Valid(View())
      modifies `image, `installs
      ensures Valid(View()) && View() == Installed(old(View()), img)
    {
      image := img;
      installs := installs + 1;
    }
  }

  // ------------------------------------------------------------------ every step keeps the token

  lemma DropKeeps<Image>(s: State<Image>, t: Thread)
    requires Valid(s) && t in s.live
    ensures Valid(Next(s, Drop(t))) && s.depth > 0
  {
    var rest := s.live - multiset{t};
    assert s.live == rest + multiset{t};
    assert |rest| == s.depth - 1;
    assert forall u :: u in rest ==> u in s.live;
  }

  /** One owner at most, as deep as tokens are live, and none exactly when none is. */
  lemma StepKeepsToken<Image>(s: State<Image>, e: Event<Image>)
    requires Valid(s) && Enabled(s, e)
    ensures Valid(Next(s, e))
  {
    if e.Drop? {
      DropKeeps(s, e.thread);
    }
  }

  /** A run: every step was enabled where it was taken. */
  ghost predicate IsRun<Image>(image: Image, events: seq<Event<Image>>) {
    forall k :: 0 <= k < |events| ==> Enabled(At(image, events, k), events[k])
  }

  /** The state before event k. */
  function At<Image>(image: Image, events: seq<Event<Image>>, k: nat): State<Image>
    requires k <= |events|
  {
    if k == 0 then Start(image) else Next(At(image, events, k - 1), events[k - 1])
  }

  /** In every interleaving: at most one thread holds tokens, and the depth is how many. */
  lemma {:induction false} AlwaysValid<Image>(image: Image, events: seq<Event<Image>>, k: nat)
    requires IsRun(image, events) && k <= |events|
    ensures Valid(At(image, events, k))
  {
    if k > 0 {
      AlwaysValid(image, events, k - 1);
      StepKeepsToken(At(image, events, k - 1), events[k - 1]);
    }
  }

  predicate Holds<Image>(s: State<Image>, t: Thread) {
    t in s.live
  }

  /** While a thread holds a token no other thread does, and none can take one. */
  lemma MutualExclusion<Image>(image: Image, events: seq<Event<Image>>, k: nat, t: Thread, u: Thread)
    requires IsRun(image, events) && k <= |events| && Holds(At(image, events, k), t) && t != u
    ensures !Holds(At(image, events, k), u) && !Enabled(At(image, events, k), Begin(u)) && Enabled(At(image, events, k), Wait(u))
  {
    AlwaysValid(image, events, k);
  }

  /** In every state of every run a thread can take the token exactly when no other holds it - so the holder
      itself can, again and again - and must wait exactly when another does. */
  lemma TakenExactly<Image>(image: Image, events: seq<Event<Image>>, k: nat, u: Thread)
    requires IsRun(image, events) && k <= |events|
    ensures var s := At(image, events, k);
            && (Enabled(s, Begin(u)) <==> forall t :: Holds(s, t) ==> t == u)
            && (Enabled(s, Wait(u)) <==> exists t :: Holds(s, t) && t != u)
  {
    AlwaysValid(image, events, k);
    var s := At(image, events, k);
    if s.owner.Some? {
      assert s.live != multiset{};
      var t :| t in s.live;
      assert Holds(s, t) && s.owner == Some(t);
    }
  }

  /** A hold inside a hold goes one level deeper, and dropping it leaves everything as it was. */
  lemma NestedHold<Image>(s: State<Image>, t: Thread)
    requires Valid(s) && Enabled(s, Begin(t))
    ensures var inner := Next(s, Begin(t));
            && inner.owner == Some(t) && inner.depth == s.depth + 1 && inner.live == s.live + multiset{t}
            && inner.image == s.image && inner.installs == s.installs
            && Enabled(inner, Drop(t)) && Next(inner, Drop(t)) == s
  {
    assert s.live + multiset{t} - multiset{t} == s.live;
    if s.owner == None {
      assert s.live == multiset{};
    }
  }

  lemma {:induction false} AtPrefix<Image>(image: Image, events: seq<Event<Image>>, more: seq<Event<Image>>, k: nat)
    requires k <= |events|
    ensures At(image, events + more, k) == At(image, events, k)
  {
    if k > 0 {
      AtPrefix(image, events, more, k - 1);
      assert (events + more)[k - 1] == events[k - 1];
    }
  }

  lemma RunGrows<Image>(image: Image, events: seq<Event<Image>>, e: Event<Image>)
    requires IsRun(image, events) && Enabled(At(image, events, |events|), e)
    ensures IsRun(image, events + [e])
    ensures At(image, events + [e], |events| + 1) == Next(At(image, events, |events|), e)
  {
    hide Enabled, Next;
    var all := events + [e];
    forall k | 0 <= k < |all| ensures Enabled(At(image, all, k), all[k]) {
      AtPrefix(image, events, [e], k);
    }
    AtNext(image, all, |events|);
    AtPrefix(image, events, [e], |events|);
  }

  /** No run is stuck: from wherever it is, dropping the live tokens one by one frees the token for
      anybody, in as many steps as it is deep and with the image as it stands. */
  lemma {:induction false} NeverStuck<Image>(image: Image, events: seq<Event<Image>>) returns (drops: seq<Event<Image>>)
    requires IsRun(image, events)
    ensures |drops| == At(image, events, |events|).depth && forall e :: e in drops ==> e.Drop?
    ensures var all := events + drops;
            var end := At(image, all, |all|);
            && IsRun(image, all) && end.image == At(image, events, |events|).image
            && forall u :: Enabled(end, Begin(u))
    decreases At(image, events, |events|).depth
  {
    hide At, IsRun;
    AlwaysValid(image, events, |events|);
    var s := At(image, events, |events|);
    if s.depth == 0 {
      drops := [];
      assert events + [] == events;
    } else {
      assert s.live != multiset{};
      var t :| t in s.live;
      RunGrows(image, events, Drop(t));
      DropKeeps(s, t);
      var more := NeverStuck(image, events + [Drop(t)]);
      drops := [Drop(t)] + more;
      assert events + drops == events + [Drop(t)] + more;
    }
  }

  // ------------------------------------------------------------------ no update is lost

  predicate Installs<Image>(e: Event<Image>) {
    e.Publish? || e.Reload?
  }

  /** Every publish is by a thread holding the token. */
  ghost predicate PublishesHeld<Image>(image: Image, events: seq<Event<Image>>) {
    forall k :: 0 <= k < |events| && events[k].Publish? ==> Holds(At(image, events, k), events[k].thread)
  }

  ghost predicate HeldThroughout<Image>(image: Image, events: seq<Event<Image>>, from: nat, to: nat, t: Thread)
    requires from <= to <= |events|
  {
    forall k :: from <= k <= to ==> Holds(At(image, events, k), t)
  }

  /** During a hold the only installs are the holder's own, and reloads. */
  lemma OnlyTheHolder<Image>(image: Image, events: seq<Event<Image>>, from: nat, to: nat, t: Thread, k: nat)
    requires IsRun(image, events) && PublishesHeld(image, events) && from <= to <= |events|
    requires HeldThroughout(image, events, from, to, t) && from <= k < to && events[k].Publish?
    ensures events[k].thread == t
  {
    AlwaysValid(image, events, k);
    assert Holds(At(image, events, k), t);
  }

  /** No image was put in place between two moments. */
  ghost predicate Quiet<Image>(events: seq<Event<Image>>, from: nat, to: nat)
    requires to <= |events|
  {
    forall k :: from <= k < to ==> !Installs(events[k])
  }

  lemma AtNext<Image>(image: Image, events: seq<Event<Image>>, k: nat)
    requires k < |events|
    ensures At(image, events, k + 1) == Next(At(image, events, k), events[k])
  {
  }

  lemma NextInstalls<Image>(s: State<Image>, e: Event<Image>)
    ensures Next(s, e).installs == s.installs + if Installs(e) then 1 else 0
    ensures !Installs(e) ==> Next(s, e).image == s.image
  {
  }

  lemma {:induction false} InstallsCount<Image>(image: Image, events: seq<Event<Image>>, from: nat, to: nat)
    requires from <= to <= |events|
    ensures At(image, events, from).installs <= At(image, events, to).installs
    ensures At(image, events, from).installs == At(image, events, to).installs <==> Quiet(events, from, to)
    ensures Quiet(events, from, to) ==> At(image, events, from).image == At(image, events, to).image
  {
    hide At, Next;
    if from < to {
      InstallsCount(image, events, from, to - 1);
      AtNext(image, events, to - 1);
      NextInstalls(At(image, events, to - 1), events[to - 1]);
      assert Quiet(events, from, to) <==> Quiet(events, from, to - 1) && !Installs(events[to - 1]);
    }
  }

  /** The image a publish at `k` replaces is the very one its thread read at `read`. */
  predicate BuiltOnCurrent<Image>(image: Image, events: seq<Event<Image>>, read: nat, k: nat)
    requires read <= k <= |events|
  {
    At(image, events, read).installs == At(image, events, k).installs
  }

  /** A writer that reads and publishes under one hold of the token builds on the immediately preceding
      image exactly when no reload ran in between: no other writer's work can be lost. */
  lemma NoLostUpdate<Image>(image: Image, events: seq<Event<Image>>, read: nat, k: nat, t: Thread)
    requires IsRun(image, events) && PublishesHeld(image, events) && read < k < |events|
    requires events[read] == Read(t) && events[k].Publish? && events[k].thread == t
    requires HeldThroughout(image, events, read, k, t)
    requires forall m :: read < m < k && events[m].Publish? ==> events[m].thread != t
    ensures BuiltOnCurrent(image, events, read, k) <==> forall m :: read < m < k ==> !events[m].Reload?
    ensures BuiltOnCurrent(image, events, read, k) ==> At(image, events, read).image == At(image, events, k).image
  {
    hide At, Next, Enabled, IsRun, PublishesHeld, HeldThroughout;
    InstallsCount(image, events, read, k);
    forall m | read <= m < k ensures Installs(events[m]) <==> events[m].Reload? {
      if events[m].Publish? {
        OnlyTheHolder(image, events, read, k, t, m);
      }
    }
  }

  /** A transaction that puts back the image it read at the start of its hold undoes its own installs
      and nobody else's. */
  lemma RollbackIsOwnWork<Image>(image: Image, events: seq<Event<Image>>, snapshot: nat, k: nat, t: Thread)
    requires IsRun(image, events) && PublishesHeld(image, events) && snapshot < k < |events|
    requires events[snapshot] == Read(t) && events[k] == Publish(t, At(image, events, snapshot).image)
    requires HeldThroughout(image, events, snapshot, k, t)
    requires forall m :: snapshot < m < k ==> !events[m].Reload?
    ensures At(image, events, k + 1).image == At(image, events, snapshot).image
    ensures forall m :: snapshot <= m < k && Installs(events[m]) ==> events[m] == Publish(t, events[m].image)
  {
    hide At, Enabled, IsRun, PublishesHeld, HeldThroughout;
    AtNext(image, events, k);
    forall m | snapshot <= m < k && Installs(events[m]) ensures events[m] == Publish(t, events[m].image) {
      OnlyTheHolder(image, events, snapshot, k, t, m);
    }
  }

  /** Without the token: the second of two writers that both read first silently drops the other's
      image. */
  lemma LostWithoutToken<Image>(image: Image, x: Image, y: Image)
    ensures var events := [Read(0), Read(1), Publish(1, y), Publish(0, x)];
            IsRun(image, events) && !PublishesHeld(image, events) && !BuiltOnCurrent(image, events, 0, 3)
            && At(image, events, 4).image == x
  {
    var events := [Read(0), Read(1), Publish(1, y), Publish(0, x)];
    assert At(image, events, 0) == Start(image) && At(image, events, 1) == Start(image) && At(image, events, 2) == Start(image);
    assert At(image, events, 3) == Installed(Start(image), y);
    assert events[2].Publish? && !Holds(At(image, events, 2), events[2].thread);
  }

  /** A base read before the token was taken is no better: the token must cover the read. */
  lemma LostWhenReadTooEarly<Image>(image: Image, x: Image, y: Image)
    ensures var events := [Read(0), Begin(1), Publish(1, y), Drop(1), Begin(0), Publish(0, x)];
            IsRun(image, events) && PublishesHeld(image, events) && !BuiltOnCurrent(image, events, 0, 5)
  {
    var events := [Read(0), Begin(1), Publish(1, y), Drop(1), Begin(0), Publish(0, x)];
    var s := Start(image);
    assert At(image, events, 0) == s && At(image, events, 1) == s;
    var held := s.(owner := Some(1), depth := 1, live := multiset{1});
    AtNext(image, events, 1);
    AtNext(image, events, 2);
    AtNext(image, events, 3);
    AtNext(image, events, 4);
    hide At;
    assert At(image, events, 2) == held;
    assert At(image, events, 3) == Installed(held, y);
    assert At(image, events, 4) == Installed(s, y);
    assert At(image, events, 5) == Installed(s, y).(owner := Some(0), depth := 1, live := multiset{0});
  }

  /** A reload is nobody's publish: it can come in the middle of a hold, and the holder's publish then
      drops the image it put in place. */
  lemma LostAcrossReload<Image>(image: Image, x: Image, y: Image)
    ensures var events := [Begin(0), Read(0), Reload(y), Publish(0, x)];
            && IsRun(image, events) && PublishesHeld(image, events) && HeldThroughout(image, events, 1, 3, 0)
            && !BuiltOnCurrent(image, events, 1, 3)
            && At(image, events, 1).image == image && At(image, events, 3).image == y && At(image, events, 4).image == x
  {
    var events := [Begin(0), Read(0), Reload(y), Publish(0, x)];
    var held := Start(image).(owner := Some(0), depth := 1, live := multiset{0});
    AtNext(image, events, 0);
    AtNext(image, events, 1);
    AtNext(image, events, 2);
    AtNext(image, events, 3);
    assert At(image, events, 0) == Start(image);
    hide At;
    assert At(image, events, 1) == held && At(image, events, 2) == held;
    assert At(image, events, 3) == Installed(held, y);
    assert At(image, events, 4) == Installed(Installed(held, y), x);
  }
}
