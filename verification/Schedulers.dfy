// S3FS_Aws: the request scheduler.  At most eight requests run; the others wait
// in a fast and a slow queue, and an overload signal goes on and off as the
// queues fill and empty.  A request is identified with the reply that runs it.

module Schedulers {

  const LIMIT: nat := 8
  const HIGH: nat := 10000
  const LOW: nat := 9000

  /** What has happened so far; no decision depends on it.  fast and lazy list the submitted
      requests by kind, fastStarted and lazyStarted those that were started, all in order. */
  datatype Past = Past(finished: set<nat>, fast: seq<nat>, lazy: seq<nat>,
                       fastStarted: seq<nat>, lazyStarted: seq<nat>, signals: seq<bool>)

  datatype Sched = Sched(ready: bool, running: set<nat>, queue: seq<nat>, slow: seq<nat>, overload: bool, past: Past)

  /** A request that the overload signal had parked, and that its end wakes.  One that is parked anew,
      because those before it raised the signal again, makes no call and is in no list of woken ones. */
  datatype Woken = Woken(slow: bool, r: nat)

  datatype Event = Http(r: nat) | HttpSlow(r: nat) | Destroyed(r: nat, woken: seq<Woken>) | Credentials

  function Start(ready: bool): Sched { Sched(ready, {}, [], [], false, Past({}, [], [], [], [], [])) }

  function Total(s: Sched): nat { |s.queue| + |s.slow| }

  predicate Room(s: Sched) { s.ready && |s.running| < LIMIT }

  function StartFast(s: Sched, r: nat): Sched {
    s.(running := s.running + {r}, past := s.past.(fastStarted := s.past.fastStarted + [r]))
  }

  function StartLazy(s: Sched, r: nat): Sched {
    s.(running := s.running + {r}, past := s.past.(lazyStarted := s.past.lazyStarted + [r]))
  }

  /** The overload signal, raised before a request is queued. */
  function Raise(s: Sched): Sched {
    if !s.overload && Total(s) > HIGH
    then s.(overload := true, past := s.past.(signals := s.past.signals + [true]))
    else s
  }

  /** The overload signal, taken back when a reply has gone. */
  function Lower(s: Sched): Sched {
    if s.overload && Total(s) < LOW
    then s.(overload := false, past := s.past.(signals := s.past.signals + [false]))
    else s
  }

  function RunQueue(s: Sched): Sched {
    if !Room(s) then s
    else if s.queue != [] then StartFast(s.(queue := s.queue[1..]), s.queue[0])
    else if s.slow != [] then StartLazy(s.(slow := s.slow[1..]), s.slow[0])
    else s
  }

  function Submit(s: Sched, r: nat): Sched {
    var t := s.(past := s.past.(fast := s.past.fast + [r]));
    if Room(t) then StartFast(t, r) else var u := Raise(t); u.(queue := u.queue + [r])
  }

  function SubmitSlow(s: Sched, r: nat): Sched {
    var t := s.(past := s.past.(lazy := s.past.lazy + [r]));
    if Room(t) then StartLazy(t, r) else var u := Raise(t); u.(slow := u.slow + [r])
  }

  function SubmitWoken(s: Sched, w: Woken): Sched { if w.slow then SubmitSlow(s, w.r) else Submit(s, w.r) }

  function SubmitAll(s: Sched, ws: seq<Woken>): Sched
    decreases |ws|
  {
    if ws == [] then s else SubmitAll(SubmitWoken(s, ws[0]), ws[1..])
  }

  /** A reply is gone from the running ones. */
  function Gone(s: Sched, r: nat): Sched {
    s.(running := s.running - {r}, past := s.past.(finished := s.past.finished + {r}))
  }

  /** replyDestroyed: the signal that overload has ended is delivered at once, so the requests it
      wakes are submitted before the queues are looked at. */
  function Finish(s: Sched, r: nat, woken: seq<Woken>): Sched {
    RunQueue(SubmitAll(Lower(Gone(s, r)), woken))
  }

  /** The signal is sent by this reply. */
  predicate Lowers(s: Sched) { s.overload && Total(s) < LOW }

  predicate IsNew(s: Sched, r: nat) { r !in s.past.fast && r !in s.past.lazy }

  predicate AllNew(s: Sched, ws: seq<Woken>) {
    (forall i :: 0 <= i < |ws| ==> IsNew(s, ws[i].r)) && forall i, j :: 0 <= i < j < |ws| ==> ws[i].r != ws[j].r
  }

  predicate Enabled(s: Sched, e: Event) {
    match e
    case Http(r) => IsNew(s, r)
    case HttpSlow(r) => IsNew(s, r)
    case Destroyed(r, woken) => r in s.running && (woken != [] ==> Lowers(s)) && AllNew(s, woken)
    case Credentials => true
  }

  function Apply(s: Sched, e: Event): Sched {
    match e
    case Http(r) => Submit(s, r)
    case HttpSlow(r) => SubmitSlow(s, r)
    case Destroyed(r, woken) => Finish(s, r, woken)
    case Credentials => RunQueue(s.(ready := true))
  }

  ghost predicate IsRun(s: Sched, es: seq<Event>, t: Sched)
    decreases |es|
  {
    if es == [] then s == t else Enabled(s, es[0]) && IsRun(Apply(s, es[0]), es[1..], t)
  }

  // ---- in every run

  /** Every submitted request is in exactly one place: each occurs once, on both sides. */
  ghost predicate Conserved(s: Sched) {
    && multiset(s.running) + multiset(s.queue) + multiset(s.slow) + multiset(s.past.finished) ==
       multiset(s.past.fast) + multiset(s.past.lazy)
    && forall r :: (multiset(s.past.fast) + multiset(s.past.lazy))[r] <= 1
  }

  /** On, off, on, off: overload is the signal sent last. */
  predicate Alternates(signals: seq<bool>, overload: bool) {
    overload == (|signals| % 2 == 1) && forall i :: 0 <= i < |signals| ==> signals[i] == (i % 2 == 0)
  }

  ghost predicate Inv(s: Sched) {
    && Conserved(s)
    && |s.running| <= LIMIT && (!s.ready ==> s.running == {})
    && Alternates(s.past.signals, s.overload)
    && (if s.overload then Total(s) + |s.running| >= LOW else Total(s) <= HIGH + 1)
  }

  lemma AddOne(s: Sched, t: Sched, r: nat)
    requires Conserved(s) && r !in s.past.fast && r !in s.past.lazy && t.past.finished == s.past.finished
    requires (t.past.fast == s.past.fast + [r] && t.past.lazy == s.past.lazy) ||
             (t.past.fast == s.past.fast && t.past.lazy == s.past.lazy + [r])
    requires (t.running == s.running + {r} && t.queue == s.queue && t.slow == s.slow) ||
             (t.running == s.running && t.queue == s.queue + [r] && t.slow == s.slow) ||
             (t.running == s.running && t.queue == s.queue && t.slow == s.slow + [r])
    ensures Conserved(t) && r !in s.running
  {
    var all := multiset(s.past.fast) + multiset(s.past.lazy);
    assert all[r] == 0;
    assert (multiset(s.running) + multiset(s.queue) + multiset(s.slow) + multiset(s.past.finished))[r] == 0;
    assert multiset(t.past.fast) + multiset(t.past.lazy) == all + multiset{r};
    assert multiset(s.running + {r}) == multiset(s.running) + multiset{r};
  }

  lemma FastInv(s: Sched, r: nat)
    requires Inv(s) && IsNew(s, r)
    ensures Inv(Submit(s, r))
  {
    AddOne(s, Submit(s, r), r);
  }

  lemma LazyInv(s: Sched, r: nat)
    requires Inv(s) && IsNew(s, r)
    ensures Inv(SubmitSlow(s, r))
  {
    AddOne(s, SubmitSlow(s, r), r);
  }

  lemma SubmitInv(s: Sched, r: nat)
    requires Inv(s) && IsNew(s, r)
    ensures Inv(Submit(s, r)) && Inv(SubmitSlow(s, r))
  {
    FastInv(s, r);
    LazyInv(s, r);
  }

  lemma HeadFirst(q: seq<nat>)
    requires q != []
    ensures multiset(q) == multiset{q[0]} + multiset(q[1..])
  {
    assert q == [q[0]] + q[1..];
  }

  lemma RunQueueConserves(s: Sched)
    requires Conserved(s)
    ensures Conserved(RunQueue(s))
    ensures Room(s) && Total(s) > 0 ==> |RunQueue(s).running| == |s.running| + 1 && Total(RunQueue(s)) == Total(s) - 1
    ensures !(Room(s) && Total(s) > 0) ==> RunQueue(s) == s
  {
    if Room(s) && Total(s) > 0 {
      var t, head := RunQueue(s), if s.queue != [] then s.queue[0] else s.slow[0];
      HeadFirst(if s.queue != [] then s.queue else s.slow);
      assert (multiset(s.queue) + multiset(s.slow))[head] > 0;
      assert (multiset(s.past.fast) + multiset(s.past.lazy))[head] <= 1;
      assert multiset(s.running)[head] == 0;
      assert multiset(t.running) == multiset(s.running) + multiset{head};
    }
  }

  lemma RunQueueInv(s: Sched)
    requires Inv(s)
    ensures Inv(RunQueue(s))
  {
    RunQueueConserves(s);
  }

  lemma GoneConserves(s: Sched, r: nat)
    requires Conserved(s) && r in s.running
    ensures Conserved(Gone(s, r))
  {
    var t := Gone(s, r);
    assert (multiset(s.past.fast) + multiset(s.past.lazy))[r] <= 1;
    assert multiset(s.past.finished)[r] == 0;
    assert multiset(s.running) == multiset(t.running) + multiset{r};
    assert multiset(t.past.finished) == multiset(s.past.finished) + multiset{r};
  }

  lemma GoneInv(s: Sched, r: nat)
    requires Inv(s) && r in s.running
    ensures Inv(Lower(Gone(s, r))) && |Gone(s, r).running| == |s.running| - 1
  {
    GoneConserves(s, r);
    var t := Lower(Gone(s, r));
    assert t.past.signals == s.past.signals || t.past.signals == s.past.signals + [false];
  }

  lemma NewAfter(s: Sched, w: Woken, ws: seq<Woken>)
    requires AllNew(s, [w] + ws)
    ensures IsNew(s, w.r) && AllNew(SubmitWoken(s, w), ws)
  {
    var all, t := [w] + ws, SubmitWoken(s, w);
    assert all[0] == w;
    forall i | 0 <= i < |ws| ensures IsNew(t, ws[i].r) {
      assert all[i + 1] == ws[i] && all[0].r != all[i + 1].r;
    }
    forall i, j | 0 <= i < j < |ws| ensures ws[i].r != ws[j].r {
      assert all[i + 1] == ws[i] && all[j + 1] == ws[j];
    }
  }

  lemma {:induction false} SubmitAllInv(s: Sched, ws: seq<Woken>)
    requires Inv(s) && AllNew(s, ws)
    ensures Inv(SubmitAll(s, ws))
    decreases |ws|
  {
    if ws != [] {
      assert ws == [ws[0]] + ws[1..];
      NewAfter(s, ws[0], ws[1..]);
      SubmitInv(s, ws[0].r);
      SubmitAllInv(SubmitWoken(s, ws[0]), ws[1..]);
    }
  }

  lemma FinishInv(s: Sched, r: nat, woken: seq<Woken>)
    requires Inv(s) && Enabled(s, Destroyed(r, woken))
    ensures Inv(Finish(s, r, woken))
  {
    GoneInv(s, r);
    SubmitAllInv(Lower(Gone(s, r)), woken);
    RunQueueInv(SubmitAll(Lower(Gone(s, r)), woken));
  }

  /** What every event keeps, whenever the credentials come. */
  lemma InvStep(s: Sched, e: Event)
    requires Inv(s) && Enabled(s, e)
    ensures Inv(Apply(s, e))
  {
    match e {
      case Http(r) => SubmitInv(s, r);
      case HttpSlow(r) => SubmitInv(s, r);
      case Destroyed(r, woken) => FinishInv(s, r, woken);
      case Credentials => RunQueueInv(s.(ready := true));
    }
  }

  // ---- runs that are ready from the start: no waiting while there is room

  ghost predicate Full(s: Sched) {
    s.ready && (Total(s) > 0 ==> |s.running| == LIMIT) && (s.overload ==> Total(s) >= LOW - 1)
  }

  /** In the middle of replyDestroyed one may be missing. */
  ghost predicate Nearly(s: Sched) {
    s.ready && (Total(s) > 0 ==> |s.running| >= LIMIT - 1) && (s.overload ==> Total(s) >= LOW)
  }

  /** What a request changes in the numbers: one more runs, or else one more waits. */
  ghost predicate OneIn(s: Sched, t: Sched) {
    && t.ready == s.ready
    && if Room(s) then |t.running| == |s.running| + 1 && Total(t) == Total(s) && t.overload == s.overload
       else t.running == s.running && Total(t) == Total(s) + 1 && (t.overload ==> s.overload || Total(s) > HIGH)
  }

  lemma SubmitCounts(s: Sched, w: Woken)
    requires w.r !in s.running
    ensures OneIn(s, SubmitWoken(s, w))
  {
  }

  lemma NotRunning(s: Sched, r: nat)
    requires Conserved(s) && IsNew(s, r)
    ensures r !in s.running
  {
    AddOne(s, Submit(s, r), r);
  }

  lemma SubmitNearly(s: Sched, w: Woken)
    requires Inv(s) && Nearly(s) && IsNew(s, w.r)
    ensures Nearly(SubmitWoken(s, w))
  {
    NotRunning(s, w.r);
    SubmitCounts(s, w);
  }

  lemma {:induction false} SubmitAllNearly(s: Sched, ws: seq<Woken>)
    requires Inv(s) && Nearly(s) && AllNew(s, ws)
    ensures Nearly(SubmitAll(s, ws))
    decreases |ws|
  {
    if ws != [] {
      assert ws == [ws[0]] + ws[1..];
      NewAfter(s, ws[0], ws[1..]);
      SubmitNearly(s, ws[0]);
      SubmitInv(s, ws[0].r);
      SubmitAllNearly(SubmitWoken(s, ws[0]), ws[1..]);
    }
  }

  lemma RunQueueFull(s: Sched)
    requires Inv(s) && Nearly(s)
    ensures Full(RunQueue(s))
  {
    RunQueueConserves(s);
  }

  lemma FinishFull(s: Sched, r: nat, woken: seq<Woken>)
    requires Inv(s) && Full(s) && Enabled(s, Destroyed(r, woken))
    ensures Full(Finish(s, r, woken))
  {
    var t := Lower(Gone(s, r));
    GoneInv(s, r);
    SubmitAllInv(t, woken);
    SubmitAllNearly(t, woken);
    RunQueueFull(SubmitAll(t, woken));
  }

  lemma FullStep(s: Sched, e: Event)
    requires Inv(s) && Full(s) && Enabled(s, e)
    ensures Full(Apply(s, e))
  {
    match e {
      case Http(r) => AddOne(s, Submit(s, r), r);
      case HttpSlow(r) => AddOne(s, SubmitSlow(s, r), r);
      case Destroyed(r, woken) => FinishFull(s, r, woken);
      case Credentials =>
        assert s.(ready := true) == s;
        RunQueueConserves(s);
    }
  }

  lemma {:induction false} RunKeeps(s: Sched, es: seq<Event>, t: Sched)
    requires IsRun(s, es, t) && Inv(s)
    ensures Inv(t) && (Full(s) ==> Full(t))
    decreases |es|
  {
    if es != [] {
      InvStep(s, es[0]);
      if Full(s) {
        FullStep(s, es[0]);
      }
      RunKeeps(Apply(s, es[0]), es[1..], t);
    }
  }

  lemma StartInv(ready: bool)
    ensures Inv(Start(ready)) && (ready ==> Full(Start(ready)))
  {
    var s := Start(ready);
    assert Conserved(s) by {
      assert multiset(s.running) + multiset(s.queue) + multiset(s.slow) + multiset(s.past.finished) == multiset{};
    }
  }

  /** In every reachable state of a scheduler, ready from the start or not, requests are conserved,
      at most eight run and the overload signals alternate at the right fill; ready from the start,
      a waiting request means that exactly eight run. */
  lemma SchedulerCorrect(ready: bool, es: seq<Event>, t: Sched)
    requires IsRun(Start(ready), es, t)
    ensures Inv(t) && (ready ==> Full(t))
    ensures |t.running| <= 8 && (ready && (t.queue != [] || t.slow != []) ==> |t.running| == 8)
    ensures !t.overload ==> |t.queue| + |t.slow| <= 10001
    ensures ready && t.overload ==> |t.queue| + |t.slow| >= 8999
  {
    StartInv(ready);
    RunKeeps(Start(ready), es, t);
  }

  lemma {:induction false} WokenSignals(s: Sched, ws: seq<Woken>)
    ensures s.past.signals <= SubmitAll(s, ws).past.signals
    decreases |ws|
  {
    if ws != [] {
      WokenSignals(SubmitWoken(s, ws[0]), ws[1..]);
    }
  }

  /** When the overload signal is sent.  On: a request finds no room while the signal is off and more
      than 10000 wait.  Off: a reply goes while it is on and fewer than 9000 wait, before any request
      that this wakes. */
  lemma SignalsExact(s: Sched, e: Event)
    requires Enabled(s, e)
    ensures var sent, waiting := Apply(s, e).past.signals, |s.queue| + |s.slow|;
            match e
            case Http(_) | HttpSlow(_) =>
              var full := !(s.ready && |s.running| < 8);
              sent == s.past.signals + if !s.overload && waiting > 10000 && full then [true] else []
            case Destroyed(_, woken) =>
              var off := s.past.signals + if s.overload && waiting < 9000 then [false] else [];
              off <= sent && (woken == [] ==> sent == off)
            case Credentials => sent == s.past.signals
  {
    if e.Destroyed? {
      WokenSignals(Lower(Gone(s, e.r)), e.woken);
    }
  }

  // ---- the order of service

  /** Each kind has been started in the order of submission, and the rest waits in that order. */
  ghost predicate Ordered(s: Sched) {
    s.past.fastStarted + s.queue == s.past.fast && s.past.lazyStarted + s.slow == s.past.lazy
  }

  ghost predicate Steady(s: Sched) { Full(s) && Ordered(s) }

  lemma HeadMoves(a: seq<nat>, q: seq<nat>)
    requires q != []
    ensures a + [q[0]] + q[1..] == a + q
  {
    assert q == [q[0]] + q[1..];
  }

  lemma RunQueueInOrder(s: Sched)
    ensures s.past.fastStarted + s.queue == RunQueue(s).past.fastStarted + RunQueue(s).queue
    ensures s.past.lazyStarted + s.slow == RunQueue(s).past.lazyStarted + RunQueue(s).slow
    ensures RunQueue(s).past.fast == s.past.fast && RunQueue(s).past.lazy == s.past.lazy
  {
    if Room(s) {
      if s.queue != [] {
        HeadMoves(s.past.fastStarted, s.queue);
      } else if s.slow != [] {
        HeadMoves(s.past.lazyStarted, s.slow);
      }
    }
  }

  lemma SnocAssociates(a: seq<nat>, b: seq<nat>, r: nat)
    ensures a + (b + [r]) == a + b + [r]
  {
  }

  /** A request that has to wait takes its place at the end; both sides of the order grow alike. */
  lemma SubmitWaits(s: Sched, w: Woken)
    requires !Room(s)
    ensures var t := SubmitWoken(s, w); Ordered(t) <==> Ordered(s)
    ensures var t := SubmitWoken(s, w); t.running == s.running && t.ready == s.ready
  {
    SnocAssociates(s.past.fastStarted, s.queue, w.r);
    SnocAssociates(s.past.lazyStarted, s.slow, w.r);
    SameSnoc(s.past.fastStarted + s.queue, s.past.fast, w.r);
    SameSnoc(s.past.lazyStarted + s.slow, s.past.lazy, w.r);
  }

  lemma SameSnoc(a: seq<nat>, b: seq<nat>, r: nat)
    ensures a + [r] == b + [r] <==> a == b
  {
    if a + [r] == b + [r] {
      assert a == (a + [r])[..|a|] && b == (b + [r])[..|b|];
    }
  }

  lemma {:induction false} SubmitAllWait(s: Sched, ws: seq<Woken>)
    requires !Room(s)
    ensures (Ordered(SubmitAll(s, ws)) <==> Ordered(s)) && !Room(SubmitAll(s, ws))
    ensures SubmitAll(s, ws).past.fastStarted == s.past.fastStarted
    ensures SubmitAll(s, ws).past.lazyStarted == s.past.lazyStarted
    decreases |ws|
  {
    if ws != [] {
      SubmitWaits(s, ws[0]);
      SubmitAllWait(SubmitWoken(s, ws[0]), ws[1..]);
    }
  }

  lemma AheadOf(done: seq<nat>, waiting: seq<nat>, r: nat)
    requires r !in waiting
    ensures done + [r] + waiting == done + waiting + [r] <==> waiting == []
  {
    if waiting != [] {
      assert (done + [r] + waiting)[|done|] == r;
      assert (done + waiting + [r])[|done|] == waiting[0];
    }
  }

  /** A request that finds room goes first; that is its turn exactly if none of its kind waits. */
  lemma SubmitStarts(s: Sched, w: Woken)
    requires Room(s) && Ordered(s) && IsNew(s, w.r)
    ensures Ordered(SubmitWoken(s, w)) <==> (if w.slow then s.slow else s.queue) == []
  {
    assert w.r !in s.queue && w.r !in s.slow by {
      assert forall q :: q in s.queue ==> q in s.past.fastStarted + s.queue;
      assert forall q :: q in s.slow ==> q in s.past.lazyStarted + s.slow;
    }
    AheadOf(s.past.fastStarted, s.queue, w.r);
    AheadOf(s.past.lazyStarted, s.slow, w.r);
  }

  /** No request is woken into the place that a reply leaves, past others of its kind. */
  predicate InTurn(s: Sched, e: Event) {
    e.Destroyed? && e.woken != [] ==> (if e.woken[0].slow then s.slow else s.queue) == []
  }

  lemma FinishWoken(s: Sched, r: nat, woken: seq<Woken>) returns (u: Sched)
    requires Inv(s) && Full(s) && Enabled(s, Destroyed(r, woken)) && woken != []
    ensures u == SubmitWoken(Lower(Gone(s, r)), woken[0]) && Room(Lower(Gone(s, r))) && !Room(u)
    ensures Finish(s, r, woken) == SubmitAll(u, woken[1..])
  {
    var t := Lower(Gone(s, r));
    GoneInv(s, r);
    assert woken == [woken[0]] + woken[1..];
    NewAfter(t, woken[0], woken[1..]);
    AddOne(t, SubmitWoken(t, woken[0]), woken[0].r);
    u := SubmitWoken(t, woken[0]);
    SubmitAllWait(u, woken[1..]);
  }

  lemma FinishOrder(s: Sched, r: nat, woken: seq<Woken>)
    requires Inv(s) && Steady(s) && Enabled(s, Destroyed(r, woken))
    ensures Ordered(Finish(s, r, woken)) <==> InTurn(s, Destroyed(r, woken))
  {
    var t := Lower(Gone(s, r));
    if woken == [] {
      RunQueueInOrder(t);
    } else {
      var u := FinishWoken(s, r, woken);
      SubmitStarts(t, woken[0]);
      SubmitAllWait(u, woken[1..]);
    }
  }

  lemma SubmitOrder(s: Sched, w: Woken)
    requires Inv(s) && Steady(s)
    ensures Ordered(SubmitWoken(s, w))
  {
    if Room(s) {
      assert Total(s) == 0 && s.queue == [] && s.slow == [];
      assert s.past.fastStarted + [w.r] + [] == s.past.fastStarted + [] + [w.r];
      assert s.past.lazyStarted + [w.r] + [] == s.past.lazyStarted + [] + [w.r];
    } else {
      SubmitWaits(s, w);
    }
  }

  /** An event keeps the order exactly if it is not a reply whose signal wakes a request while others
      of its kind wait: that one takes the place the reply leaves. */
  lemma OrderKeptIff(s: Sched, e: Event)
    requires Inv(s) && Steady(s) && Enabled(s, e)
    ensures Ordered(Apply(s, e)) <==> InTurn(s, e)
  {
    match e {
      case Http(r) => SubmitOrder(s, Woken(false, r));
      case HttpSlow(r) => SubmitOrder(s, Woken(true, r));
      case Destroyed(r, woken) => FinishOrder(s, r, woken);
      case Credentials =>
        assert s.(ready := true) == s;
        RunQueueConserves(s);
    }
  }

  ghost predicate IsRunInTurn(s: Sched, es: seq<Event>, t: Sched)
    decreases |es|
  {
    if es == [] then s == t
    else Enabled(s, es[0]) && InTurn(s, es[0]) && IsRunInTurn(Apply(s, es[0]), es[1..], t)
  }

  lemma {:induction false} RunInTurnKeeps(s: Sched, es: seq<Event>, t: Sched)
    requires IsRunInTurn(s, es, t) && Inv(s) && Steady(s)
    ensures Inv(t) && Steady(t)
    decreases |es|
  {
    if es != [] {
      InvStep(s, es[0]);
      FullStep(s, es[0]);
      OrderKeptIff(s, es[0]);
      RunInTurnKeeps(Apply(s, es[0]), es[1..], t);
    }
  }

  /** Ready from the start, and with no request woken past others, each queue is served in order. */
  lemma ServedInOrder(es: seq<Event>, t: Sched)
    requires IsRunInTurn(Start(true), es, t)
    ensures Steady(t)
  {
    StartInv(true);
    RunInTurnKeeps(Start(true), es, t);
  }

  /** Some slow request is started while a fast one waits exactly by a reply whose signal wakes a
      slow request first. */
  lemma SlowOvertakesIff(s: Sched, e: Event)
    requires Inv(s) && Full(s) && Enabled(s, e) && s.queue != []
    ensures Apply(s, e).past.lazyStarted != s.past.lazyStarted <==>
            e.Destroyed? && e.woken != [] && e.woken[0].slow
  {
    if e.Destroyed? && e.woken != [] {
      var u := FinishWoken(s, e.r, e.woken);
      SubmitAllWait(u, e.woken[1..]);
      assert e.woken[0].slow ==> u.past.lazyStarted == s.past.lazyStarted + [e.woken[0].r];
    } else if e.Credentials? {
      assert s.(ready := true) == s;
    }
  }

  predicate AllFinish(es: seq<Event>) { forall i :: 0 <= i < |es| ==> es[i].Destroyed? && es[i].woken == [] }

  ghost function Begun(s: Sched): multiset<nat> {
    multiset(s.past.fastStarted) + multiset(s.past.lazyStarted)
  }

  /** From s to t, the first n waiting requests, fast before slow, have been started. */
  ghost predicate Served(s: Sched, n: nat, t: Sched) {
    var waiting := s.queue + s.slow;
    n <= |waiting| && t.queue + t.slow == waiting[n..] && Begun(t) == Begun(s) + multiset(waiting[..n])
  }

  lemma ServedOne(s: Sched, r: nat)
    requires Inv(s) && Full(s) && r in s.running && Total(s) > 0
    ensures Served(s, 1, Finish(s, r, []))
  {
    ServedByRunQueue(Lower(Gone(s, r)));
  }

  lemma ServedByRunQueue(s: Sched)
    requires Room(s) && Total(s) > 0
    ensures Served(s, 1, RunQueue(s))
  {
    var waiting := s.queue + s.slow;
    assert waiting[..1] == [waiting[0]];
    if s.queue != [] {
      assert waiting[1..] == s.queue[1..] + s.slow;
    } else {
      assert waiting[1..] == s.queue + s.slow[1..];
    }
  }

  lemma ServedFirst(s: Sched, es: seq<Event>, t: Sched) returns (u: Sched)
    requires IsRun(s, es, t) && AllFinish(es) && es != [] && Inv(s) && Full(s) && Total(s) > 0
    ensures IsRun(u, es[1..], t) && AllFinish(es[1..]) && Inv(u) && Full(u)
    ensures Served(s, 1, u) && Total(u) == Total(s) - 1
  {
    u := Apply(s, es[0]);
    InvStep(s, es[0]);
    FullStep(s, es[0]);
    ServedOne(s, es[0].r);
  }

  lemma ServedNone(s: Sched)
    ensures Served(s, 0, s)
  {
    assert (s.queue + s.slow)[0..] == s.queue + s.slow;
  }

  lemma ServedMore(s: Sched, u: Sched, n: nat, t: Sched)
    requires Served(s, 1, u) && Served(u, n, t)
    ensures Served(s, n + 1, t)
  {
    var waiting := s.queue + s.slow;
    assert waiting[1..][n..] == waiting[n + 1..];
    assert waiting[..n + 1] == waiting[..1] + waiting[1..][..n];
  }

  /** While requests only finish and none is woken, the waiting ones are started one by one: first the
      fast, then the slow. */
  lemma {:induction false} ServedInTurn(s: Sched, es: seq<Event>, t: Sched)
    requires IsRun(s, es, t) && AllFinish(es) && Inv(s) && Full(s) && |es| <= Total(s)
    ensures Served(s, |es|, t)
    decreases |es|
  {
    if es == [] {
      ServedNone(s);
    } else {
      var u := ServedFirst(s, es, t);
      ServedInTurn(u, es[1..], t);
      ServedMore(s, u, |es| - 1, t);
    }
  }

  // ---- a run in which a woken request overtakes

  function NewNumber(rs: seq<nat>): (n: nat)
    ensures forall r :: r in rs ==> r < n
  {
    if rs == [] then 0
    else
      var n := NewNumber(rs[1..]);
      assert rs == [rs[0]] + rs[1..];
      if rs[0] < n then n else rs[0] + 1
  }

  function NewRequest(s: Sched): (r: nat)
    ensures IsNew(s, r)
  {
    var n := NewNumber(s.past.fast + s.past.lazy);
    assert forall r :: r in s.past.fast || r in s.past.lazy ==> r in s.past.fast + s.past.lazy;
    n
  }

  /** es leads in turn to s, where only fast requests wait. */
  ghost predicate LeadsTo(es: seq<Event>, s: Sched) {
    IsRunInTurn(Start(true), es, s) && Inv(s) && Steady(s) && s.slow == []
  }

  lemma {:induction false} RunInTurnSnoc(s: Sched, es: seq<Event>, t: Sched, e: Event)
    requires IsRunInTurn(s, es, t) && Enabled(t, e) && InTurn(t, e)
    ensures IsRunInTurn(s, es + [e], Apply(t, e))
    decreases |es|
  {
    if es == [] {
      assert ([] + [e])[1..] == [] && IsRunInTurn(Apply(s, e), [], Apply(t, e));
    } else {
      RunInTurnSnoc(Apply(s, es[0]), es[1..], t, e);
      assert (es + [e])[1..] == es[1..] + [e];
    }
  }

  lemma OneMore(es: seq<Event>, s: Sched, e: Event) returns (fs: seq<Event>)
    requires LeadsTo(es, s) && Enabled(s, e) && InTurn(s, e) && Apply(s, e).slow == []
    ensures LeadsTo(fs, Apply(s, e))
  {
    fs := es + [e];
    RunInTurnSnoc(Start(true), es, s, e);
    InvStep(s, e);
    FullStep(s, e);
    OrderKeptIff(s, e);
  }

  lemma {:induction false} RunningUpTo(k: nat) returns (es: seq<Event>, s: Sched)
    requires k <= LIMIT
    ensures LeadsTo(es, s) && |s.running| == k && s.queue == [] && !s.overload
  {
    if k == 0 {
      es, s := [], Start(true);
      StartInv(true);
    } else {
      es, s := RunningUpTo(k - 1);
      var r := NewRequest(s);
      AddOne(s, Submit(s, r), r);
      es := OneMore(es, s, Http(r));
      s := Submit(s, r);
    }
  }

  lemma {:induction false} WaitingUpTo(n: nat) returns (es: seq<Event>, s: Sched)
    ensures LeadsTo(es, s) && |s.running| == LIMIT && |s.queue| == n
    ensures s.overload <==> n > HIGH + 1
  {
    if n == 0 {
      es, s := RunningUpTo(LIMIT);
    } else {
      es, s := WaitingUpTo(n - 1);
      var r := NewRequest(s);
      es := OneMore(es, s, Http(r));
      s := Submit(s, r);
    }
  }

  /** Replies go until n wait, the signal still being on. */
  lemma {:induction false} DrainedTo(n: nat) returns (es: seq<Event>, s: Sched)
    requires LOW - 1 <= n <= HIGH + 2
    ensures LeadsTo(es, s) && |s.running| == LIMIT && |s.queue| == n && s.overload
    decreases HIGH + 2 - n
  {
    if n == HIGH + 2 {
      es, s := WaitingUpTo(n);
    } else {
      es, s := DrainedTo(n + 1);
      var r :| r in s.running;
      DrainOne(s, r);
      es := OneMore(es, s, Destroyed(r, []));
      s := Finish(s, r, []);
    }
  }

  lemma DrainOne(s: Sched, r: nat)
    requires Inv(s) && Full(s) && r in s.running && |s.running| == LIMIT
    requires s.slow == [] && |s.queue| >= LOW && s.overload
    ensures var t := Finish(s, r, []);
            |t.running| == LIMIT && t.queue == s.queue[1..] && t.slow == [] && t.overload
  {
    var u := Lower(Gone(s, r));
    GoneConserves(s, r);
    assert u == Gone(s, r) && Room(u);
    RunQueueConserves(u);
  }

  /** Eight run, 8999 wait, the signal is on; a reply goes, the signal is taken back, and a parked
      request, of either kind, is started at once while every one of them goes on waiting. */
  lemma WokenOvertakes(slow: bool) returns (es: seq<Event>, s: Sched, r: nat, w: Woken)
    ensures LeadsTo(es, s) && |s.queue| == LOW - 1 && w.slow == slow && Enabled(s, Destroyed(r, [w]))
    ensures var t := Apply(s, Destroyed(r, [w]));
            && w.r in t.running && t.queue == s.queue
            && t.past.fastStarted == s.past.fastStarted + if slow then [] else [w.r]
    ensures !slow ==> !Ordered(Apply(s, Destroyed(r, [w])))
  {
    es, s := DrainedTo(LOW - 1);
    r :| r in s.running;
    w := Woken(slow, NewRequest(s));
    var u := FinishWoken(s, r, [w]);
    assert [w][1..] == [];
    OrderKeptIff(s, Destroyed(r, [w]));
  }

  // ---- credentials that come later

  /** Without credentials nothing runs, and nothing has run. */
  ghost predicate Idle(s: Sched) { !s.ready && s.running == {} && Ordered(s) }

  lemma IdleStep(s: Sched, e: Event)
    requires Idle(s) && Enabled(s, e) && !e.Credentials?
    ensures Idle(Apply(s, e))
  {
    match e {
      case Http(r) => SubmitWaits(s, Woken(false, r));
      case HttpSlow(r) => SubmitWaits(s, Woken(true, r));
      case Destroyed(_, _) => assert false;
    }
  }

  lemma {:induction false} NothingStarted(s: Sched, es: seq<Event>, t: Sched)
    requires IsRun(s, es, t) && !t.ready && Idle(s)
    ensures Idle(t)
    decreases |es|
  {
    if es != [] {
      StaysReady(s, es, t);
      IdleStep(s, es[0]);
      NothingStarted(Apply(s, es[0]), es[1..], t);
    }
  }

  lemma {:induction false} SubmitAllReady(s: Sched, ws: seq<Woken>)
    ensures SubmitAll(s, ws).ready == s.ready
    decreases |ws|
  {
    if ws != [] {
      SubmitAllReady(SubmitWoken(s, ws[0]), ws[1..]);
    }
  }

  lemma {:induction false} StaysReady(s: Sched, es: seq<Event>, t: Sched)
    requires IsRun(s, es, t) && !t.ready
    ensures !s.ready && forall e :: e in es ==> !e.Credentials?
    decreases |es|
  {
    if es != [] {
      StaysReady(Apply(s, es[0]), es[1..], t);
      if es[0].Destroyed? {
        SubmitAllReady(Lower(Gone(s, es[0].r)), es[0].woken);
      }
      assert es == [es[0]] + es[1..];
    }
  }

  /** The first credentials start one request only.  The guarantees of a scheduler that was ready
      from the start hold from then on exactly if at most one request was waiting. */
  lemma LateCredentialsIff(es: seq<Event>, s: Sched)
    requires IsRun(Start(false), es, s) && !s.ready
    ensures Steady(Apply(s, Credentials)) <==> Total(s) <= 1
  {
    SchedulerCorrect(false, es, s);
    NothingStarted(Start(false), es, s);
    var t := s.(ready := true);
    RunQueueConserves(t);
    RunQueueInOrder(t);
  }

  /** Otherwise a later request overtakes: it runs while earlier ones of its kind still wait. */
  lemma LateCredentialsOvertaken(es: seq<Event>, s: Sched, r: nat)
    requires IsRun(Start(false), es, s) && !s.ready && |s.queue| >= 2 && Enabled(s, Http(r))
    ensures var t := Apply(Apply(s, Credentials), Http(r));
            r in t.running && t.queue == s.queue[1..] && t.past.fast == s.past.fast + [r]
  {
    SchedulerCorrect(false, es, s);
    RunQueueConserves(s.(ready := true));
  }

  /** The scheduler object. */
  class S3FSAws {
    var isReady: bool
    var httpRunning: set<nat>
    var httpQueue: seq<nat>
    var httpSlowQueue: seq<nat>
    var overloadStatus: bool
    ghost var past: Past

    ghost function State(): Sched
      reads this
    {
      Sched(isReady, httpRunning, httpQueue, httpSlowQueue, overloadStatus, past)
    }

    constructor (ready: bool)
      ensures State() == Start(ready)
    {
      isReady, httpRunning, httpQueue, httpSlowQueue, overloadStatus := ready, {}, [], [], false;
      past := Past({}, [], [], [], [], []);
    }

    /** http and httpV4 */
    method Http(r: nat)
      modifies this
      ensures State() == Submit(old(State()), r)
    {
      past := past.(fast := past.fast + [r]);
      if isReady && |httpRunning| < LIMIT {
        httpRunning := httpRunning + {r};
        past := past.(fastStarted := past.fastStarted + [r]);
        return;
      }
      SignalOverload();
      httpQueue := httpQueue + [r];
    }

    /** httpSlowV4 */
    method HttpSlow(r: nat)
      modifies this
      ensures State() == SubmitSlow(old(State()), r)
    {
      past := past.(lazy := past.lazy + [r]);
      if isReady && |httpRunning| < LIMIT {
        httpRunning := httpRunning + {r};
        past := past.(lazyStarted := past.lazyStarted + [r]);
        return;
      }
      SignalOverload();
      httpSlowQueue := httpSlowQueue + [r];
    }

    method SignalOverload()
      modifies `overloadStatus, `past
      ensures State() == Raise(old(State()))
    {
      if !overloadStatus && |httpQueue| + |httpSlowQueue| > HIGH {
        overloadStatus := true;
        past := past.(signals := past.signals + [overloadStatus]);
      }
    }

    /** woken lists the requests that the end of an overload would wake; they call in at once. */
    method ReplyDestroyed(r: nat, woken: seq<Woken>)
      modifies this
      ensures State() == Finish(old(State()), r, if Lowers(old(State())) then woken else [])
    {
      httpRunning := httpRunning - {r};
      past := past.(finished := past.finished + {r});
      if overloadStatus && |httpQueue| + |httpSlowQueue| < LOW {
        overloadStatus := false;
        past := past.(signals := past.signals + [overloadStatus]);
        WakeUp(woken);
      }
      StartNext();
    }

    /** What the signal sets off. */
    method WakeUp(woken: seq<Woken>)
      modifies this
      ensures State() == SubmitAll(old(State()), woken)
    {
      ghost var end := SubmitAll(State(), woken);
      for i := 0 to |woken|
        invariant SubmitAll(State(), woken[i..]) == end
      {
        assert woken[i..][0] == woken[i] && woken[i..][1..] == woken[i + 1..];
        if woken[i].slow {
          HttpSlow(woken[i].r);
        } else {
          Http(woken[i].r);
        }
      }
    }

    /** The end of receiveAwsCredentials. */
    method ReceiveCredentials()
      modifies this
      ensures State() == Apply(old(State()), Credentials)
    {
      isReady := true;
      StartNext();
    }

    /** runQueue */
    method StartNext()
      modifies `httpRunning, `httpQueue, `httpSlowQueue, `past
      ensures State() == RunQueue(old(State()))
    {
      if !isReady || |httpRunning| >= LIMIT {
        return;
      }
      if |httpQueue| > 0 {
        var q := httpQueue[0];
        httpQueue := httpQueue[1..];
        httpRunning := httpRunning + {q};
        past := past.(fastStarted := past.fastStarted + [q]);
      } else if |httpSlowQueue| > 0 {
        var q := httpSlowQueue[0];
        httpSlowQueue := httpSlowQueue[1..];
        httpRunning := httpRunning + {q};
        past := past.(lazyStarted := past.lazyStarted + [q]);
      }
    }
  }
}
