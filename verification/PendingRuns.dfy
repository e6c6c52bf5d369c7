/** Every run of the server's response queue: connections come and go, and their
    addresses are used again; requests arrive, finish, and are answered or dropped. */
module PendingRuns {
  import opened Text
  import opened Pending

  /** An effect, and for a sending the connection that lived at the address then. */
  datatype Event = Event(effect: Effect, conn: Option<nat>)

  /** `live` maps the address of every open bufferevent to its connection; `origin` maps
      every request ever accepted to the connection it came from. */
  datatype World = World(queue: seq<Entry>, live: map<nat, nat>, origin: seq<nat>, connections: nat, events: seq<Event>)

  datatype Action =
    | Connect(bev: nat)
    | Receive(bev: nat, processed: bool, hook: bool)
    | Finish(req: nat, keepHook: bool)
    | Disconnect(bev: nat)
    | Tick
    | Cleanup

  const START: World := World([], map[], [], 0, [])

  function Observed(effects: seq<Effect>, live: map<nat, nat>): seq<Event> {
    if effects == [] then []
    else
      var e := effects[0];
      [Event(e, if e.Send? && e.bev in live then Some(live[e.bev]) else None)] + Observed(effects[1..], live)
  }

  function Finished(es: seq<Entry>, req: nat, keepHook: bool): (r: seq<Entry>)
    ensures |r| == |es|
  {
    if es == [] then []
    else
      var e := es[0];
      [if e.req == req && e.res.Some? then
         e.(res := Some(ResponseView(e.res.value.id, true, keepHook && e.res.value.hook)))
       else e]
      + Finished(es[1..], req, keepHook)
  }

  function Step(w: World, a: Action): World {
    match a
    case Connect(bev) =>
      if bev in w.live then w else w.(live := w.live[bev := w.connections], connections := w.connections + 1)
    case Receive(bev, processed, hook) =>
      if bev !in w.live then w
      else
        var id := |w.origin|;
        var w' := w.(origin := w.origin + [w.live[bev]]);
        if processed
        then w'.(events := w.events + Observed([Send(bev, id, id), FreeResponse(id), FreeRequest(id)], w.live))
        else w'.(queue := [Entry(id, Some(ResponseView(id, false, hook)), Some(bev), false)] + w.queue)
    case Finish(req, keepHook) => w.(queue := Finished(w.queue, req, keepHook))
    case Disconnect(bev) =>
      if bev !in w.live then w
      else w.(queue := Cancelled(w.queue, bev), live := w.live - {bev},
              events := w.events + Observed(CancelEffects(w.queue, bev), w.live))
    case Tick => w.(queue := Survivors(w.queue), events := w.events + Observed(TickEffects(w.queue), w.live))
    case Cleanup => w.(queue := [], events := w.events + Observed(CleanupEffects(w.queue), w.live))
  }

  function Run(actions: seq<Action>): World {
    if actions == [] then START
    else Step(Run(actions[..|actions| - 1]), actions[|actions| - 1])
  }

  // ---------------------------------------------------------------------- counting

  function Count(events: seq<Event>, e: Effect): nat {
    if events == [] then 0 else (if events[0].effect == e then 1 else 0) + Count(events[1..], e)
  }

  /** How often the response to request i is written to a connection. */
  function Sends(events: seq<Event>, i: nat): nat {
    if events == [] then 0
    else (if events[0].effect.Send? && events[0].effect.sentReq == i then 1 else 0) + Sends(events[1..], i)
  }

  /** How often request i stands in the queue. */
  function Queued(es: seq<Entry>, i: nat): nat {
    if es == [] then 0 else (if es[0].req == i then 1 else 0) + Queued(es[1..], i)
  }

  /** How many hooks of request i stand in the queue. */
  function Hooks(es: seq<Entry>, i: nat): nat {
    if es == [] then 0
    else (if es[0].req == i && es[0].res.Some? && es[0].res.value.hook then 1 else 0) + Hooks(es[1..], i)
  }

  lemma {:induction false} CountConcat(a: seq<Event>, b: seq<Event>, e: Effect)
    ensures Count(a + b, e) == Count(a, e) + Count(b, e)
  {
    if a == [] {
      assert a + b == b;
    } else {
      assert (a + b)[1..] == a[1..] + b;
      CountConcat(a[1..], b, e);
    }
  }

  lemma {:induction false} ObservedConcat(a: seq<Effect>, b: seq<Effect>, live: map<nat, nat>)
    ensures Observed(a + b, live) == Observed(a, live) + Observed(b, live)
  {
    if a == [] {
      assert a + b == b;
    } else {
      assert (a + b)[1..] == a[1..] + b;
      ObservedConcat(a[1..], b, live);
    }
  }

  /** Counting in the events of two effect lists one after the other. */
  lemma CountBoth(a: seq<Effect>, b: seq<Effect>, live: map<nat, nat>, e: Effect)
    ensures Count(Observed(a + b, live), e) == Count(Observed(a, live), e) + Count(Observed(b, live), e)
  {
    ObservedConcat(a, b, live);
    CountConcat(Observed(a, live), Observed(b, live), e);
  }

  lemma CountOne(a: Effect, live: map<nat, nat>, e: Effect)
    ensures Count(Observed([a], live), e) == if a == e then 1 else 0
  {
    assert [a][1..] == [] && Observed([], live) == [];
    var o := Observed([a], live);
    assert o[1..] == [];
  }

  lemma CountThree(a: Effect, b: Effect, c: Effect, live: map<nat, nat>, e: Effect)
    ensures Count(Observed([a, b, c], live), e)
            == (if a == e then 1 else 0) + (if b == e then 1 else 0) + (if c == e then 1 else 0)
  {
    assert [a, b, c] == [a] + ([b] + [c]);
    CountBoth([a], [b] + [c], live, e);
    CountBoth([b], [c], live, e);
    CountOne(a, live, e);
    CountOne(b, live, e);
    CountOne(c, live, e);
  }

  /** Requests and responses of the queue belong together. */
  predicate Paired(es: seq<Entry>) {
    forall k :: 0 <= k < |es| ==> es[k].res.Some? && es[k].res.value.id == es[k].req
  }

  /** What an entry adds to the counts when it leaves. */
  lemma LeaveCounts(e: Entry, live: map<nat, nat>, i: nat)
    requires e.res.Some? && e.res.value.id == e.req
    ensures var evs := Observed(LeaveEffects(e), live);
            && Count(evs, FreeRequest(i)) == Count(evs, FreeResponse(i)) == (if e.req == i then 1 else 0)
            && Count(evs, Cancel(i)) == 0
  {
    var bev := if e.bev.Some? then e.bev.value else 0;
    if !e.cancelled && e.bev.Some? {
      CountThree(Send(bev, e.req, e.req), FreeResponse(e.req), FreeRequest(e.req), live, FreeRequest(i));
      CountThree(Send(bev, e.req, e.req), FreeResponse(e.req), FreeRequest(e.req), live, FreeResponse(i));
      CountThree(Send(bev, e.req, e.req), FreeResponse(e.req), FreeRequest(e.req), live, Cancel(i));
    } else {
      PairCounts(FreeResponse(e.req), FreeRequest(e.req), live, FreeRequest(i));
      PairCounts(FreeResponse(e.req), FreeRequest(e.req), live, FreeResponse(i));
      PairCounts(FreeResponse(e.req), FreeRequest(e.req), live, Cancel(i));
    }
  }

  lemma PairCounts(a: Effect, b: Effect, live: map<nat, nat>, e: Effect)
    ensures Count(Observed([a, b], live), e) == (if a == e then 1 else 0) + (if b == e then 1 else 0)
  {
    assert [a, b] == [a] + [b];
    CountBoth([a], [b], live, e);
    CountOne(a, live, e);
    CountOne(b, live, e);
  }

  lemma {:induction false} TickCounts(es: seq<Entry>, live: map<nat, nat>, i: nat)
    requires Paired(es)
    ensures var evs := Observed(TickEffects(es), live);
            && Count(evs, FreeRequest(i)) + Queued(Survivors(es), i) == Queued(es, i)
            && Count(evs, FreeResponse(i)) + Queued(Survivors(es), i) == Queued(es, i)
            && Count(evs, Cancel(i)) == 0 && Hooks(Survivors(es), i) <= Hooks(es, i)
  {
    if es != [] {
      TickCounts(es[1..], live, i);
      var a, b := if Leaves(es[0]) then LeaveEffects(es[0]) else [], TickEffects(es[1..]);
      CountBoth(a, b, live, FreeRequest(i));
      CountBoth(a, b, live, FreeResponse(i));
      CountBoth(a, b, live, Cancel(i));
      LeaveCounts(es[0], live, i);
      hide Leaves, LeaveEffects;
      assert ([es[0]] + Survivors(es[1..]))[1..] == Survivors(es[1..]);
      assert [] + Survivors(es[1..]) == Survivors(es[1..]);
      assert Observed([], live) == [];
    }
  }

  lemma {:induction false} CancelCounts(es: seq<Entry>, bev: nat, live: map<nat, nat>, i: nat)
    requires Paired(es)
    ensures var evs := Observed(CancelEffects(es, bev), live);
            && Queued(Cancelled(es, bev), i) == Queued(es, i)
            && Count(evs, FreeRequest(i)) == 0 && Count(evs, FreeResponse(i)) == 0
            && Count(evs, Cancel(i)) + Hooks(Cancelled(es, bev), i) == Hooks(es, i)
  {
    if es != [] {
      CancelCounts(es[1..], bev, live, i);
      var a, b := CancelEffect(es[0], bev), CancelEffects(es[1..], bev);
      CountBoth(a, b, live, FreeRequest(i));
      CountBoth(a, b, live, FreeResponse(i));
      CountBoth(a, b, live, Cancel(i));
      if a != [] {
        CountOne(a[0], live, FreeRequest(i));
        CountOne(a[0], live, FreeResponse(i));
        CountOne(a[0], live, Cancel(i));
      }
      var rest := Cancelled(es[1..], bev);
      assert ([CancelEntry(es[0], bev)] + rest)[1..] == rest;
      assert Observed([], live) == [];
    }
  }

  lemma {:induction false} CleanupCounts(es: seq<Entry>, live: map<nat, nat>, i: nat)
    requires Paired(es)
    ensures var evs := Observed(CleanupEffects(es), live);
            && Count(evs, FreeRequest(i)) == Count(evs, FreeResponse(i)) == Queued(es, i) && Count(evs, Cancel(i)) == 0
  {
    if es != [] {
      CleanupCounts(es[1..], live, i);
      var q, b := es[0].req, CleanupEffects(es[1..]);
      assert CleanupEffects(es) == [FreeRequest(q), FreeResponse(q)] + b;
      CountBoth([FreeRequest(q), FreeResponse(q)], b, live, FreeRequest(i));
      CountBoth([FreeRequest(q), FreeResponse(q)], b, live, FreeResponse(i));
      CountBoth([FreeRequest(q), FreeResponse(q)], b, live, Cancel(i));
      PairCounts(FreeRequest(q), FreeResponse(q), live, FreeRequest(i));
      PairCounts(FreeRequest(q), FreeResponse(q), live, FreeResponse(i));
      PairCounts(FreeRequest(q), FreeResponse(q), live, Cancel(i));
    }
  }

  lemma {:induction false} FinishCounts(es: seq<Entry>, req: nat, keepHook: bool, i: nat)
    ensures Queued(Finished(es, req, keepHook), i) == Queued(es, i)
    ensures Hooks(Finished(es, req, keepHook), i) <= Hooks(es, i)
  {
    if es != [] {
      FinishCounts(es[1..], req, keepHook, i);
      var r := Finished(es, req, keepHook);
      assert r == [r[0]] + Finished(es[1..], req, keepHook);
      assert r[1..] == Finished(es[1..], req, keepHook);
    }
  }

  // ------------------------------------------------------------------- the invariant

  /** A queued request knows its connection by its address exactly as long as that
      connection is open. */
  ghost predicate EntryOk(e: Entry, w: World) {
    && e.res.Some? && e.res.value.id == e.req && e.req < |w.origin|
    && (e.bev.Some? <==> !e.cancelled)
    && (e.bev.Some? ==> e.bev.value in w.live && w.live[e.bev.value] == w.origin[e.req])
    && (e.bev.None? ==> !Open(w, w.origin[e.req]))
  }

  ghost predicate Open(w: World, conn: nat) {
    exists a :: a in w.live && w.live[a] == conn
  }

  ghost predicate QueueOk(w: World) {
    forall k :: 0 <= k < |w.queue| ==> EntryOk(w.queue[k], w)
  }

  ghost predicate ConnectionsOk(w: World) {
    && (forall a :: a in w.live ==> w.live[a] < w.connections)
    && (forall a, b :: a in w.live && b in w.live && w.live[a] == w.live[b] ==> a == b)
    && (forall i :: 0 <= i < |w.origin| ==> w.origin[i] < w.connections)
  }

  /** A response is only ever written to the connection its request came from, and while
      that connection is open. */
  predicate SentOk(w: World) {
    forall k :: 0 <= k < |w.events| && w.events[k].effect.Send? ==> Rightly(w.events[k], w.origin)
  }

  predicate Rightly(ev: Event, origin: seq<nat>)
    requires ev.effect.Send?
  {
    ev.effect.sentReq < |origin| && ev.conn == Some(origin[ev.effect.sentReq])
  }

  /** Request i and its response are in the queue or freed, together and once; its
      cancellation hook has run at most once. */
  predicate Balanced(w: World, i: nat) {
    var accepted := if i < |w.origin| then 1 else 0;
    && Count(w.events, FreeRequest(i)) + Queued(w.queue, i) == accepted
    && Count(w.events, FreeResponse(i)) + Queued(w.queue, i) == accepted
    && Count(w.events, Cancel(i)) + Hooks(w.queue, i) <= accepted
  }

  ghost predicate AllBalanced(w: World) {
    forall i: nat :: Balanced(w, i)
  }

  ghost predicate Inv(w: World) {
    QueueOk(w) && ConnectionsOk(w) && SentOk(w) && AllBalanced(w)
  }

  lemma QueueIsPaired(w: World)
    requires QueueOk(w)
    ensures Paired(w.queue)
  {
    assert forall k :: 0 <= k < |w.queue| ==> EntryOk(w.queue[k], w);
  }

  // ----------------------------------------------------------------- the queue is ok

  lemma {:induction false} SurvivorsStay(es: seq<Entry>)
    ensures forall e :: e in Survivors(es) <==> e in es && !Leaves(e)
  {
    hide Leaves;
    if es != [] {
      SurvivorsStay(es[1..]);
    }
  }

  /** A tick leaves the entries whose response is there and not finished. */
  lemma SurvivorsAre(es: seq<Entry>)
    ensures forall e :: e in Survivors(es) <==> e in es && e.res.Some? && !e.res.value.processed
  {
    SurvivorsStay(es);
  }

  lemma {:induction false} CancelledAt(es: seq<Entry>, bev: nat, k: nat)
    requires k < |es|
    ensures Cancelled(es, bev)[k] == CancelEntry(es[k], bev)
  {
    if k > 0 {
      CancelledAt(es[1..], bev, k - 1);
    }
  }

  lemma {:induction false} FinishedAt(es: seq<Entry>, req: nat, keepHook: bool, k: nat)
    requires k < |es|
    ensures var e, e' := es[k], Finished(es, req, keepHook)[k];
            && e'.req == e.req && e'.bev == e.bev && e'.cancelled == e.cancelled
            && (e.res.Some? ==> e'.res.Some? && e'.res.value.id == e.res.value.id)
  {
    if k > 0 {
      FinishedAt(es[1..], req, keepHook, k - 1);
    }
  }

  lemma EntryStaysOk(e: Entry, w: World, w': World)
    requires EntryOk(e, w) && w.origin <= w'.origin
    requires forall a :: a in w.live ==> a in w'.live && w'.live[a] == w.live[a]
    requires forall a :: a in w'.live && a !in w.live ==> w'.live[a] !in w.origin
    ensures EntryOk(e, w')
  {
    assert w.origin[e.req] == w'.origin[e.req] && w.origin[e.req] in w.origin;
  }

  lemma ConnectKeeps(w: World, bev: nat)
    requires Inv(w)
    ensures QueueOk(Step(w, Connect(bev))) && ConnectionsOk(Step(w, Connect(bev)))
  {
    var w' := Step(w, Connect(bev));
    forall k | 0 <= k < |w'.queue|
      ensures EntryOk(w'.queue[k], w')
    {
      EntryStaysOk(w.queue[k], w, w');
    }
  }

  lemma ReceiveKeeps(w: World, bev: nat, processed: bool, hook: bool)
    requires Inv(w)
    ensures QueueOk(Step(w, Receive(bev, processed, hook))) && ConnectionsOk(Step(w, Receive(bev, processed, hook)))
  {
    hide Observed;
    var w' := Step(w, Receive(bev, processed, hook));
    var news := |w'.queue| - |w.queue|;
    forall k | 0 <= k < |w'.queue|
      ensures EntryOk(w'.queue[k], w')
    {
      if k >= news {
        assert w'.queue[k] == w.queue[k - news];
        EntryStaysOk(w.queue[k - news], w, w');
      }
    }
  }

  lemma FinishKeeps(w: World, req: nat, keepHook: bool)
    requires Inv(w)
    ensures QueueOk(Step(w, Finish(req, keepHook))) && ConnectionsOk(Step(w, Finish(req, keepHook)))
  {
    var w' := Step(w, Finish(req, keepHook));
    forall k | 0 <= k < |w'.queue|
      ensures EntryOk(w'.queue[k], w')
    {
      FinishedAt(w.queue, req, keepHook, k);
      assert EntryOk(w.queue[k], w);
    }
  }

  lemma DisconnectKeeps(w: World, bev: nat)
    requires Inv(w)
    ensures QueueOk(Step(w, Disconnect(bev))) && ConnectionsOk(Step(w, Disconnect(bev)))
  {
    hide Observed, CancelEffects;
    var w' := Step(w, Disconnect(bev));
    forall k | 0 <= k < |w'.queue|
      ensures EntryOk(w'.queue[k], w')
    {
      assert EntryOk(w.queue[k], w);
      if bev in w.live {
        CancelledAt(w.queue, bev, k);
      }
    }
  }

  lemma TickKeeps(w: World)
    requires Inv(w)
    ensures QueueOk(Step(w, Tick)) && ConnectionsOk(Step(w, Tick))
  {
    hide Observed, TickEffects;
    var w' := Step(w, Tick);
    forall k | 0 <= k < |w'.queue|
      ensures EntryOk(w'.queue[k], w')
    {
      SurvivorsStay(w.queue);
      assert w'.queue[k] in w.queue;
      var j :| 0 <= j < |w.queue| && w.queue[j] == w'.queue[k];
      EntryStaysOk(w.queue[j], w, w');
    }
  }

  lemma QueueStaysOk(w: World, a: Action)
    requires Inv(w)
    ensures QueueOk(Step(w, a)) && ConnectionsOk(Step(w, a))
  {
    hide Inv, QueueOk, ConnectionsOk;
    if a.Connect? {
      ConnectKeeps(w, a.bev);
    } else if a.Receive? {
      ReceiveKeeps(w, a.bev, a.processed, a.hook);
    } else if a.Finish? {
      FinishKeeps(w, a.req, a.keepHook);
    } else if a.Disconnect? {
      DisconnectKeeps(w, a.bev);
    } else if a.Tick? {
      TickKeeps(w);
    } else {
      CleanupKeeps(w);
    }
  }

  lemma CleanupKeeps(w: World)
    requires Inv(w)
    ensures QueueOk(Step(w, Cleanup)) && ConnectionsOk(Step(w, Cleanup))
  {
    hide Observed, CleanupEffects;
  }

  // --------------------------------------------------------------- the counts balance

  lemma StepBalances(w: World, a: Action, i: nat)
    requires Inv(w)
    ensures Balanced(Step(w, a), i)
  {
    QueueIsPaired(w);
    assert Balanced(w, i);
    hide Inv, QueueOk, ConnectionsOk, SentOk, Observed, CancelEffects, TickEffects, CleanupEffects, Survivors,
      Cancelled, Finished;
    match a
    case Connect(bev) =>
    case Receive(bev, processed, hook) => ReceiveBalances(w, bev, processed, hook, i);
    case Finish(req, keepHook) => FinishCounts(w.queue, req, keepHook, i);
    case Disconnect(bev) =>
      CancelCounts(w.queue, bev, w.live, i);
      CountsAdd(w.events, Observed(CancelEffects(w.queue, bev), w.live), i);
    case Tick =>
      TickCounts(w.queue, w.live, i);
      CountsAdd(w.events, Observed(TickEffects(w.queue), w.live), i);
    case Cleanup =>
      CleanupCounts(w.queue, w.live, i);
      CountsAdd(w.events, Observed(CleanupEffects(w.queue), w.live), i);
  }

  lemma CountsAdd(a: seq<Event>, b: seq<Event>, i: nat)
    ensures forall e :: e in [FreeRequest(i), FreeResponse(i), Cancel(i)] ==>
                          Count(a + b, e) == Count(a, e) + Count(b, e)
  {
    CountConcat(a, b, FreeRequest(i));
    CountConcat(a, b, FreeResponse(i));
    CountConcat(a, b, Cancel(i));
  }

  lemma ReceiveBalances(w: World, bev: nat, processed: bool, hook: bool, i: nat)
    requires Balanced(w, i)
    ensures Balanced(Step(w, Receive(bev, processed, hook)), i)
  {
    var id := |w.origin|;
    if bev !in w.live {
    } else if processed {
      var effects := [Send(bev, id, id), FreeResponse(id), FreeRequest(id)];
      CountThree(effects[0], effects[1], effects[2], w.live, FreeRequest(i));
      CountThree(effects[0], effects[1], effects[2], w.live, FreeResponse(i));
      CountThree(effects[0], effects[1], effects[2], w.live, Cancel(i));
      hide Observed, Count;
      CountsAdd(w.events, Observed(effects, w.live), i);
    } else {
      var e := Entry(id, Some(ResponseView(id, false, hook)), Some(bev), false);
      assert ([e] + w.queue)[1..] == w.queue;
    }
  }

  // -------------------------------------------------------------------- the sendings

  lemma {:induction false} ObservedAt(effects: seq<Effect>, live: map<nat, nat>)
    ensures |Observed(effects, live)| == |effects|
    ensures forall k :: 0 <= k < |effects| ==>
              var e := effects[k];
              Observed(effects, live)[k] == Event(e, if e.Send? && e.bev in live then Some(live[e.bev]) else None)
  {
    if effects != [] {
      ObservedAt(effects[1..], live);
    }
  }

  /** A tick sends for queued entries only, on the connection they still know. */
  lemma {:induction false} TickSends(es: seq<Entry>, f: Effect)
    requires f in TickEffects(es) && f.Send?
    ensures exists e :: e in es && e.bev == Some(f.bev) && e.req == f.sentReq
  {
    if f in (if Leaves(es[0]) then LeaveEffects(es[0]) else []) {
      assert es[0] in es;
    } else {
      TickSends(es[1..], f);
      var e :| e in es[1..] && e.bev == Some(f.bev) && e.req == f.sentReq;
      assert e in es;
    }
  }

  lemma {:induction false} CancelNeverSends(es: seq<Entry>, bev: nat)
    ensures forall f :: f in CancelEffects(es, bev) ==> f.Cancel?
  {
    if es != [] {
      CancelNeverSends(es[1..], bev);
    }
  }

  lemma {:induction false} CleanupNeverSends(es: seq<Entry>)
    ensures forall f :: f in CleanupEffects(es) ==> !f.Send?
  {
    if es != [] {
      CleanupNeverSends(es[1..]);
    }
  }

  /** The new events of a step are right when every sending among its effects is. */
  lemma EventsStayRight(w: World, w': World, effects: seq<Effect>)
    requires SentOk(w) && w.origin <= w'.origin && w'.events == w.events + Observed(effects, w.live)
    requires forall f :: f in effects && f.Send? ==>
               f.bev in w.live && f.sentReq < |w'.origin| && w.live[f.bev] == w'.origin[f.sentReq]
    ensures SentOk(w')
  {
    ObservedAt(effects, w.live);
    var n := |w.events|;
    forall k | 0 <= k < |w'.events| && w'.events[k].effect.Send?
      ensures Rightly(w'.events[k], w'.origin)
    {
      if k < n {
        assert w'.events[k] == w.events[k] && Rightly(w.events[k], w.origin);
      } else {
        assert w'.events[k] == Observed(effects, w.live)[k - n] && effects[k - n] in effects;
      }
    }
  }

  lemma SendingsStayRight(w: World, a: Action)
    requires Inv(w)
    ensures SentOk(Step(w, a))
  {
    var w' := Step(w, a);
    match a
    case Connect(bev) => EventsStayRight(w, w', []);
    case Receive(bev, processed, hook) =>
      var id := |w.origin|;
      EventsStayRight(w, w',
        if processed && bev in w.live then [Send(bev, id, id), FreeResponse(id), FreeRequest(id)] else []);
    case Finish(req, keepHook) => EventsStayRight(w, w', []);
    case Disconnect(bev) =>
      CancelNeverSends(w.queue, bev);
      EventsStayRight(w, w', if bev in w.live then CancelEffects(w.queue, bev) else []);
    case Tick =>
      forall f | f in TickEffects(w.queue) && f.Send?
        ensures f.bev in w.live && f.sentReq < |w'.origin| && w.live[f.bev] == w'.origin[f.sentReq]
      {
        TickSends(w.queue, f);
        var e :| e in w.queue && e.bev == Some(f.bev) && e.req == f.sentReq;
        assert EntryOk(e, w);
      }
      EventsStayRight(w, w', TickEffects(w.queue));
    case Cleanup =>
      CleanupNeverSends(w.queue);
      EventsStayRight(w, w', CleanupEffects(w.queue));
  }

  // -------------------------------------------------------------------- the theorems

  /** Every run: a response is written only to the connection its request came from and
      only while that is open; every accepted request and its response are in the queue
      once or freed once; every cancellation hook runs at most once. */
  lemma {:induction false} RunsAreSafe(actions: seq<Action>)
    ensures Inv(Run(actions))
  {
    if actions == [] {
    } else {
      var w, a := Run(actions[..|actions| - 1]), actions[|actions| - 1];
      RunsAreSafe(actions[..|actions| - 1]);
      hide Inv, Step;
      QueueStaysOk(w, a);
      SendingsStayRight(w, a);
      forall i: nat
        ensures Balanced(Step(w, a), i)
      {
        StepBalances(w, a, i);
      }
      hide QueueOk, ConnectionsOk, SentOk, Balanced;
      InvIs(Step(w, a));
    }
  }

  lemma InvIs(w: World)
    requires QueueOk(w) && ConnectionsOk(w) && SentOk(w) && AllBalanced(w)
    ensures Inv(w)
  {}

  lemma {:induction false} LeaveIsSeen(es: seq<Entry>, e: Entry, f: Effect)
    requires e in es && Leaves(e) && f in LeaveEffects(e)
    ensures f in TickEffects(es)
  {
    if e != es[0] {
      LeaveIsSeen(es[1..], e, f);
    }
  }

  /** The entry waits on connection bev with a hook for request id. */
  predicate Hooked(e: Entry, bev: nat, id: nat) {
    e.bev == Some(bev) && e.res.Some? && e.res.value.hook && e.res.value.id == id
  }

  lemma {:induction false} HooksOfLoss(es: seq<Entry>, bev: nat, id: nat)
    ensures Cancel(id) in CancelEffects(es, bev) <==> exists k :: 0 <= k < |es| && Hooked(es[k], bev, id)
  {
    if es != [] {
      HooksOfLoss(es[1..], bev, id);
      CancelFirst(es, bev);
      assert Cancel(id) in CancelEffect(es[0], bev) <==> Hooked(es[0], bev, id);
      hide CancelEffects, CancelEffect, Hooked;
      assert forall k :: 1 <= k < |es| ==> es[k] == es[1..][k - 1];
      assert forall k :: 0 <= k < |es| - 1 ==> es[1..][k] == es[k + 1];
    }
  }

  /** When a connection is lost, the hook of a request is called exactly if the request
      waits in the queue for that connection and has a hook; and then no entry waits for
      the connection any more. */
  lemma LossCallsHooks(actions: seq<Action>, bev: nat, id: nat)
    requires bev in Run(actions).live
    ensures var w, w' := Run(actions), Run(actions + [Disconnect(bev)]);
            && (Event(Cancel(id), None) in w'.events[|w.events|..]
                <==> exists k :: 0 <= k < |w.queue| && Hooked(w.queue[k], bev, id))
            && |w'.queue| == |w.queue| && forall k :: 0 <= k < |w'.queue| ==> w'.queue[k].bev != Some(bev)
  {
    hide Run, Cancelled, CancelEffects, Observed, Hooked;
    var w := Run(actions);
    var effects := CancelEffects(w.queue, bev);
    DisconnectLast(actions, bev);
    ObservedAt(effects, w.live);
    HooksOfLoss(w.queue, bev, id);
    var events := Step(w, Disconnect(bev)).events[|w.events|..];
    assert events == Observed(effects, w.live);
    if Cancel(id) in effects {
      var k :| 0 <= k < |effects| && effects[k] == Cancel(id);
      assert events[k] == Event(Cancel(id), None);
    }
    if Event(Cancel(id), None) in events {
      var k :| 0 <= k < |events| && events[k] == Event(Cancel(id), None);
      assert effects[k] == Cancel(id);
    }
    forall k | 0 <= k < |w.queue|
      ensures Cancelled(w.queue, bev)[k].bev != Some(bev)
    {
      CancelledAt(w.queue, bev, k);
    }
  }

  lemma DisconnectLast(actions: seq<Action>, bev: nat)
    ensures Run(actions + [Disconnect(bev)]) == Step(Run(actions), Disconnect(bev))
  {
    assert (actions + [Disconnect(bev)])[..|actions|] == actions;
    hide Step;
  }

  /** The first tick after a request has finished answers it if and only if its
      connection is still open, and takes it out of the queue either way. */
  lemma TickAnswersOpenConnections(actions: seq<Action>, e: Entry)
    requires e in Run(actions).queue && Leaves(e)
    ensures var w, w' := Run(actions), Run(actions + [Tick]);
            && e !in w'.queue && e.req < |w.origin|
            && (e.bev.Some? <==> Open(w, w.origin[e.req]))
            && (Open(w, w.origin[e.req])
               ==> Event(Send(e.bev.value, e.req, e.req), Some(w.origin[e.req])) in w'.events[|w.events|..])
  {
    hide Run, Step, Inv, Leaves, Survivors, TickEffects, Observed, Open;
    var w := Run(actions);
    var w' := Step(w, Tick);
    TickLast(actions);
    RunsAreSafe(actions);
    QueuedIsOk(e, w);
    TickLeaves(w, e);
    hide EntryOk;
    if e.bev.Some? {
      SentInTick(w, e);
    }
  }

  lemma TickLast(actions: seq<Action>)
    ensures Run(actions + [Tick]) == Step(Run(actions), Tick)
  {
    assert (actions + [Tick])[..|actions|] == actions;
    hide Step;
  }

  /** An entry of the queue knows its connection exactly while that is open. */
  lemma QueuedIsOk(e: Entry, w: World)
    requires Inv(w) && e in w.queue
    ensures EntryOk(e, w) && (e.bev.Some? ==> Open(w, w.origin[e.req]))
  {
    assert EntryOk(e, w);
  }

  lemma TickLeaves(w: World, e: Entry)
    requires Leaves(e)
    ensures e !in Step(w, Tick).queue
  {
    SurvivorsStay(w.queue);
    hide Leaves, Survivors;
  }

  lemma SentInTick(w: World, e: Entry)
    requires e in w.queue && Leaves(e) && EntryOk(e, w) && e.bev.Some?
    ensures Event(Send(e.bev.value, e.req, e.req), Some(w.origin[e.req])) in Step(w, Tick).events[|w.events|..]
  {
    hide Leaves, TickEffects, Observed;
    var f, effects := Send(e.bev.value, e.req, e.req), TickEffects(w.queue);
    ObservedAt(effects, w.live);
    assert LeaveEffects(e)[0] == f;
    LeaveIsSeen(w.queue, e, f);
    var k :| 0 <= k < |effects| && effects[k] == f;
    assert Step(w, Tick).events[|w.events|..] == Observed(effects, w.live);
    assert Observed(effects, w.live)[k] == Event(f, Some(w.origin[e.req]));
  }

  /** A tick keeps the order of the entries it leaves. */
  lemma {:induction false} SurvivorsConcat(a: seq<Entry>, b: seq<Entry>)
    ensures Survivors(a + b) == Survivors(a) + Survivors(b)
  {
    if a == [] {
      assert a + b == b;
    } else {
      assert (a + b)[1..] == a[1..] + b;
      SurvivorsConcat(a[1..], b);
    }
  }

  lemma {:induction false} SendsConcat(a: seq<Event>, b: seq<Event>, i: nat)
    ensures Sends(a + b, i) == Sends(a, i) + Sends(b, i)
  {
    if a == [] {
      assert a + b == b;
    } else {
      assert (a + b)[1..] == a[1..] + b;
      SendsConcat(a[1..], b, i);
    }
  }

  lemma {:induction false} NoSends(events: seq<Event>, i: nat)
    requires forall k :: 0 <= k < |events| ==> !events[k].effect.Send?
    ensures Sends(events, i) == 0
  {
    if events != [] {
      NoSends(events[1..], i);
    }
  }

  /** Every sending is followed by its frees. */
  lemma {:induction false} SendsThenFrees(es: seq<Entry>, live: map<nat, nat>, i: nat)
    requires Paired(es)
    ensures var evs := Observed(TickEffects(es), live); Sends(evs, i) <= Count(evs, FreeRequest(i))
  {
    if es != [] {
      SendsThenFrees(es[1..], live, i);
      var a, b := if Leaves(es[0]) then LeaveEffects(es[0]) else [], TickEffects(es[1..]);
      CountBoth(a, b, live, FreeRequest(i));
      ObservedConcat(a, b, live);
      SendsConcat(Observed(a, live), Observed(b, live), i);
      if a != [] {
        LeaveCounts(es[0], live, i);
        OneSend(a, live, i, es[0].req);
      }
    }
  }

  lemma OneSend(a: seq<Effect>, live: map<nat, nat>, i: nat, req: nat)
    requires a != [] && (a[0].Send? ==> a[0].sentReq == req) && forall f :: f in a[1..] ==> !f.Send?
    ensures Sends(Observed(a, live), i) <= if req == i then 1 else 0
  {
    ObservedAt(a, live);
    var o := Observed(a, live);
    forall k | 0 <= k < |o[1..]|
      ensures !o[1..][k].effect.Send?
    {
      assert a[1..][k] == a[k + 1] && a[1..][k] in a[1..];
    }
    NoSends(o[1..], i);
  }

  lemma NeverSends(effects: seq<Effect>, live: map<nat, nat>, i: nat)
    requires forall f :: f in effects ==> !f.Send?
    ensures Sends(Observed(effects, live), i) == 0
  {
    ObservedAt(effects, live);
    forall k | 0 <= k < |effects|
      ensures !Observed(effects, live)[k].effect.Send?
    {
      assert effects[k] in effects;
    }
    NoSends(Observed(effects, live), i);
  }

  /** A step never sends more responses to a request than it frees that request. */
  lemma StepSendsOnce(w: World, a: Action, i: nat)
    requires Inv(w)
    ensures Sends(Step(w, a).events, i) - Sends(w.events, i)
            <= Count(Step(w, a).events, FreeRequest(i)) - Count(w.events, FreeRequest(i))
  {
    QueueIsPaired(w);
    hide Inv, QueueOk, ConnectionsOk, SentOk, AllBalanced, Observed, CancelEffects, TickEffects, CleanupEffects,
      Sends, Count;
    match a
    case Connect(bev) =>
    case Receive(bev, processed, hook) =>
      var id := |w.origin|;
      var sent := [Send(bev, id, id), FreeResponse(id), FreeRequest(id)];
      CountThree(sent[0], sent[1], sent[2], w.live, FreeRequest(i));
      OneSend(sent, w.live, i, id);
      AddSends(w.events, Observed(sent, w.live), i);
    case Finish(req, keepHook) =>
    case Disconnect(bev) =>
      CancelNeverSends(w.queue, bev);
      NeverSends(CancelEffects(w.queue, bev), w.live, i);
      AddSends(w.events, Observed(CancelEffects(w.queue, bev), w.live), i);
    case Tick =>
      SendsThenFrees(w.queue, w.live, i);
      AddSends(w.events, Observed(TickEffects(w.queue), w.live), i);
    case Cleanup =>
      CleanupNeverSends(w.queue);
      NeverSends(CleanupEffects(w.queue), w.live, i);
      AddSends(w.events, Observed(CleanupEffects(w.queue), w.live), i);
  }

  lemma AddSends(a: seq<Event>, b: seq<Event>, i: nat)
    ensures Sends(a + b, i) == Sends(a, i) + Sends(b, i)
    ensures Count(a + b, FreeRequest(i)) == Count(a, FreeRequest(i)) + Count(b, FreeRequest(i))
  {
    SendsConcat(a, b, i);
    CountConcat(a, b, FreeRequest(i));
  }

  /** What a run goes on to send is at most what it goes on to free. */
  lemma {:induction false} SendsGrowWithFrees(a: seq<Action>, b: seq<Action>, i: nat)
    ensures Sends(Run(a + b).events, i) - Sends(Run(a).events, i)
            <= Count(Run(a + b).events, FreeRequest(i)) - Count(Run(a).events, FreeRequest(i))
    decreases |b|
  {
    if b == [] {
      assert a + b == a;
    } else {
      var init, last := b[..|b| - 1], b[|b| - 1];
      assert (a + b)[..|a + b| - 1] == a + init && (a + b)[|a + b| - 1] == last;
      RunsAreSafe(a + init);
      SendsGrowWithFrees(a, init, i);
      hide Inv, Step;
      StepSendsOnce(Run(a + init), last, i);
    }
  }

  /** Every accepted request is answered at most once, and freed at most once. */
  lemma AnsweredAtMostOnce(actions: seq<Action>, i: nat)
    ensures Sends(Run(actions).events, i) <= Count(Run(actions).events, FreeRequest(i)) <= 1
  {
    RunsAreSafe(actions);
    assert Balanced(Run(actions), i);
    SendsGrowWithFrees([], actions, i);
    assert [] + actions == actions;
  }

  /** Once a request has been freed, answered or dropped, nothing is ever sent for it. */
  lemma NeverAnsweredLater(a: seq<Action>, b: seq<Action>, i: nat)
    requires Count(Run(a).events, FreeRequest(i)) > 0
    ensures Sends(Run(a + b).events, i) == Sends(Run(a).events, i)
  {
    AnsweredAtMostOnce(a + b, i);
    SendsGrowWithFrees(a, b, i);
    SendsStay(a, b, i);
  }

  lemma {:induction false} SendsStay(a: seq<Action>, b: seq<Action>, i: nat)
    ensures Sends(Run(a).events, i) <= Sends(Run(a + b).events, i)
    decreases |b|
  {
    if b == [] {
      assert a + b == a;
    } else {
      var init, last := b[..|b| - 1], b[|b| - 1];
      assert (a + b)[..|a + b| - 1] == a + init && (a + b)[|a + b| - 1] == last;
      SendsStay(a, init, i);
      hide Observed;
      EventsGrow(Run(a + init), last);
      var w, w' := Run(a + init), Run(a + b);
      SendsConcat(w.events, w'.events[|w.events|..], i);
    }
  }

  lemma EventsGrow(w: World, a: Action)
    ensures w.events <= Step(w, a).events && Step(w, a).events == w.events + Step(w, a).events[|w.events|..]
  {
    hide Observed, TickEffects, CancelEffects, CleanupEffects;
  }

  // ------------------------------------------------------------------- the accounts

  /** How often request i is freed without an answer before: dropped. */
  function Drops(events: seq<Event>, i: nat, answered: bool): nat {
    if events == [] then 0
    else
      var e := events[0].effect;
      (if e == FreeRequest(i) && !answered then 1 else 0)
        + Drops(events[1..], i, answered || (e.Send? && e.sentReq == i))
  }

  lemma {:induction false} DropsConcat(a: seq<Event>, b: seq<Event>, i: nat, answered: bool)
    ensures Drops(a + b, i, answered) == Drops(a, i, answered) + Drops(b, i, answered || Sends(a, i) > 0)
  {
    if a == [] {
      assert a + b == b;
    } else {
      assert (a + b)[1..] == a[1..] + b;
      DropsConcat(a[1..], b, i, answered || (a[0].effect.Send? && a[0].effect.sentReq == i));
    }
  }

  lemma {:induction false} DropsAreFrees(events: seq<Event>, i: nat, answered: bool)
    ensures Drops(events, i, answered) <= Count(events, FreeRequest(i))
    ensures !answered && Sends(events, i) == 0 ==> Drops(events, i, answered) == Count(events, FreeRequest(i))
  {
    if events != [] {
      DropsAreFrees(events[1..], i, answered || (events[0].effect.Send? && events[0].effect.sentReq == i));
    }
  }

  /** Every free in these events is an answer or a drop, and each sending is one of them. */
  predicate Settled(events: seq<Event>, i: nat) {
    Sends(events, i) + Drops(events, i, false) == Count(events, FreeRequest(i))
  }

  lemma SettledConcat(a: seq<Event>, b: seq<Event>, i: nat)
    requires Settled(a, i) && Settled(b, i)
    requires Count(a, FreeRequest(i)) + Count(b, FreeRequest(i)) <= 1
    ensures Settled(a + b, i)
  {
    DropsConcat(a, b, i, false);
    SendsConcat(a, b, i);
    CountConcat(a, b, FreeRequest(i));
    DropsAreFrees(b, i, Sends(a, i) > 0);
  }

  lemma AnswerSettles(bev: nat, req: nat, live: map<nat, nat>, i: nat)
    ensures Settled(Observed([Send(bev, req, req), FreeResponse(req), FreeRequest(req)], live), i)
  {
    var a, b, c := Send(bev, req, req), FreeResponse(req), FreeRequest(req);
    ObservedAt([a, b, c], live);
    var evs := Observed([a, b, c], live);
    ThreeSettled(evs[0], evs[1], evs[2], req, i);
    assert evs == [evs[0], evs[1], evs[2]];
    hide Observed, Settled;
  }

  /** The three accounts, one event at a time. */
  lemma FirstEvent(e: Event, rest: seq<Event>, i: nat, answered: bool)
    ensures var sent := e.effect.Send? && e.effect.sentReq == i;
            var freed := e.effect == FreeRequest(i);
            var events := [e] + rest;
            && Sends(events, i) == (if sent then 1 else 0) + Sends(rest, i)
            && Count(events, FreeRequest(i)) == (if freed then 1 else 0) + Count(rest, FreeRequest(i))
            && Drops(events, i, answered) == (if freed && !answered then 1 else 0) + Drops(rest, i, answered || sent)
  {
    assert ([e] + rest)[1..] == rest;
  }

  lemma ThreeSettled(x: Event, y: Event, z: Event, req: nat, i: nat)
    requires x.effect.Send? && x.effect.sentReq == req && y.effect == FreeResponse(req) && z.effect == FreeRequest(req)
    ensures Settled([x, y, z], i)
  {
    assert Sends([], i) == 0 && Count([], FreeRequest(i)) == 0 && Drops([], i, req == i) == 0;
    hide Sends, Count, Drops;
    FirstEvent(z, [], i, req == i);
    FirstEvent(y, [z], i, req == i);
    FirstEvent(x, [y, z], i, false);
    assert [z] + [] == [z] && [y] + [z] == [y, z] && [x] + [y, z] == [x, y, z];
  }

  lemma NoSendSettles(effects: seq<Effect>, live: map<nat, nat>, i: nat)
    requires forall f :: f in effects ==> !f.Send?
    ensures Settled(Observed(effects, live), i)
  {
    NeverSends(effects, live, i);
    DropsAreFrees(Observed(effects, live), i, false);
    hide Observed, Drops, Count, Sends;
  }

  lemma LeaveSettles(e: Entry, live: map<nat, nat>, i: nat)
    requires e.res.Some? && e.res.value.id == e.req
    ensures Settled(Observed(LeaveEffects(e), live), i)
  {
    hide Observed, Settled;
    if !e.cancelled && e.bev.Some? {
      AnswerSettles(e.bev.value, e.req, live, i);
    } else {
      NoSendSettles(LeaveEffects(e), live, i);
    }
  }

  lemma {:induction false} TickSettles(es: seq<Entry>, live: map<nat, nat>, i: nat)
    requires Paired(es) && Queued(es, i) <= 1
    ensures Settled(Observed(TickEffects(es), live), i)
  {
    if es != [] {
      var a, b := if Leaves(es[0]) then LeaveEffects(es[0]) else [], TickEffects(es[1..]);
      assert Settled(Observed([], live), i);
      TickSettles(es[1..], live, i);
      TickCounts(es[1..], live, i);
      LeaveSettles(es[0], live, i);
      LeaveCounts(es[0], live, i);
      ObservedConcat(a, b, live);
      hide Leaves, LeaveEffects, Settled;
      assert Count(Observed([], live), FreeRequest(i)) == 0;
      SettledConcat(Observed(a, live), Observed(b, live), i);
    }
  }

  lemma StepSettles(w: World, a: Action, i: nat)
    requires Inv(w) && Settled(w.events, i) && Count(Step(w, a).events, FreeRequest(i)) <= 1
    ensures Settled(Step(w, a).events, i)
  {
    QueueIsPaired(w);
    assert Queued(w.queue, i) <= 1 by { assert Balanced(w, i); }
    hide Inv, QueueOk, ConnectionsOk, SentOk, AllBalanced, Observed, CancelEffects, TickEffects, CleanupEffects,
      Settled, Count;
    match a
    case Connect(bev) =>
    case Receive(bev, processed, hook) =>
      var id := |w.origin|;
      AnswerSettles(bev, id, w.live, i);
      JoinSettled(w.events, Observed([Send(bev, id, id), FreeResponse(id), FreeRequest(id)], w.live), i);
    case Finish(req, keepHook) =>
    case Disconnect(bev) =>
      CancelNeverSends(w.queue, bev);
      NoSendSettles(CancelEffects(w.queue, bev), w.live, i);
      JoinSettled(w.events, Observed(CancelEffects(w.queue, bev), w.live), i);
    case Tick =>
      TickSettles(w.queue, w.live, i);
      JoinSettled(w.events, Observed(TickEffects(w.queue), w.live), i);
    case Cleanup =>
      CleanupNeverSends(w.queue);
      NoSendSettles(CleanupEffects(w.queue), w.live, i);
      JoinSettled(w.events, Observed(CleanupEffects(w.queue), w.live), i);
  }

  lemma JoinSettled(a: seq<Event>, b: seq<Event>, i: nat)
    requires Settled(a, i) && Settled(b, i)
    ensures Count(a + b, FreeRequest(i)) <= 1 ==> Settled(a + b, i)
  {
    CountConcat(a, b, FreeRequest(i));
    if Count(a + b, FreeRequest(i)) <= 1 {
      SettledConcat(a, b, i);
    }
  }

  /** The accounts of every run: each accepted request is answered, dropped or still in the
      queue, exactly one of them and once; and nothing else is. */
  lemma {:induction false} EveryRequestIsAccounted(actions: seq<Action>, i: nat)
    ensures var w := Run(actions);
            Sends(w.events, i) + Drops(w.events, i, false) + Queued(w.queue, i) == if i < |w.origin| then 1 else 0
    decreases |actions|
  {
    RunsAreSafe(actions);
    assert Balanced(Run(actions), i);
    hide Inv, Balanced;
    EveryRunSettles(actions, i);
  }

  lemma {:induction false} EveryRunSettles(actions: seq<Action>, i: nat)
    ensures Settled(Run(actions).events, i)
    decreases |actions|
  {
    if actions != [] {
      var init := actions[..|actions| - 1];
      RunsAreSafe(init);
      AnsweredAtMostOnce(actions, i);
      EveryRunSettles(init, i);
      hide Inv, Settled, Step;
      StepSettles(Run(init), actions[|actions| - 1], i);
    }
  }

  /** After cleanup nothing is left behind: every request ever accepted, and every
      response, has been freed exactly once. */
  lemma CleanupFreesEverything(actions: seq<Action>, i: nat)
    ensures var w := Run(actions + [Cleanup]);
            i < |w.origin| ==> Count(w.events, FreeRequest(i)) == 1 && Count(w.events, FreeResponse(i)) == 1
  {
    RunsAreSafe(actions + [Cleanup]);
    assert Balanced(Run(actions + [Cleanup]), i);
    assert (actions + [Cleanup])[..|actions|] == actions;
  }
}
