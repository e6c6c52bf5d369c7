/** The queue of responses that are not ready yet: a linked list, unlinked in place. */
module Pending {
  import opened Text

  /** A response as the queue sees it: finished or not, and with or without a
      cancellation hook of the application. */
  datatype ResponseView = ResponseView(id: nat, processed: bool, hook: bool)

  datatype Entry = Entry(req: nat, res: Option<ResponseView>, bev: Option<nat>, cancelled: bool)

  /** What the queue does to the rest of the server. */
  datatype Effect =
    | Send(bev: nat, sentReq: nat, sentRes: nat)
    | FreeResponse(res: nat)
    | FreeRequest(req: nat)
    | Cancel(res: nat)

  // -------------------------------------------------------------- the specification

  function CancelEntry(e: Entry, bev: nat): Entry {
    if e.bev != Some(bev) then e
    else e.(bev := None, cancelled := true, res := if e.res.Some? then Some(e.res.value.(hook := false)) else None)
  }

  function CancelEffect(e: Entry, bev: nat): seq<Effect> {
    if e.bev == Some(bev) && e.res.Some? && e.res.value.hook then [Cancel(e.res.value.id)] else []
  }

  /** The entries after their connection bev was lost, and the hooks that were called. */
  function Cancelled(es: seq<Entry>, bev: nat): (r: seq<Entry>)
    ensures |r| == |es|
  {
    if es == [] then [] else [CancelEntry(es[0], bev)] + Cancelled(es[1..], bev)
  }

  function CancelEffects(es: seq<Entry>, bev: nat): seq<Effect> {
    if es == [] then [] else CancelEffect(es[0], bev) + CancelEffects(es[1..], bev)
  }

  /** A tick removes an entry whose response is finished (or missing). */
  predicate Leaves(e: Entry) {
    e.res.Some? ==> e.res.value.processed
  }

  function LeaveEffects(e: Entry): seq<Effect> {
    if e.res.None? then []
    else if !e.cancelled && e.bev.Some? then
      [Send(e.bev.value, e.req, e.res.value.id), FreeResponse(e.res.value.id), FreeRequest(e.req)]
    else [FreeResponse(e.res.value.id), FreeRequest(e.req)]
  }

  function Survivors(es: seq<Entry>): seq<Entry> {
    if es == [] then [] else (if Leaves(es[0]) then [] else [es[0]]) + Survivors(es[1..])
  }

  function TickEffects(es: seq<Entry>): seq<Effect> {
    if es == [] then [] else (if Leaves(es[0]) then LeaveEffects(es[0]) else []) + TickEffects(es[1..])
  }

  function CleanupEffects(es: seq<Entry>): seq<Effect> {
    if es == [] then []
    else
      [FreeRequest(es[0].req)] + (if es[0].res.Some? then [FreeResponse(es[0].res.value.id)] else [])
      + CleanupEffects(es[1..])
  }

  // ----------------------------------------------------------------------- the list

  class Response {
    const id: nat
    var processed: bool
    var asyncCancel: bool

    constructor (id: nat, processed: bool, asyncCancel: bool)
      ensures this.id == id && this.processed == processed && this.asyncCancel == asyncCancel
    {
      this.id, this.processed, this.asyncCancel := id, processed, asyncCancel;
    }
  }

  /** pending_response_t; the request is only passed on. */
  class Node {
    const req: nat
    const res: Response?
    var bev: Option<nat>
    var next: Node?
    var cancelled: bool

    constructor (req: nat, res: Response?, bev: nat, next: Node?)
      ensures this.req == req && this.res == res && this.bev == Some(bev) && this.next == next && !cancelled
    {
      this.req, this.res, this.bev, this.next, this.cancelled := req, res, Some(bev), next, false;
    }

    /** The body of the cancel loop. */
    method CancelFor(lost: nat) returns (effects: seq<Effect>)
      modifies this, res
      ensures View() == CancelEntry(old(View()), lost) && effects == CancelEffect(old(View()), lost)
              && next == old(next)
    {
      effects := [];
      if bev == Some(lost) {
        bev := None;
        cancelled := true;
        if res != null && res.asyncCancel {
          effects := [Cancel(res.id)];
          res.asyncCancel := false;
        }
      }
    }

    /** Answer a finished request, or drop it when its connection is gone. */
    function Answer(): (effects: seq<Effect>)
      requires res != null && res.processed
      reads this, res
      ensures Leaves(View()) && effects == LeaveEffects(View())
    {
      if !cancelled && bev.Some? then [Send(bev.value, req, res.id), FreeResponse(res.id), FreeRequest(req)]
      else [FreeResponse(res.id), FreeRequest(req)]
    }

    ghost function View(): Entry
      reads this, res
    {
      Entry(req, if res == null then None else Some(ResponseView(res.id, res.processed, res.asyncCancel)),
            bev, cancelled)
    }
  }

  ghost function Responses(ns: seq<Node>): set<Response> {
    set n | n in ns && n.res != null :: n.res
  }

  ghost function Views(ns: seq<Node>): seq<Entry>
    reads ns, Responses(ns)
  {
    if ns == [] then [] else [ns[0].View()] + Views(ns[1..])
  }

  lemma {:induction false} ViewsAre(ns: seq<Node>)
    ensures |Views(ns)| == |ns| && forall i :: 0 <= i < |ns| ==> Views(ns)[i] == ns[i].View()
  {
    if ns != [] {
      ViewsAre(ns[1..]);
      assert forall i :: 1 <= i < |ns| ==> ns[i] == ns[1..][i - 1];
    }
  }

  lemma CancelStarts(es: seq<Entry>, bev: nat)
    ensures Cancelled(es[..0], bev) + es[0..] == es && CancelEffects(es[..0], bev) == []
  {}

  lemma {:induction false} CancelledConcat(a: seq<Entry>, e: Entry, bev: nat)
    ensures Cancelled(a + [e], bev) == Cancelled(a, bev) + [CancelEntry(e, bev)]
    ensures CancelEffects(a + [e], bev) == CancelEffects(a, bev) + CancelEffect(e, bev)
  {
    hide CancelEntry, CancelEffect;
    if a == [] {
      assert a + [e] == [e] && [e][1..] == [];
      assert Cancelled([], bev) == [] && CancelEffects([], bev) == [];
    } else {
      hide Cancelled, CancelEffects;
      assert (a + [e])[0] == a[0] && (a + [e])[1..] == a[1..] + [e];
      CancelFirst(a, bev);
      CancelFirst(a + [e], bev);
      CancelledConcat(a[1..], e, bev);
    }
  }

  lemma CancelFirst(es: seq<Entry>, bev: nat)
    requires es != []
    ensures Cancelled(es, bev) == [CancelEntry(es[0], bev)] + Cancelled(es[1..], bev)
    ensures CancelEffects(es, bev) == CancelEffect(es[0], bev) + CancelEffects(es[1..], bev)
  {
    hide CancelEntry, CancelEffect;
  }

  /** The entries when k of them have been seen, and one more. */
  lemma CancelEnds(es: seq<Entry>, k: nat, bev: nat)
    requires k == |es|
    ensures Cancelled(es[..k], bev) + es[k..] == Cancelled(es, bev)
    ensures CancelEffects(es[..k], bev) == CancelEffects(es, bev)
  {
    assert es[..k] == es;
    hide Cancelled, CancelEffects;
  }

  lemma CancelMore(es: seq<Entry>, k: nat, bev: nat)
    requires k < |es|
    ensures var now := Cancelled(es[..k], bev) + es[k..];
            now[k] == es[k] && now[k := CancelEntry(es[k], bev)] == Cancelled(es[..k + 1], bev) + es[k + 1..]
    ensures CancelEffects(es[..k + 1], bev) == CancelEffects(es[..k], bev) + CancelEffect(es[k], bev)
  {
    hide CancelEntry, CancelEffect, CancelEffects, Cancelled;
    CancelledConcat(es[..k], es[k], bev);
    assert es[..k + 1] == es[..k] + [es[k]];
    PutIn(Cancelled(es[..k], bev), es, k, CancelEntry(es[k], bev));
  }

  lemma PutIn(front: seq<Entry>, es: seq<Entry>, k: nat, e: Entry)
    requires k < |es| && |front| == k
    ensures (front + es[k..])[k] == es[k] && (front + es[k..])[k := e] == front + [e] + es[k + 1..]
  {}

  ghost predicate Shows(ns: seq<Node>, es: seq<Entry>)
    reads ns, Responses(ns)
  {
    |ns| == |es| && forall i :: 0 <= i < |ns| ==> ns[i].View() == es[i]
  }

  lemma TickStep(es: seq<Entry>)
    requires es != []
    ensures Survivors(es) == (if Leaves(es[0]) then [] else [es[0]]) + Survivors(es[1..])
    ensures TickEffects(es) == (if Leaves(es[0]) then LeaveEffects(es[0]) else []) + TickEffects(es[1..])
    ensures es[0].res.None? ==> LeaveEffects(es[0]) == []
  {}

  lemma CleanupStep(ns: seq<Node>)
    requires ns != []
    ensures CleanupEffects(Views(ns))
            == [FreeRequest(ns[0].req)] + (if ns[0].res != null then [FreeResponse(ns[0].res.id)] else [])
               + CleanupEffects(Views(ns[1..]))
  {
    assert ([ns[0].View()] + Views(ns[1..]))[1..] == Views(ns[1..]);
  }

  lemma CleanupEnds()
    ensures CleanupEffects(Views([])) == [] && Views([]) == []
  {}

  lemma TickEnds()
    ensures Survivors([]) == [] && TickEffects([]) == []
  {}

  class PendingList {
    var head: Node?
    /** The nodes of the list in order. */
    ghost var spine: seq<Node>

    ghost predicate Valid()
      reads this, spine
    {
      && head == NodeAt(spine, 0)
      && (forall i :: 0 <= i < |spine| ==> Linked(spine, i))
      && Distinct(spine)
    }

    static ghost function NodeAt(ns: seq<Node>, i: nat): Node? {
      if i < |ns| then ns[i] else null
    }

    static ghost predicate Linked(ns: seq<Node>, i: nat)
      requires i < |ns|
      reads ns[i]
    {
      ns[i].next == NodeAt(ns, i + 1)
    }

    /** No node and no response is in the list twice. */
    static ghost predicate Distinct(ns: seq<Node>) {
      forall i, j :: 0 <= i < j < |ns| ==> ns[i] != ns[j] && (ns[i].res == null || ns[i].res != ns[j].res)
    }

    static lemma Separate(ns: seq<Node>, i: nat, k: nat)
      requires Distinct(ns) && i < |ns| && k < |ns| && i != k
      ensures ns[i] != ns[k] && (ns[i].res == null || ns[i].res != ns[k].res)
    {}

    static lemma DistinctWithout(kept: seq<Node>, rest: seq<Node>)
      requires rest != [] && Distinct(kept + rest)
      ensures Distinct(kept + rest[1..])
    {
      var was, now, n := kept + rest, kept + rest[1..], |kept|;
      forall i, j | 0 <= i < j < |now|
        ensures now[i] != now[j] && (now[i].res == null || now[i].res != now[j].res)
      {
        var i', j' := if i < n then i else i + 1, if j < n then j else j + 1;
        assert now[i] == was[i'] && now[j] == was[j'];
      }
    }

    ghost function Entries(): seq<Entry>
      reads this, spine, Responses(spine)
    {
      Views(spine)
    }

    constructor ()
      ensures Valid() && Entries() == [] && spine == []
    {
      head, spine := null, [];
    }

    /** cweb_add_pending_response */
    method Add(req: nat, res: Response?, bev: nat)
      requires Valid() && (res == null || res !in Responses(spine))
      modifies this
      ensures Valid() && spine != [] && spine[1..] == old(spine) && fresh(spine[0]) && spine[0].res == res
      ensures Entries() == [Entry(req, if res == null then None
                                       else Some(ResponseView(res.id, res.processed, res.asyncCancel)),
                                  Some(bev), false)] + old(Entries())
    {
      ViewsAre(spine);
      var pending := new Node(req, res, bev, head);
      head := pending;
      spine := [pending] + spine;
      assert spine[1..] == old(spine);
      ViewsAre(spine[1..]);
      assert forall i :: 0 <= i < |spine[1..]| ==> Views(spine[1..])[i] == old(Entries())[i];
      forall i | 0 <= i < |spine|
        ensures Linked(spine, i)
      {
        assert i > 0 ==> old(Linked(spine, i - 1)) && spine[i] == old(spine)[i - 1];
      }
    }

    /** Cancel the node at position k; the others do not change. */
    method CancelAt(node: Node, bev: nat, ghost k: nat) returns (effects: seq<Effect>, next: Node?)
      requires Valid() && k < |spine| && node == spine[k]
      modifies node, node.res
      ensures Valid() && next == NodeAt(spine, k + 1) && |Entries()| == |spine| == |old(Entries())|
      ensures Entries() == old(Entries())[k := CancelEntry(old(Entries())[k], bev)]
      ensures effects == CancelEffect(old(Entries())[k], bev)
    {
      hide CancelEntry, CancelEffect, Distinct, Views;
      ghost var before := Entries();
      ViewsAre(spine);
      assert Linked(spine, k);
      effects := node.CancelFor(bev);
      next := node.next;
      forall i | 0 <= i < |spine|
        ensures Linked(spine, i) && spine[i].View() == if i == k then CancelEntry(before[k], bev) else before[i]
      {
        assert old(Linked(spine, i));
        if i != k {
          Separate(spine, i, k);
        }
      }
      ViewsAre(spine);
    }

    lemma HeadIsFirst()
      requires Valid()
      ensures head == NodeAt(spine, 0) && |Entries()| == |spine|
    {
      hide Linked, Distinct, Views;
      ViewsAre(spine);
    }

    /** One round of the loop below, when the first k entries of the list are done. */
    method CancelNext(node: Node, bev: nat, ghost before: seq<Entry>, ghost k: nat)
        returns (effects: seq<Effect>, next: Node?)
      requires Valid() && k < |spine| == |before| && node == spine[k]
      requires Entries() == Cancelled(before[..k], bev) + before[k..]
      modifies node, node.res
      ensures Valid() && next == NodeAt(spine, k + 1)
      ensures Entries() == Cancelled(before[..k + 1], bev) + before[k + 1..]
      ensures CancelEffects(before[..k], bev) + effects == CancelEffects(before[..k + 1], bev)
    {
      hide CancelEntry, CancelEffect, Cancelled, CancelEffects, Views, Valid;
      CancelMore(before, k, bev);
      effects, next := CancelAt(node, bev, k);
    }

    /** cweb_cancel_pending_responses: the connection is about to be freed. */
    method CancelAll(bev: nat) returns (effects: seq<Effect>)
      requires Valid()
      modifies spine, Responses(spine)
      ensures Valid() && spine == old(spine)
      ensures Entries() == Cancelled(old(Entries()), bev) && effects == CancelEffects(old(Entries()), bev)
    {
      hide CancelEntry, CancelEffect, Distinct, Cancelled, CancelEffects, Views, Linked, Valid;
      ghost var before := Entries();
      HeadIsFirst();
      CancelStarts(before, bev);
      effects := [];
      var current := head;
      ghost var k := 0;
      while current != null
        invariant k <= |spine| && current == NodeAt(spine, k) && Valid() && |before| == |spine|
        invariant Entries() == Cancelled(before[..k], bev) + before[k..]
        invariant effects == CancelEffects(before[..k], bev)
        decreases |spine| - k
      {
        var fired;
        fired, current := CancelNext(current, bev, before, k);
        effects := effects + fired;
        k := k + 1;
      }
      CancelEnds(before, k, bev);
    }

    /** The link that is read and changed: the head, or the `next` of a node. */
    function Link(previous: Node?): Node?
      reads this, previous
    {
      if previous == null then head else previous.next
    }

    /** The walk stands between `kept` and `rest`, and the nodes show these entries. */
    ghost predicate Between(previous: Node?, kept: seq<Node>, rest: seq<Node>, keptViews: seq<Entry>,
        restViews: seq<Entry>)
      reads this, spine, kept, rest, Responses(kept), Responses(rest)
    {
      && Valid() && spine == kept + rest
      && previous == (if kept == [] then null else kept[|kept| - 1])
      && Shows(kept, keptViews) && Shows(rest, restViews)
    }

    lemma LinkIs(previous: Node?, kept: seq<Node>, rest: seq<Node>, keptViews: seq<Entry>, restViews: seq<Entry>)
      requires Between(previous, kept, rest, keptViews, restViews)
      ensures Link(previous) == if rest == [] then null else rest[0]
      ensures previous == if kept == [] then null else kept[|kept| - 1]
      ensures rest == [] ==> spine == kept
      ensures |rest| == |restViews|
      ensures rest != [] ==> rest[0].View() == restViews[0] && (previous == null || previous in spine)
    {
      var n := |kept|;
      if n > 0 {
        assert spine[n - 1] == previous && Linked(spine, n - 1);
      }
    }

    method Advance(previous: Node?, ghost kept: seq<Node>, ghost rest: seq<Node>, ghost keptViews: seq<Entry>,
        ghost restViews: seq<Entry>)
      returns (next: Node?)
      requires Between(previous, kept, rest, keptViews, restViews) && rest != []
      ensures next != null && Between(next, kept + [rest[0]], rest[1..], keptViews + [restViews[0]], restViews[1..])
    {
      LinkIs(previous, kept, rest, keptViews, restViews);
      next := Link(previous);
      assert spine == kept + [rest[0]] + rest[1..];
    }

    /** Take the node that the link leads to out of the list. */
    method Unlink(previous: Node?, ghost kept: seq<Node>, ghost rest: seq<Node>, ghost keptViews: seq<Entry>,
        ghost restViews: seq<Entry>)
      requires Between(previous, kept, rest, keptViews, restViews) && rest != []
      modifies this, previous
      ensures Between(previous, kept, rest[1..], keptViews, restViews[1..])
      ensures rest[0].View() == restViews[0]
    {
      hide Distinct;
      LinkIs(previous, kept, rest, keptViews, restViews);
      DistinctWithout(kept, rest);
      ghost var was, n := spine, |kept|;
      assert was[n] == rest[0] && Linked(was, n) && NodeAt(was, n + 1) == NodeAt(rest, 1);
      forall i | 0 <= i < |rest|
        ensures rest[i] != previous
      {
        if n > 0 {
          Separate(was, n - 1, n + i);
        }
      }
      var pending := Link(previous);
      spine := kept + rest[1..];
      if previous == null {
        head := pending.next;
      } else {
        previous.next := pending.next;
      }
      forall i | 0 <= i < |spine|
        ensures Linked(spine, i)
      {
        ghost var j := if i < n then i else i + 1;
        assert spine[i] == was[j] && old(Linked(was, j));
        if n > 0 && i != n - 1 {
          Separate(was, j, n - 1);
        }
        assert i + 1 < |spine| ==> spine[i + 1] == was[if i + 1 < n then i + 1 else i + 2];
      }
    }

    /** The loop body of the timer callback: unlink a finished node, or step over it. */
    method CheckNext(previous: Node?, ghost kept: seq<Node>, ghost rest: seq<Node>, ghost keptViews: seq<Entry>,
        ghost restViews: seq<Entry>)
      returns (previous': Node?, effects: seq<Effect>, ghost kept': seq<Node>, ghost keptViews': seq<Entry>)
      requires Between(previous, kept, rest, keptViews, restViews) && rest != []
      modifies this, previous
      ensures Between(previous', kept', rest[1..], keptViews', restViews[1..])
      ensures kept' == kept || kept' == kept + [rest[0]]
      ensures keptViews' + Survivors(restViews[1..]) == keptViews + Survivors(restViews)
      ensures effects + TickEffects(restViews[1..]) == TickEffects(restViews)
    {
      hide Valid, Between, Survivors, TickEffects, LeaveEffects, Shows, Distinct;
      LinkIs(previous, kept, rest, keptViews, restViews);
      TickStep(restViews);
      previous', kept', keptViews' := previous, kept, keptViews;
      effects := [];
      var pending := Link(previous);
      if pending.res == null {
        Unlink(previous, kept, rest, keptViews, restViews);
      } else if pending.res.processed {
        Unlink(previous, kept, rest, keptViews, restViews);
        effects := pending.Answer();
      } else {
        previous' := Advance(previous, kept, rest, keptViews, restViews);
        kept', keptViews' := kept + [rest[0]], keptViews + [restViews[0]];
      }
    }

    /** check_pending_responses, the timer callback. The C code walks with the address of the
        link to be changed: the head, or the `next` of the node `previous`. */
    method Check() returns (effects: seq<Effect>)
      requires Valid()
      modifies this, spine
      ensures Valid() && forall n :: n in spine ==> n in old(spine)
      ensures Entries() == Survivors(old(Entries())) && effects == TickEffects(old(Entries()))
    {
      hide Valid, Between, Survivors, TickEffects, LeaveEffects, Shows, Distinct;
      ghost var before := Entries();
      Starts();
      effects := [];
      var previous: Node? := null;
      ghost var kept: seq<Node>, keptViews, rest, restViews := [], [], spine, before;
      LinkIs(previous, kept, rest, keptViews, restViews);
      while Link(previous) != null
        invariant Between(previous, kept, rest, keptViews, restViews)
        invariant Link(previous) == null <==> rest == []
        invariant forall n :: n in kept || n in rest ==> n in old(spine)
        invariant previous != null ==> previous in old(spine)
        invariant keptViews + Survivors(restViews) == Survivors(before)
        invariant effects + TickEffects(restViews) == TickEffects(before)
        decreases |rest|
      {
        LinkIs(previous, kept, rest, keptViews, restViews);
        var more;
        ghost var tail := TickEffects(restViews[1..]);
        previous, more, kept, keptViews := CheckNext(previous, kept, rest, keptViews, restViews);
        assert effects + (more + tail) == effects + more + tail;
        effects := effects + more;
        rest, restViews := rest[1..], restViews[1..];
        LinkIs(previous, kept, rest, keptViews, restViews);
      }
      TickEnds();
      Ends(previous, kept, rest, keptViews, restViews);
    }

    lemma Starts()
      requires Valid()
      ensures Between(null, [], spine, [], Entries())
    {
      ViewsAre(spine);
      assert spine == [] + spine;
    }

    lemma Ends(previous: Node?, kept: seq<Node>, rest: seq<Node>, keptViews: seq<Entry>, restViews: seq<Entry>)
      requires Between(previous, kept, rest, keptViews, restViews) && rest == []
      ensures restViews == [] && Valid() && spine == kept && Entries() == keptViews
    {
      ViewsAre(kept);
      assert spine == kept;
    }

    method PopHead() returns (pending: Node)
      requires Valid() && head != null
      modifies this
      ensures Valid() && old(spine) != [] && spine == old(spine)[1..] && pending == old(spine)[0]
      ensures Views(spine) == old(Views(spine[1..]))
    {
      hide Distinct, Views;
      pending := head;
      ghost var rest := spine[1..];
      TailIsList(spine);
      ViewsAre(rest);
      head := pending.next;
      spine := rest;
      ViewsAre(spine);
      assert forall i :: 0 <= i < |rest| ==> Views(rest)[i] == old(Views(spine[1..]))[i];
    }

    static lemma TailIsList(ns: seq<Node>)
      requires ns != [] && Distinct(ns) && forall i :: 0 <= i < |ns| ==> Linked(ns, i)
      ensures Distinct(ns[1..]) && ns[0].next == NodeAt(ns[1..], 0)
      ensures forall i :: 0 <= i < |ns[1..]| ==> Linked(ns[1..], i)
    {
      hide Distinct;
      assert Linked(ns, 0) && [] + ns == ns && [] + ns[1..] == ns[1..];
      DistinctWithout([], ns);
      forall i | 0 <= i < |ns[1..]|
        ensures Linked(ns[1..], i)
      {
        assert Linked(ns, i + 1);
      }
    }

    /** cweb_cleanup_pending_responses */
    method Cleanup() returns (effects: seq<Effect>)
      requires Valid()
      modifies this
      ensures Valid() && Entries() == [] && effects == CleanupEffects(old(Entries()))
    {
      hide Views, CleanupEffects, Distinct, Linked;
      effects := [];
      while head != null
        invariant Valid()
        invariant effects + CleanupEffects(Views(spine)) == CleanupEffects(old(Entries()))
        decreases |spine|
      {
        CleanupStep(spine);
        var pending := PopHead();
        effects := effects + [FreeRequest(pending.req)];
        if pending.res != null {
          effects := effects + [FreeResponse(pending.res.id)];
        }
      }
      assert spine == [];
      CleanupEnds();
    }
  }
}
