/** Every run of the MariaDB driver, for every sequence of library answers. */
module MariaDbRuns {
  import opened Text
  import opened MariaDb

  // -------------------------------------------------------------------- the protocol

  /** A call is continued directly after a call of the same operation that asked to wait,
      and started otherwise. */
  predicate Protocol(calls: seq<Call>) {
    forall k :: 0 <= k < |calls| ==> Legal(calls, k)
  }

  predicate Legal(calls: seq<Call>, k: nat)
    requires k < |calls|
  {
    if calls[k].start then k == 0 || !calls[k - 1].waits
    else k > 0 && calls[k - 1].waits && calls[k - 1].state == calls[k].state
  }

  predicate WaitsAsCalled(q: Query) {
    var n := |q.calls|;
    if q.waiting then n > 0 && q.calls[n - 1].waits && q.calls[n - 1].state == q.state
    else n == 0 || !q.calls[n - 1].waits
  }

  /** The library protocol is kept whatever the library answers. */
  lemma {:induction false} ProtocolIsKept(prepared: bool, answers: seq<Answer>)
    ensures var q := Run(Prepare(prepared), answers); Protocol(q.calls) && (!Over(q) ==> WaitsAsCalled(q))
    decreases |answers|
  {
    if answers != [] {
      var init, a := answers[..|answers| - 1], answers[|answers| - 1];
      ProtocolIsKept(prepared, init);
      hide Protocol, WaitsAsCalled, Step;
      ProtocolStep(Run(Prepare(prepared), init), a);
    }
  }

  lemma ProtocolStep(q: Query, a: Answer)
    requires Protocol(q.calls) && (!Over(q) ==> WaitsAsCalled(q))
    ensures var q' := Step(q, a); Protocol(q'.calls) && (!Over(q') ==> WaitsAsCalled(q'))
  {
    if !Over(q) {
      var called := q.(calls := q.calls + [Call(q.state, !q.waiting, a.wait > 0)], watching := false);
      DoneKeeps(called, a);
      hide Done;
      forall k | 0 <= k < |called.calls|
        ensures Legal(called.calls, k)
      {
        assert k < |q.calls| ==> Legal(q.calls, k);
      }
    }
  }

  // --------------------------------------------------------------------- the callback

  /** The callback runs at most once, directly before the only free of the context. */
  lemma {:induction false} CallbackThenFree(prepared: bool, answers: seq<Answer>)
    ensures var q := Run(Prepare(prepared), answers);
            q.log == [] || exists o :: q.log == [Callback(o), FreeContext]
    decreases |answers|
  {
    if answers != [] {
      CallbackThenFree(prepared, answers[..|answers| - 1]);
      hide Done;
      var q, a := Run(Prepare(prepared), answers[..|answers| - 1]), answers[|answers| - 1];
      if !Over(q) {
        DoneKeeps(q.(calls := q.calls + [Call(q.state, !q.waiting, a.wait > 0)], watching := false), a);
      }
    }
  }

  lemma DoneKeeps(q: Query, a: Answer)
    ensures Done(q, a).log == q.log && Done(q, a).calls == q.calls && !Done(q, a).waiting
  {}

  // -------------------------------------------------------------------- the blocking query

  /** The completed calls among the answers. */
  function Completed(answers: seq<Answer>): seq<Answer>
    decreases |answers|
  {
    if answers == [] then []
    else
      var a := answers[|answers| - 1];
      Completed(answers[..|answers| - 1]) + if a.wait == 0 then [a] else []
  }

  datatype Fetch = Fetch(rows: seq<Row>, ended: bool)

  /** Fetch rows until the library has no more. */
  function FetchAll(f: seq<Answer>): Fetch
    decreases |f|
  {
    if f == [] then Fetch([], false)
    else
      var before, a := FetchAll(f[..|f| - 1]), f[|f| - 1];
      if before.ended then before
      else if a.row.None? then before.(ended := true)
      else before.(rows := before.rows + [a.row.value])
  }

  /** The same query against a library whose calls never wait: connect, query, store the
      result, fetch all rows. None: the answers are not enough. */
  function Blocking(b: seq<Answer>): Option<Outcome> {
    if |b| < 1 then None
    else if !b[0].ok then Some(Failure)
    else if |b| < 2 then None
    else if !b[1].ok then Some(Failure)
    else if b[1].fields == 0 then Some(Success([], [], b[1].affected))
    else if |b| < 3 then None
    else if !b[2].hasResult then Some(if b[2].errno != 0 then Failure else Success([], [], 0))
    else
      var f := FetchAll(b[3..]);
      if f.ended then Some(Success(b[2].columns, f.rows, 0)) else None
  }

  /** What has been completed so far, told by the state of the driver. */
  predicate Reached(q: Query, b: seq<Answer>) {
    match q.state
    case Connecting => b == [] && q.columns == [] && q.rows == [] && q.affected == 0
    case Querying => |b| == 1 && b[0].ok && q.columns == [] && q.rows == [] && q.affected == 0
    case StoringResult =>
      |b| == 2 && b[0].ok && b[1].ok && b[1].fields != 0 && q.columns == [] && q.rows == [] && q.affected == 0
    case FetchingRows =>
      && |b| >= 3 && b[0].ok && b[1].ok && b[1].fields != 0 && b[2].hasResult && q.columns == b[2].columns
      && FetchAll(b[3..]) == Fetch(q.rows, false) && q.affected == 0
    case _ => false
  }

  predicate AllWatched(answers: seq<Answer>) {
    forall k :: 0 <= k < |answers| && answers[k].wait > 0 ==> answers[k].watched
  }

  lemma {:induction false} BlockingIsStable(b: seq<Answer>, a: Answer)
    requires Blocking(b).Some?
    ensures Blocking(b + [a]) == Blocking(b)
  {
    if |b| >= 3 {
      assert (b + [a])[3..][..|b| - 3] == b[3..];
    }
  }

  lemma OneMoreFetch(b: seq<Answer>, a: Answer)
    requires |b| >= 3
    ensures (b + [a])[3..] == b[3..] + [a] && (b[3..] + [a])[..|b[3..]|] == b[3..]
    ensures FetchAll((b + [a])[3..]) ==
            (var before := FetchAll(b[3..]);
             if before.ended then before
             else if a.row.None? then before.(ended := true)
             else before.(rows := before.rows + [a.row.value]))
  {
    var f := b[3..] + [a];
    assert (b + [a])[3..] == f && f[..|f| - 1] == b[3..];
  }

  predicate Agrees(q: Query, b: seq<Answer>) {
    if Over(q) then |q.log| > 0 && q.log[0].Callback? && Blocking(b) == Some(q.log[0].outcome)
    else Blocking(b) == None && Reached(q, b)
  }

  lemma DoneAgrees(q: Query, b: seq<Answer>, a: Answer)
    requires !Over(q) && a.wait == 0 && Agrees(q, b)
    ensures Agrees(Step(q, a), b + [a])
  {
    if q.state == FetchingRows {
      OneMoreFetch(b, a);
    }
  }

  /** The driver refines the blocking query: as long as every wait is watched, the events
      in between change nothing, and a success delivers exactly the rows fetched, in
      order. */
  lemma {:induction false} DriverRefinesBlocking(answers: seq<Answer>)
    requires AllWatched(answers)
    ensures Agrees(Run(Prepare(true), answers), Completed(answers))
    decreases |answers|
  {
    if answers != [] {
      var init, a := answers[..|answers| - 1], answers[|answers| - 1];
      DriverRefinesBlocking(init);
      var q, b := Run(Prepare(true), init), Completed(init);
      assert b + [] == b;
      if Over(q) {
        if a.wait == 0 {
          BlockingIsStable(b, a);
        }
      } else if a.wait > 0 {
        assert a.watched;
        hide Blocking, FetchAll;
      } else {
        DoneAgrees(q, b, a);
      }
      hide Agrees, Step;
    }
  }

  /** A query that is not over has fetched a row for every completed call but the first
      three: with finitely many rows it ends after finitely many completed calls. */
  lemma {:induction false} EveryCallCounts(answers: seq<Answer>)
    requires AllWatched(answers)
    ensures var q := Run(Prepare(true), answers);
            !Over(q) ==> |Completed(answers)| <= 3 + |q.rows|
  {
    DriverRefinesBlocking(answers);
    var b := Completed(answers);
    if |b| > 3 {
      OpenFetch(b[3..]);
    }
  }

  lemma {:induction false} OpenFetch(f: seq<Answer>)
    ensures !FetchAll(f).ended ==> |FetchAll(f).rows| == |f|
    decreases |f|
  {
    if f != [] {
      OpenFetch(f[..|f| - 1]);
    }
  }

  /** A connection that cannot be prepared, or a wait that the event loop refuses, fails
      the query. */
  lemma {:induction false} RefusalFails(answers: seq<Answer>, prepared: bool, a: Answer)
    requires !Over(Run(Prepare(prepared), answers)) && a.wait > 0 && !a.watched
    ensures Run(Prepare(prepared), answers + [a]).log == [Callback(Failure), FreeContext]
    ensures Run(Prepare(false), answers).log == [Callback(Failure), FreeContext]
    decreases |answers|
  {
    RunMore(Prepare(prepared), answers, a);
    NotPrepared(answers);
  }

  lemma {:induction false} NotPrepared(answers: seq<Answer>)
    ensures Run(Prepare(false), answers) == Prepare(false)
    decreases |answers|
  {
    if answers != [] {
      NotPrepared(answers[..|answers| - 1]);
    }
  }
}
