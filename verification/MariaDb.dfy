/** The non-blocking MariaDB driver. The client library is a stream of answers; the
    specification reads one answer at a time, the driver loop runs until the library
    asks it to wait or the query is over. */
module MariaDb {
  import opened Text

  type Row = seq<Option<string>>

  datatype State = Init | Connecting | Querying | StoringResult | FetchingRows | Finished | Error

  /** What one call of the library reports: the events to wait for (0 when it is done),
      and the results of the call that are read when it is done. `watched` says whether
      the event loop then accepts the watcher. */
  datatype Answer = Answer(wait: nat, watched: bool, ok: bool, fields: nat, affected: nat,
                           hasResult: bool, errno: nat, columns: seq<string>, row: Option<Row>)

  datatype Outcome = Success(columns: seq<string>, rows: seq<Row>, affected: nat) | Failure

  datatype Event = Callback(outcome: Outcome) | FreeContext

  /** A library call of the driver: which operation, started or continued, and whether it
      asked to wait. */
  datatype Call = Call(state: State, start: bool, waits: bool)

  datatype Query = Query(state: State, waiting: bool, watching: bool, columns: seq<string>, rows: seq<Row>,
                         affected: nat, calls: seq<Call>, log: seq<Event>)

  const FRESH: Query := Query(Init, false, false, [], [], 0, [], [])

  predicate Over(q: Query) {
    q.log != []
  }

  // -------------------------------------------------------------- the specification

  /** mariadb_async_finish */
  function HandOver(q: Query, success: bool): Query {
    q.(log := q.log + [Callback(if success then Success(q.columns, q.rows, q.affected) else Failure), FreeContext],
       watching := false)
  }

  /** The library call of the current step has been made and asks to wait. */
  function Wait(q: Query, watched: bool): Query {
    var w := q.(waiting := true);
    if watched then w.(watching := true) else HandOver(w.(state := Error), false)
  }

  /** The library call of the current step is done: the rest of its step function. */
  function Done(q: Query, a: Answer): Query {
    var d := q.(waiting := false);
    match q.state
    case Connecting => if a.ok then d.(state := Querying) else d.(state := Error)
    case Querying =>
      if !a.ok then d.(state := Error)
      else if a.fields == 0 then d.(affected := a.affected, state := Finished)
      else d.(state := StoringResult)
    case StoringResult =>
      if a.hasResult then d.(columns := a.columns, state := FetchingRows)
      else if a.errno != 0 then d.(state := Error)
      else d.(state := Finished)
    case FetchingRows =>
      if a.row.None? then d.(state := Finished) else d.(rows := q.rows + [a.row.value])
    case _ => d
  }

  /** After the loop has reached one of the last states. */
  function Close(q: Query): Query {
    if q.state == Finished then HandOver(q, true) else if q.state == Error then HandOver(q, false) else q
  }

  /** mariadb_async_prepare_connection and the first turn of the loop. */
  function Prepare(prepared: bool): Query {
    Close(if prepared then FRESH.(state := Connecting) else FRESH.(state := Error))
  }

  /** The driver reads one answer of the library. */
  function Step(q: Query, a: Answer): Query {
    if Over(q) then q
    else
      var called := q.(calls := q.calls + [Call(q.state, !q.waiting, a.wait > 0)], watching := false);
      if a.wait > 0 then Wait(called, a.watched) else Close(Done(called, a))
  }

  /** All the answers of a query, however many events apart they come. */
  function Run(q: Query, answers: seq<Answer>): Query
    decreases |answers|
  {
    if answers == [] then q else Step(Run(q, answers[..|answers| - 1]), answers[|answers| - 1])
  }

  lemma {:induction false} RunConcat(q: Query, a: seq<Answer>, b: seq<Answer>)
    ensures Run(q, a + b) == Run(Run(q, a), b)
  {
    if b == [] {
      assert a + b == a;
    } else {
      var n := |b| - 1;
      assert (a + b)[..|a + b| - 1] == a + b[..n] && (a + b)[|a + b| - 1] == b[n];
      RunConcat(q, a, b[..n]);
    }
  }

  // ------------------------------------------------------------------ the driver loop

  function Rank(state: State): nat {
    match state
    case Init => 5
    case Connecting => 4
    case Querying => 3
    case StoringResult => 2
    case FetchingRows => 1
    case _ => 0
  }

  /** The client library: it may answer anything, but every result set has finitely many
      rows. A call may be continued only while it is pending, and another one started
      only while none is. */
  class Library {
    var pending: Option<State>
    var rowsLeft: nat

    constructor (rows: nat)
      ensures pending == None && rowsLeft == rows
    {
      pending, rowsLeft := None, rows;
    }

    method Ask(state: State, start: bool, io: nat) returns (a: Answer)
      requires pending == if start then None else Some(state)
      modifies this
      ensures pending == if a.wait > 0 then Some(state) else None
      ensures rowsLeft + (if state == FetchingRows && a.wait == 0 && a.row.Some? then 1 else 0) == old(rowsLeft)
    {
      a := *;
      if state == FetchingRows && a.wait == 0 && a.row.Some? {
        if rowsLeft == 0 {
          a := a.(row := None);
        } else {
          rowsLeft := rowsLeft - 1;
        }
      }
      pending := if a.wait > 0 then Some(state) else None;
    }
  }

  /** MariaDBAsyncContext: `watching` is the libevent watcher; `calls` and `log` record
      what the driver has done. */
  class Context {
    const library: Library
    var state: State
    var waitingForIo: bool
    var watching: bool
    var columnNames: seq<string>
    var rows: seq<Row>
    var affectedRows: nat
    ghost var calls: seq<Call>
    ghost var log: seq<Event>

    constructor (library: Library)
      requires library.pending == None
      ensures this.library == library && Valid() && View() == FRESH
    {
      this.library := library;
      state, waitingForIo, watching := Init, false, false;
      columnNames, rows, affectedRows := [], [], 0;
      calls, log := [], [];
    }

    ghost function View(): Query
      reads this
    {
      Query(state, waitingForIo, watching, columnNames, rows, affectedRows, calls, log)
    }

    /** The library has a call pending exactly while the driver waits for one. */
    ghost predicate Valid()
      reads this, library
    {
      log == [] ==>
        && library.pending == (if waitingForIo then Some(state) else None)
        && (state == Init ==> View() == FRESH)
    }

    /** mariadb_async_finish: hand over the result, then free the context. */
    method Finish(success: bool)
      requires log == []
      modifies this
      ensures View() == HandOver(old(View()), success)
    {
      var outcome := Failure;
      if success {
        outcome := Success(columnNames, rows, affectedRows);
      }
      log := log + [Callback(outcome)];
      watching := false;
      log := log + [FreeContext];
    }

    /** mariadb_async_reschedule: `watched` is the event loop's answer. */
    method Reschedule(watched: bool)
      requires log == [] && waitingForIo && !watching
      modifies this
      ensures View() == Wait(old(View()), watched)
    {
      watching := watched;
      if !watched {
        state := Error;
        Finish(false);
      }
    }

    /** Start the library call of the current state, or continue it. */
    method Ask(io: nat) returns (a: Answer)
      requires Valid() && log == [] && Rank(state) in {1, 2, 3, 4}
      modifies this, library
      ensures View() == old(View()).(waiting := true, watching := false,
                                     calls := old(calls) + [Call(state, !old(waitingForIo), a.wait > 0)])
      ensures library.pending == if a.wait > 0 then Some(state) else None
      ensures library.rowsLeft + (if state == FetchingRows && a.wait == 0 && a.row.Some? then 1 else 0)
              == old(library.rowsLeft)
    {
      watching := false;
      var start := !waitingForIo;
      waitingForIo := true;
      a := library.Ask(state, start, io);
      calls := calls + [Call(state, start, a.wait > 0)];
    }

    method StepConnect(io: nat) returns (status: int, a: Answer)
      requires Valid() && log == [] && state == Connecting
      modifies this, library
      ensures StepIs(old(View()), a, status, library) && library.rowsLeft == old(library.rowsLeft)
    {
      a := Ask(io);
      status := a.wait;
      if status == 0 {
        waitingForIo := false;
        if !a.ok {
          return -1, a;
        }
        state := Querying;
      }
    }

    method StepQuery(io: nat) returns (status: int, a: Answer)
      requires Valid() && log == [] && state == Querying
      modifies this, library
      ensures StepIs(old(View()), a, status, library) && library.rowsLeft == old(library.rowsLeft)
    {
      a := Ask(io);
      status := a.wait;
      if status == 0 {
        waitingForIo := false;
        if !a.ok {
          return -1, a;
        }
        if a.fields == 0 {
          affectedRows := a.affected;
          state := Finished;
        } else {
          state := StoringResult;
        }
      }
    }

    method StepStore(io: nat) returns (status: int, a: Answer)
      requires Valid() && log == [] && state == StoringResult
      modifies this, library
      ensures StepIs(old(View()), a, status, library) && library.rowsLeft == old(library.rowsLeft)
    {
      a := Ask(io);
      status := a.wait;
      if status == 0 {
        waitingForIo := false;
        if !a.hasResult {
          if a.errno != 0 {
            return -1, a;
          }
          state := Finished;
          return 0, a;
        }
        columnNames := a.columns;
        state := FetchingRows;
      }
    }

    method StepFetch(io: nat) returns (status: int, a: Answer)
      requires Valid() && log == [] && state == FetchingRows
      modifies this, library
      ensures StepIs(old(View()), a, status, library)
      ensures library.rowsLeft + (if a.wait == 0 && a.row.Some? then 1 else 0) == old(library.rowsLeft)
    {
      a := Ask(io);
      status := a.wait;
      if status != 0 {
        return;
      }
      waitingForIo := false;
      if a.row.None? {
        state := Finished;
        return 0, a;
      }
      rows := rows + [a.row.value];
      return 0, a;
    }

    /** A step function has made its library call: a positive status asks to wait, a
        negative one has failed and leaves the state to the loop. */
    ghost predicate StepIs(q: Query, a: Answer, status: int, lib: Library)
      reads this, lib
    {
      lib.pending == (if status > 0 then Some(state) else None) && StepResult(q, a, status, View())
    }

    /** The switch of the driver loop. */
    method Turn(io: nat) returns (status: int, a: Answer)
      requires Valid() && log == [] && Rank(state) in {1, 2, 3, 4}
      modifies this, library
      ensures StepIs(old(View()), a, status, library)
      ensures status == 0 ==>
                || Rank(state) < old(Rank(state))
                || (state == old(state) && library.rowsLeft < old(library.rowsLeft))
    {
      if state == Connecting {
        status, a := StepConnect(io);
      } else if state == Querying {
        status, a := StepQuery(io);
      } else if state == StoringResult {
        status, a := StepStore(io);
      } else {
        status, a := StepFetch(io);
      }
    }

    /** mariadb_async_drive: called for a new query, and for every event its watcher
        reports. It returns when the query is over or waits for the next event. */
    method Drive(ioStatus: nat) returns (ghost prepared: bool, ghost trace: seq<Answer>)
      requires Valid() && log == [] && (state == Init || watching)
      requires state != Finished && state != Error
      modifies this, library
      ensures Valid()
      ensures View() == Run(if old(state) == Init then Prepare(prepared) else old(View()), trace)
      ensures log == [] ==> watching && waitingForIo && state != Finished && state != Error
    {
      hide Run, Step, Done, StepResult;
      prepared, trace := true, [];
      var io := ioStatus;
      ghost var from := View();
      RunStarts(from);
      while state != Finished && state != Error
        invariant Valid() && log == []
        invariant state == Init ==> old(state) == Init && trace == [] && View() == FRESH
        invariant state != Init ==> from == if old(state) == Init then Prepare(prepared) else old(View())
        invariant state != Init ==> Run(from, trace) == Close(View())
        decreases Rank(state), library.rowsLeft
      {
        if state == Init {
          var ok: bool := *;
          prepared, from := ok, Prepare(ok);
          RunStarts(from);
          if !ok {
            state := Error;
            break;
          }
          state := Connecting;
          waitingForIo := false;
          io := 0;
          continue;
        }
        ghost var before := View();
        var status, a := Turn(io);
        RunMore(from, trace, a);
        trace := trace + [a];
        StepMeets(before, a, status, View());
        if status == 0 {
          io := 0;
        } else if status > 0 {
          Reschedule(a.watched);
          return;
        } else {
          state := Error;
          break;
        }
      }
      Finish(state == Finished);
    }
  }

  lemma RunStarts(q: Query)
    ensures Run(q, []) == q
  {}

  lemma RunMore(q: Query, trace: seq<Answer>, a: Answer)
    ensures Run(q, trace + [a]) == Step(Run(q, trace), a)
  {
    assert (trace + [a])[..|trace|] == trace;
  }

  ghost predicate StepResult(q: Query, a: Answer, status: int, v: Query) {
    var called := q.(calls := q.calls + [Call(q.state, !q.waiting, a.wait > 0)], watching := false);
    && v.log == q.log
    && if a.wait > 0 then status == a.wait && v == called.(waiting := true)
       else
         var d := Done(called, a);
         (status == 0 || status == -1) && (status < 0 <==> d.state == Error)
         && v == d.(state := if status < 0 then q.state else d.state)
  }

  /** What a step function leaves for the loop to do. */
  lemma StepMeets(q: Query, a: Answer, status: int, v: Query)
    requires q.log == [] && Rank(q.state) in {1, 2, 3, 4} && StepResult(q, a, status, v)
    ensures v.log == [] && v.state != Init && (v.waiting <==> status > 0)
    ensures status > 0 ==>
              && a.wait > 0 && v.waiting && v.state == q.state && !v.watching
              && Step(q, a) == Wait(v, a.watched)
    ensures status == 0 ==> Step(q, a) == Close(v) && v.state != Error
    ensures status < 0 ==> Step(q, a) == Close(v.(state := Error))
  {}
}
