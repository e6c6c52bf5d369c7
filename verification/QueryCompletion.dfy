/** The aggregator and the database driver together: one query, from its start to the
    report of completion. */
module QueryCompletion {
  import opened Text
  import opened Aggregator
  import MariaDb
  import MariaDbRuns

  /** Whether the query has called back, and with a result. */
  function Reported(q: MariaDb.Query): Option<bool> {
    if q.log != [] && q.log[0].Callback? then Some(q.log[0].outcome.Success?) else None
  }

  /** The answers that come after the start, as the aggregator sees them: nothing until the
      driver calls back. */
  function Later(q: MariaDb.Query, answers: seq<MariaDb.Answer>): seq<Action>
    decreases |answers|
  {
    if answers == [] then []
    else
      var q' := MariaDb.Step(q, answers[0]);
      (if Reported(q).None? && Reported(q').Some? then [Answer(Database, Reported(q').value)] else [])
      + Later(q', answers[1..])
  }

  /** mariadb_async_query drives the query at once: `first` are the answers it gets before
      it returns, and `later` those of the events that follow. */
  function QueryActions(prepared: bool, first: seq<MariaDb.Answer>, later: seq<MariaDb.Answer>): seq<Action> {
    var q := MariaDb.Run(MariaDb.Prepare(prepared), first);
    [Begin(Database, Accepted(Reported(q)))] + Later(q, later)
  }

  lemma ReportedIffOver(prepared: bool, answers: seq<MariaDb.Answer>)
    ensures var q := MariaDb.Run(MariaDb.Prepare(prepared), answers); Reported(q).Some? <==> MariaDb.Over(q)
  {
    MariaDbRuns.CallbackThenFree(prepared, answers);
  }

  lemma OverStays(q: MariaDb.Query, a: MariaDb.Answer)
    requires Reported(q).Some?
    ensures MariaDb.Step(q, a) == q
  {}

  lemma {:induction false} NothingLater(q: MariaDb.Query, answers: seq<MariaDb.Answer>)
    requires Reported(q).Some?
    ensures Later(q, answers) == [] && MariaDb.Run(q, answers) == q
    decreases |answers|
  {
    if answers != [] {
      OverStays(q, answers[0]);
      NothingLater(q, answers[1..]);
      RunFirst(q, answers);
      hide MariaDb.Step;
    }
  }

  lemma RunFirst(q: MariaDb.Query, answers: seq<MariaDb.Answer>)
    requires answers != []
    ensures MariaDb.Run(q, answers) == MariaDb.Run(MariaDb.Step(q, answers[0]), answers[1..])
  {
    assert answers == [answers[0]] + answers[1..];
    MariaDb.RunConcat(q, [answers[0]], answers[1..]);
    assert [answers[0]][..0] == [];
    assert MariaDb.Run(q, [answers[0]]) == MariaDb.Step(MariaDb.Run(q, []), answers[0]);
  }

  /** Whatever the library answers, the driver calls back once at most. */
  lemma {:induction false} LaterIsOneCallback(q: MariaDb.Query, answers: seq<MariaDb.Answer>)
    requires Reported(q).None?
    ensures var r := Reported(MariaDb.Run(q, answers));
            Later(q, answers) == if r.Some? then [Answer(Database, r.value)] else []
    decreases |answers|
  {
    if answers != [] {
      var q' := MariaDb.Step(q, answers[0]);
      RunFirst(q, answers);
      hide MariaDb.Step, MariaDb.Run;
      if Reported(q').Some? {
        NothingLater(q', answers[1..]);
      } else {
        LaterIsOneCallback(q', answers[1..]);
      }
    }
  }

  /** An aggregator with one query, for every sequence of library answers: nothing is
      outstanding exactly when the driver is over, completion is then reported, once, and
      the data hold a result exactly when the query has succeeded. */
  lemma QueryCompletes(prepared: bool, first: seq<MariaDb.Answer>, later: seq<MariaDb.Answer>)
    ensures var q := MariaDb.Run(MariaDb.Prepare(prepared), first + later);
            var w := Run(true, QueryActions(prepared, first, later));
            && w.machine.pending == Outstanding(w) == (if MariaDb.Over(q) then 0 else 1)
            && w.machine.completions
               == if MariaDb.Over(q) then [Data(false, Reported(q) == Some(true), false, Reported(q) == Some(false))]
                 else []
  {
    hide MariaDb.Step, MariaDb.Run, MariaDb.Prepare, MariaDb.Over, Later, Reported, Run;
    var q := MariaDb.Run(MariaDb.Prepare(prepared), first);
    MariaDb.RunConcat(MariaDb.Prepare(prepared), first, later);
    ReportedIffOver(prepared, first + later);
    var start := Reported(q);
    if start.Some? {
      NothingLater(q, later);
      OneAction(start.value);
      assert [Begin(Database, Accepted(start))] + [] == [Begin(Database, Accepted(start))];
    } else {
      LaterIsOneCallback(q, later);
      OneStart();
      var r := Reported(MariaDb.Run(q, later));
      if r.Some? {
        StartAndAnswer(r.value);
        assert [Begin(Database, Accepted(None))] + [Answer(Database, r.value)]
               == [Begin(Database, Accepted(None)), Answer(Database, r.value)];
      } else {
        assert [Begin(Database, Accepted(None))] + [] == [Begin(Database, Accepted(None))];
      }
    }
  }

  lemma OneStep(a: Action)
    ensures Run(true, [a]) == Step(World(Fresh(true), 0, 0), a)
  {
    assert [a][..0] == [];
  }

  lemma OneAction(ok: bool)
    ensures Run(true, [Begin(Database, Accepted(Some(ok)))])
            == World(Machine(true, 0, true, Data(false, ok, false, !ok), [Data(false, ok, false, !ok)]), 0, 0)
  {
    OneStep(Begin(Database, Accepted(Some(ok))));
    hide Run;
  }

  lemma OneStart()
    ensures Run(true, [Begin(Database, Accepted(None))])
            == World(Machine(true, 1, false, Data(false, false, false, false), []), 0, 1)
  {
    OneStep(Begin(Database, Accepted(None)));
    hide Run;
  }

  lemma StartAndAnswer(ok: bool)
    ensures Run(true, [Begin(Database, Accepted(None)), Answer(Database, ok)])
            == World(Machine(true, 0, true, Data(false, ok, false, !ok), [Data(false, ok, false, !ok)]), 0, 0)
  {
    var start, answer := Begin(Database, Accepted(None)), Answer(Database, ok);
    hide Run;
    OneStart();
    RunStep(true, [start, answer]);
    assert [start, answer][..1] == [start];
  }
}
