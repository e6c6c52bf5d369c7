/** The aggregator of asynchronous operations: it counts what is outstanding and reports
    completion when nothing is. */
module Aggregator {
  import opened Text

  datatype Source = Github | Database

  /** What has come of the operations so far. */
  datatype Data = Data(hasGithub: bool, hasDbResult: bool, fetchError: bool, dbError: bool)

  datatype Machine = Machine(hasCallback: bool, pending: nat, completed: bool, data: Data, completions: seq<Data>)

  function Fresh(hasCallback: bool): Machine {
    Machine(hasCallback, 0, false, Data(false, false, false, false), [])
  }

  function Noted(d: Data, source: Source, ok: bool): Data {
    match source
    case Github => if ok then d.(hasGithub := true) else d.(fetchError := true)
    case Database => if ok then d.(hasDbResult := true) else d.(dbError := true)
  }

  /** async_state_machine_check_completion */
  function Checked(m: Machine): Machine {
    if !m.completed && m.pending == 0 && m.hasCallback
    then m.(completed := true, completions := m.completions + [m.data])
    else m
  }

  /** The callback of an operation. */
  function CalledBack(m: Machine, source: Source, ok: bool): Machine {
    Checked(m.(data := Noted(m.data, source, ok), pending := if m.pending > 0 then m.pending - 1 else 0))
  }

  /** A start is refused; or it is accepted, and its operation may call back at once, with
      success or failure, before the start returns. */
  datatype Start = Refused | Accepted(immediate: Option<bool>)

  function Started(m: Machine, source: Source, s: Start): Machine {
    if s.Refused? then m.(data := Noted(m.data, source, false))
    else
      var counted := m.(pending := m.pending + 1);
      if s.immediate.Some? then CalledBack(counted, source, s.immediate.value) else counted
  }

  /** The machine and its data, updated in place; `completions` records the calls of the
      completion callback. */
  class AsyncStateMachine {
    const hasCallback: bool
    var pendingCount: nat
    var completed: bool
    var data: Data
    ghost var completions: seq<Data>

    /** async_state_machine_init */
    constructor (hasCallback: bool)
      ensures View() == Fresh(hasCallback)
    {
      this.hasCallback := hasCallback;
      pendingCount, completed := 0, false;
      data := Data(false, false, false, false);
      completions := [];
    }

    ghost function View(): Machine
      reads this
    {
      Machine(hasCallback, pendingCount, completed, data, completions)
    }

    method CheckCompletion()
      modifies this
      ensures View() == Checked(old(View()))
    {
      if completed {
        return;
      }
      if pendingCount == 0 && hasCallback {
        completed := true;
        completions := completions + [data];
      }
    }

    /** async_state_machine_fetch_cb */
    method FetchCallback(ok: bool)
      modifies this
      ensures View() == CalledBack(old(View()), Github, ok)
    {
      if ok {
        data := data.(hasGithub := true);
      } else {
        data := data.(fetchError := true);
      }
      if pendingCount > 0 {
        pendingCount := pendingCount - 1;
      }
      CheckCompletion();
    }

    /** async_state_machine_db_cb */
    method DbCallback(ok: bool)
      modifies this
      ensures View() == CalledBack(old(View()), Database, ok)
    {
      if ok {
        data := data.(hasDbResult := true);
      } else {
        data := data.(dbError := true);
      }
      if pendingCount > 0 {
        pendingCount := pendingCount - 1;
      }
      CheckCompletion();
    }

    /** async_state_machine_start_github_fetch; s is what the fetcher does. */
    method StartGithubFetch(s: Start) returns (r: int)
      modifies this
      ensures View() == Started(old(View()), Github, s) && r == if s.Refused? then -1 else 0
    {
      pendingCount := pendingCount + 1;
      if s.Accepted? && s.immediate.Some? {
        FetchCallback(s.immediate.value);
      }
      if s.Refused? {
        pendingCount := pendingCount - 1;
        data := data.(fetchError := true);
        return -1;
      }
      r := 0;
    }

    /** async_state_machine_start_db_query; s is what the driver does. */
    method StartDbQuery(s: Start) returns (r: int)
      modifies this
      ensures View() == Started(old(View()), Database, s) && r == if s.Refused? then -1 else 0
    {
      pendingCount := pendingCount + 1;
      if s.Accepted? && s.immediate.Some? {
        DbCallback(s.immediate.value);
      }
      if s.Refused? {
        pendingCount := pendingCount - 1;
        data := data.(dbError := true);
        return -1;
      }
      r := 0;
    }
  }

  // ----------------------------------------------------------------------------- runs

  datatype Action = Begin(source: Source, start: Start) | Answer(source: Source, ok: bool)

  /** The machine, and how many operations of each source have still to call back. */
  datatype World = World(machine: Machine, fetches: nat, queries: nat)

  function Outstanding(w: World): nat {
    w.fetches + w.queries
  }

  function Waiting(w: World, source: Source): nat {
    if source == Github then w.fetches else w.queries
  }

  function Shift(w: World, source: Source, change: int): World
    requires Waiting(w, source) + change >= 0
  {
    if source == Github then w.(fetches := w.fetches + change) else w.(queries := w.queries + change)
  }

  /** An operation calls back only when it is outstanding. */
  function Step(w: World, a: Action): World {
    match a
    case Begin(source, start) =>
      var w' := w.(machine := Started(w.machine, source, start));
      if start == Accepted(None) then Shift(w', source, 1) else w'
    case Answer(source, ok) =>
      if Waiting(w, source) == 0 then w
      else Shift(w.(machine := CalledBack(w.machine, source, ok)), source, -1)
  }

  function Run(hasCallback: bool, actions: seq<Action>): World
    decreases |actions|
  {
    if actions == [] then World(Fresh(hasCallback), 0, 0)
    else Step(Run(hasCallback, actions[..|actions| - 1]), actions[|actions| - 1])
  }

  /** The action is a callback, and leaves nothing outstanding. */
  predicate Drains(w: World, a: Action) {
    && Outstanding(Step(w, a)) == 0
    && match a
       case Begin(_, start) => start.Accepted? && start.immediate.Some?
       case Answer(source, _) => Waiting(w, source) > 0
  }

  /** Some callback among the actions left nothing outstanding. */
  predicate Drained(hasCallback: bool, actions: seq<Action>)
    decreases |actions|
  {
    actions != []
    && (var init := actions[..|actions| - 1];
        Drained(hasCallback, init) || Drains(Run(hasCallback, init), actions[|actions| - 1]))
  }

  /** The count is right in every run, and completion is reported once, with the first
      callback that leaves nothing outstanding, and not at all if there is none. */
  lemma {:induction false} CompletionIsReportedOnce(hasCallback: bool, actions: seq<Action>)
    ensures var w := Run(hasCallback, actions);
            && w.machine.hasCallback == hasCallback && w.machine.pending == Outstanding(w)
            && |w.machine.completions| == (if hasCallback && Drained(hasCallback, actions) then 1 else 0)
            && (w.machine.completed <==> w.machine.completions != [])
    decreases |actions|
  {
    if actions != [] {
      CompletionIsReportedOnce(hasCallback, actions[..|actions| - 1]);
      hide Noted;
    }
  }

  /** The outcome of a source is known. */
  predicate Known(d: Data, source: Source) {
    if source == Github then d.hasGithub || d.fetchError else d.hasDbResult || d.dbError
  }

  /** Only starts, none of which calls back at once. */
  predicate QuietStarts(actions: seq<Action>) {
    forall k :: 0 <= k < |actions| ==>
                  actions[k].Begin? && (actions[k].start.Refused? || actions[k].start.immediate.None?)
  }

  predicate OnlyAnswers(actions: seq<Action>) {
    forall k :: 0 <= k < |actions| ==> actions[k].Answer?
  }

  lemma {:induction false} StartsAreQuiet(hasCallback: bool, starts: seq<Action>)
    requires QuietStarts(starts)
    ensures !Drained(hasCallback, starts)
    decreases |starts|
  {
    if starts != [] {
      StartsAreQuiet(hasCallback, starts[..|starts| - 1]);
    }
  }

  lemma {:induction false} AnswersDrain(hasCallback: bool, starts: seq<Action>, answers: seq<Action>)
    requires QuietStarts(starts) && OnlyAnswers(answers)
    ensures Drained(hasCallback, starts + answers)
            <==> Outstanding(Run(hasCallback, starts)) > 0 && Outstanding(Run(hasCallback, starts + answers)) == 0
    ensures Outstanding(Run(hasCallback, starts + answers)) <= Outstanding(Run(hasCallback, starts))
    decreases |answers|
  {
    if answers == [] {
      assert starts + answers == starts;
      StartsAreQuiet(hasCallback, starts);
    } else {
      var init, a := answers[..|answers| - 1], answers[|answers| - 1];
      assert (starts + answers)[..|starts + answers| - 1] == starts + init
        && (starts + answers)[|starts + answers| - 1] == a;
      AnswersDrain(hasCallback, starts, init);
      hide CalledBack;
    }
  }

  /** When every start comes before the first callback, completion is reported exactly
      once, and exactly when the last accepted operation has called back. */
  lemma StartsFirst(starts: seq<Action>, answers: seq<Action>)
    requires QuietStarts(starts) && OnlyAnswers(answers)
    ensures var w := Run(true, starts + answers);
            |w.machine.completions| == if Outstanding(Run(true, starts)) > 0 && Outstanding(w) == 0 then 1 else 0
  {
    AnswersDrain(true, starts, answers);
    CompletionIsReportedOnce(true, starts + answers);
  }

  predicate Begun(actions: seq<Action>, source: Source) {
    exists k :: 0 <= k < |actions| && actions[k].Begin? && actions[k].source == source
  }

  /** Every source that was begun is outstanding, or its outcome is known. */
  lemma {:induction false} BegunIsKnown(hasCallback: bool, actions: seq<Action>, source: Source)
    requires Begun(actions, source)
    ensures var w := Run(hasCallback, actions); Waiting(w, source) > 0 || Known(w.machine.data, source)
    decreases |actions|
  {
    var init, a := actions[..|actions| - 1], actions[|actions| - 1];
    var k :| 0 <= k < |actions| && actions[k].Begin? && actions[k].source == source;
    if k < |init| {
      assert init[k] == actions[k];
      BegunIsKnown(hasCallback, init, source);
    }
    hide Run;
    StepKnows(Run(hasCallback, init), a, source);
  }

  lemma StepKnows(w: World, a: Action, source: Source)
    requires Waiting(w, source) > 0 || Known(w.machine.data, source) || (a.Begin? && a.source == source)
    ensures var w' := Step(w, a); Waiting(w', source) > 0 || Known(w'.machine.data, source)
  {}

  /** What is started before the first callback, whatever comes later: the completion
      callback sees the outcome of every source that was begun in it. */
  lemma CompletionSeesAll(starts: seq<Action>, later: seq<Action>, source: Source)
    requires QuietStarts(starts) && Begun(starts, source)
    ensures var m := Run(true, starts + later).machine;
            m.completions != [] ==> Known(m.completions[0], source)
  {
    hide Run, Drained, Drains, Outstanding, Known;
    var actions := starts + later;
    CompletionIsReportedOnce(true, actions);
    if Run(true, actions).machine.completions != [] {
      var n := DrainedHasFirst(true, actions);
      if n < |starts| {
        assert actions[n] == starts[n];
        QuietIsNoDrain(Run(true, actions[..n]), starts[n]);
      }
      BegunStays(starts, actions[..n + 1], source);
      hide FirstDrain, Begun;
      CompletionSeesIff(actions, n, source);
    }
  }

  lemma QuietIsNoDrain(w: World, a: Action)
    requires a.Begin? && (a.start.Refused? || a.start.immediate.None?)
    ensures !Drains(w, a)
  {
    hide Step;
  }

  lemma BegunStays(starts: seq<Action>, actions: seq<Action>, source: Source)
    requires starts <= actions && Begun(starts, source)
    ensures Begun(actions, source)
  {
    var k :| 0 <= k < |starts| && starts[k].Begin? && starts[k].source == source;
    assert actions[k] == starts[k];
  }

  // -------------------------------------------------- when completion comes, and what it sees

  /** Some start was accepted. */
  predicate AnyAccepted(actions: seq<Action>) {
    exists k :: 0 <= k < |actions| && actions[k].Begin? && actions[k].start.Accepted?
  }

  lemma LastAccepted(actions: seq<Action>)
    requires actions != []
    ensures var n := |actions| - 1;
            AnyAccepted(actions) <==> AnyAccepted(actions[..n]) || (actions[n].Begin? && actions[n].start.Accepted?)
  {
    var n := |actions| - 1;
    assert forall k :: 0 <= k < n ==> actions[..n][k] == actions[k];
  }

  lemma {:induction false} AcceptedIffCounted(hasCallback: bool, actions: seq<Action>)
    ensures Drained(hasCallback, actions) || Outstanding(Run(hasCallback, actions)) > 0 <==> AnyAccepted(actions)
    decreases |actions|
  {
    if actions != [] {
      LastAccepted(actions);
      AcceptedIffCounted(hasCallback, actions[..|actions| - 1]);
      hide AnyAccepted, CalledBack, Started;
    }
  }

  /** When nothing is outstanding any more, completion has been reported exactly if some
      start was accepted: refused starts alone never complete. */
  lemma CompletesIffAccepted(actions: seq<Action>)
    requires Outstanding(Run(true, actions)) == 0
    ensures |Run(true, actions).machine.completions| == if AnyAccepted(actions) then 1 else 0
  {
    CompletionIsReportedOnce(true, actions);
    AcceptedIffCounted(true, actions);
    hide AnyAccepted, Drained, Run;
  }

  /** Action n is the first callback that leaves nothing outstanding. */
  predicate FirstDrain(hasCallback: bool, actions: seq<Action>, n: nat) {
    n < |actions| && !Drained(hasCallback, actions[..n]) && Drains(Run(hasCallback, actions[..n]), actions[n])
  }

  lemma {:induction false} DrainedHasFirst(hasCallback: bool, actions: seq<Action>) returns (n: nat)
    requires Drained(hasCallback, actions)
    ensures FirstDrain(hasCallback, actions, n)
    decreases |actions|
  {
    var m := |actions| - 1;
    hide Drains, Run;
    if Drained(hasCallback, actions[..m]) {
      n := DrainedHasFirst(hasCallback, actions[..m]);
      assert actions[..m][..n] == actions[..n];
    } else {
      n := m;
    }
  }

  lemma {:induction false} KnownWasBegun(hasCallback: bool, actions: seq<Action>, source: Source)
    ensures var w := Run(hasCallback, actions);
            Waiting(w, source) > 0 || Known(w.machine.data, source) ==> Begun(actions, source)
    decreases |actions|
  {
    if actions != [] {
      var n := |actions| - 1;
      KnownWasBegun(hasCallback, actions[..n], source);
      if Begun(actions[..n], source) {
        var k :| 0 <= k < n && actions[..n][k].Begin? && actions[..n][k].source == source;
        assert actions[k] == actions[..n][k];
      }
      hide Run;
      StepLearns(Run(hasCallback, actions[..n]), actions[n], source);
    }
  }

  lemma StepLearns(w: World, a: Action, source: Source)
    ensures var w' := Step(w, a);
            Waiting(w', source) > 0 || Known(w'.machine.data, source)
            ==> Waiting(w, source) > 0 || Known(w.machine.data, source) || (a.Begin? && a.source == source)
  {}

  lemma CompletedStays(w: World, a: Action)
    requires w.machine.completed
    ensures Step(w, a).machine.completions == w.machine.completions
  {
    hide Noted;
  }

  lemma DrainCompletes(w: World, a: Action)
    requires Unreported(w) && Drains(w, a)
    ensures Step(w, a).machine.completions == [Step(w, a).machine.data]
  {
    hide Noted;
  }

  lemma RunStep(hasCallback: bool, actions: seq<Action>)
    requires actions != []
    ensures var n := |actions| - 1; Run(hasCallback, actions) == Step(Run(hasCallback, actions[..n]), actions[n])
  {}

  /** What was reported is what is known after action n. */
  predicate ReportedAt(actions: seq<Action>, n: nat)
    requires n < |actions|
  {
    Run(true, actions).machine.completions == [Run(true, actions[..n + 1]).machine.data]
  }

  /** A world with a completion callback and nothing reported yet. */
  predicate Unreported(w: World) {
    && w.machine.hasCallback && !w.machine.completed && w.machine.completions == []
    && w.machine.pending == Outstanding(w)
  }

  lemma NothingReported(actions: seq<Action>)
    requires !Drained(true, actions)
    ensures Unreported(Run(true, actions))
  {
    CompletionIsReportedOnce(true, actions);
    hide Run, Drained, Outstanding;
  }

  lemma FirstDrainReports(actions: seq<Action>, n: nat)
    requires FirstDrain(true, actions, n) && |actions| == n + 1
    ensures ReportedAt(actions, n)
  {
    hide Step, Run, Drained, Drains, Unreported;
    NothingReported(actions[..n]);
    DrainCompletes(Run(true, actions[..n]), actions[n]);
    RunStep(true, actions);
    assert actions[..n + 1] == actions;
  }

  /** The completion callback gets the data as they are when the count first drains. */
  lemma {:induction false} CompletedAtFirstDrain(actions: seq<Action>, n: nat)
    requires FirstDrain(true, actions, n)
    ensures ReportedAt(actions, n)
    decreases |actions|
  {
    var m := |actions| - 1;
    if n == m {
      hide FirstDrain, ReportedAt;
      FirstDrainReports(actions, n);
    } else {
      assert n < m;
      hide Step, Run, FirstDrain;
      DrainsInPrefix(actions, n);
      CompletedAtFirstDrain(actions[..m], n);
      CompletionIsReportedOnce(true, actions[..m]);
      RunStep(true, actions);
      CompletedStays(Run(true, actions[..m]), actions[m]);
    }
  }

  lemma DrainsInPrefix(actions: seq<Action>, n: nat)
    requires FirstDrain(true, actions, n) && n < |actions| - 1
    ensures var prefix := actions[..|actions| - 1]; FirstDrain(true, prefix, n) && prefix[..n + 1] == actions[..n + 1]
  {
    hide Run, Drained, Drains;
    var prefix := actions[..|actions| - 1];
    assert prefix[..n] == actions[..n] && prefix[n] == actions[n];
  }

  /** What completion sees, in every run: the outcome of a source is in the reported data
      exactly when the source was begun no later than the first callback that left nothing
      outstanding. A source that is begun after it is missed. */
  lemma CompletionSeesIff(actions: seq<Action>, n: nat, source: Source)
    requires FirstDrain(true, actions, n)
    ensures var completions := Run(true, actions).machine.completions;
            |completions| == 1 && (Known(completions[0], source) <==> Begun(actions[..n + 1], source))
  {
    var prefix := actions[..n + 1];
    CompletedAtFirstDrain(actions, n);
    KnownWasBegun(true, prefix, source);
    assert Outstanding(Run(true, prefix)) == 0 by {
      assert prefix[..n] == actions[..n];
      RunStep(true, prefix);
    }
    if Begun(prefix, source) {
      BegunIsKnown(true, prefix, source);
    }
    hide Run, Known, Begun, FirstDrain, Drained;
  }

  /** Action a, in world w, delivers a callback of the source with the outcome ok: at once
      when the source is begun, or for an operation that is outstanding. */
  predicate Delivers(w: World, a: Action, source: Source, ok: bool) {
    a == Begin(source, Accepted(Some(ok))) || (a == Answer(source, ok) && Waiting(w, source) > 0)
  }

  /** Some callback of the source had the outcome ok. */
  predicate Delivered(hasCallback: bool, actions: seq<Action>, source: Source, ok: bool) {
    exists k :: 0 <= k < |actions| && Delivers(Run(hasCallback, actions[..k]), actions[k], source, ok)
  }

  predicate RefusedToStart(actions: seq<Action>, source: Source) {
    exists k :: 0 <= k < |actions| && actions[k] == Begin(source, Refused)
  }

  /** The four flags say what was delivered: a result exactly when a callback succeeded, an
      error exactly when one failed or a start was refused. */
  predicate Tells(d: Data, hasCallback: bool, actions: seq<Action>) {
    && (d.hasGithub <==> Delivered(hasCallback, actions, Github, true))
    && (d.fetchError <==> Delivered(hasCallback, actions, Github, false) || RefusedToStart(actions, Github))
    && (d.hasDbResult <==> Delivered(hasCallback, actions, Database, true))
    && (d.dbError <==> Delivered(hasCallback, actions, Database, false) || RefusedToStart(actions, Database))
  }

  lemma DeliveredStep(hasCallback: bool, actions: seq<Action>, source: Source, ok: bool)
    requires actions != []
    ensures var n := |actions| - 1;
            Delivered(hasCallback, actions, source, ok)
            <==> Delivered(hasCallback, actions[..n], source, ok)
                 || Delivers(Run(hasCallback, actions[..n]), actions[n], source, ok)
  {
    hide Run, Delivers;
    var n := |actions| - 1;
    assert forall k :: 0 <= k < n ==> actions[..n][k] == actions[k] && actions[..n][..k] == actions[..k];
  }

  lemma RefusedStep(actions: seq<Action>, source: Source)
    requires actions != []
    ensures var n := |actions| - 1;
            RefusedToStart(actions, source)
            <==> RefusedToStart(actions[..n], source) || actions[n] == Begin(source, Refused)
  {
    var n := |actions| - 1;
    assert forall k :: 0 <= k < n ==> actions[..n][k] == actions[k];
  }

  /** What one action does to the flags. */
  lemma StepTells(w: World, a: Action)
    ensures var d, d' := w.machine.data, Step(w, a).machine.data;
            && (d'.hasGithub <==> d.hasGithub || Delivers(w, a, Github, true))
            && (d'.fetchError <==> d.fetchError || Delivers(w, a, Github, false) || a == Begin(Github, Refused))
            && (d'.hasDbResult <==> d.hasDbResult || Delivers(w, a, Database, true))
            && (d'.dbError <==> d.dbError || Delivers(w, a, Database, false) || a == Begin(Database, Refused))
  {
    hide Noted, CalledBack, Started, Step, Delivers;
    var d := w.machine.data;
    NotedIs(d, a.source, true);
    NotedIs(d, a.source, false);
    if a.Begin? {
      BeginNotes(w, a.source, a.start);
    } else {
      AnswerNotes(w, a.source, a.ok);
    }
  }

  lemma NotedIs(d: Data, source: Source, ok: bool)
    ensures var d' := Noted(d, source, ok);
            && (d'.hasGithub <==> d.hasGithub || (source == Github && ok))
            && (d'.fetchError <==> d.fetchError || (source == Github && !ok))
            && (d'.hasDbResult <==> d.hasDbResult || (source == Database && ok))
            && (d'.dbError <==> d.dbError || (source == Database && !ok))
  {}

  lemma CalledBackNotes(m: Machine, source: Source, ok: bool)
    ensures CalledBack(m, source, ok).data == Noted(m.data, source, ok)
  {
    hide Noted;
  }

  lemma BeginNotes(w: World, source: Source, start: Start)
    ensures var a, d := Begin(source, start), w.machine.data;
            && Step(w, a).machine.data == (if start.Refused? then Noted(d, source, false)
                                           else if start.immediate.None? then d
                                           else Noted(d, source, start.immediate.value))
            && forall s, ok :: Delivers(w, a, s, ok) <==> s == source && start == Accepted(Some(ok))
  {
    hide Noted, CalledBack;
    if start.Accepted? && start.immediate.Some? {
      CalledBackNotes(w.machine.(pending := w.machine.pending + 1), source, start.immediate.value);
    }
  }

  lemma AnswerNotes(w: World, source: Source, ok: bool)
    ensures var a, d := Answer(source, ok), w.machine.data;
            && Step(w, a).machine.data == (if Waiting(w, source) == 0 then d else Noted(d, source, ok))
            && forall s, b :: Delivers(w, a, s, b) <==> s == source && b == ok && Waiting(w, source) > 0
  {
    hide Noted, CalledBack;
    CalledBackNotes(w.machine, source, ok);
  }

  /** In every run the flags tell exactly what happened. */
  lemma {:induction false} FlagsTell(hasCallback: bool, actions: seq<Action>)
    ensures Tells(Run(hasCallback, actions).machine.data, hasCallback, actions)
    decreases |actions|
  {
    if actions != [] {
      var n := |actions| - 1;
      FlagsTell(hasCallback, actions[..n]);
      RunStep(hasCallback, actions);
      hide Run, Step, Delivered, Delivers, RefusedToStart;
      StepTells(Run(hasCallback, actions[..n]), actions[n]);
      RefusedStep(actions, Github);
      RefusedStep(actions, Database);
      DeliveredStep(hasCallback, actions, Github, true);
      DeliveredStep(hasCallback, actions, Github, false);
      DeliveredStep(hasCallback, actions, Database, true);
      DeliveredStep(hasCallback, actions, Database, false);
    }
  }

  /** And so do those that the completion callback is given: they tell what happened up to
      the first callback that left nothing outstanding. */
  lemma ReportTells(actions: seq<Action>, n: nat)
    requires FirstDrain(true, actions, n)
    ensures var completions := Run(true, actions).machine.completions;
            |completions| == 1 && Tells(completions[0], true, actions[..n + 1])
  {
    CompletedAtFirstDrain(actions, n);
    FlagsTell(true, actions[..n + 1]);
    hide Run, Tells, FirstDrain;
  }

  /** So completion can come early: a query that fails while it is being started calls
      back at once and ends the count before the fetch begins. */
  lemma CompletionCanBeEarly()
    ensures var w := Run(true, [Begin(Database, Accepted(Some(false))), Begin(Github, Accepted(None))]);
            && w.machine.completions == [Data(false, false, false, true)] && Outstanding(w) == 1
            && !Known(w.machine.completions[0], Github)
  {
    var first, second := Begin(Database, Accepted(Some(false))), Begin(Github, Accepted(None));
    assert [first, second][..1] == [first] && [first][..0] == [];
    assert Run(true, [first]) == Step(Run(true, []), first);
  }

  /** A refused start is not a callback: when every start is refused, completion is never
      reported although nothing is outstanding. */
  lemma {:induction false} RefusedStartsNeverComplete(actions: seq<Action>)
    requires forall k :: 0 <= k < |actions| ==> actions[k].Begin? && actions[k].start.Refused?
    ensures var w := Run(true, actions); w.machine.completions == [] && Outstanding(w) == 0
  {
    AcceptedIffCounted(true, actions);
    CompletionIsReportedOnce(true, actions);
    hide Run, Drained;
  }
}
