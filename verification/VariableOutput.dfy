/** What the lines of a variable print: the text of its value, formatted by its type. */
module VariableOutput {
  import opened Text
  import opened Escape
  import opened Values
  import opened Codegen
  import opened CSemantics

  // ------------------------------------------------------------------ the meaning

  datatype Value =
    | IntegerValue(n: int)
    | RealValue(x: Float)
    | TruthValue(b: bool)
    | TimeValue(tm: Tm)
    | TextValue(s: CText)
    | NullValue

  /** The value of a variable, by the type its text asks for. */
  function VarValue<G>(sem: Sem<G>, form: VarForm, scope: Scope, g: G): Value {
    match form.format
    case FInt => IntegerValue(sem.int32(form.expr, scope, g))
    case FNumber => IntegerValue(sem.int32(form.expr, scope, g))
    case FLong => IntegerValue(sem.int64(form.expr, scope, g))
    case FSize => IntegerValue(sem.size(form.expr, scope, g))
    case FFloat => RealValue(sem.float(form.expr, scope, g))
    case FBool => TruthValue(sem.truth(form.expr, scope, g))
    case FTime => TimeValue(sem.localtime(sem.time(form.expr, scope, g)))
    case _ =>
      match sem.text(form.expr, scope, g)
      case None => NullValue
      case Some(s) => TextValue(s)
  }

  /** The whole text of a value. */
  function Rendered(v: Value): string {
    match v
    case IntegerValue(n) => Decimal(n)
    case RealValue(x) => Fixed(x)
    case TruthValue(b) => if b then "true" else "false"
    case TimeValue(tm) => Clock(tm)
    case TextValue(s) => s
    case NullValue => ""
  }

  function Cut(s: string, n: nat): string {
    if |s| <= n then s else s[..n]
  }

  /** What a variable stands for: its text, escaped unless it is raw HTML or in a style
      block. When `full` is not asked for, a real number is cut to 31 characters. */
  function Meant<G>(sem: Sem<G>, full: bool, form: VarForm, escape: bool, scope: Scope, g: G): string {
    var v := VarValue(sem, form, scope, g);
    var text := if full || !v.RealValue? then Rendered(v) else Cut(Rendered(v), TEMP_SIZE - 1);
    if escape && form.format != FHtml then Escaped(text) else text
  }

  // ----------------------------------------------------------------- the statements

  lemma StoredText(buffer: seq<char>, text: string)
    requires buffer != [] && NUL !in text
    ensures CString(Stored(buffer, text)) == Cut(text, |buffer| - 1)
  {
    var kept := Cut(text, |buffer| - 1);
    CStringIs(Stored(buffer, text), kept);
  }

  lemma IntegerText(n: int)
    requires -0x8000_0000_0000_0000 <= n < SIZE_T
    ensures NUL !in Decimal(n) && Cut(Decimal(n), TEMP_SIZE - 1) == Decimal(n)
  {
    DecimalLength(n);
    DecimalText(n);
    hide Decimal;
  }

  lemma LastStep<G>(sem: Sem<G>, escape: bool, local: Local, scope: Scope, g: G)
    ensures ExecSteps(sem, [OutStored(escape)], local, scope, g) == Sent(Some(CString(local.buffer)), escape)
  {
    hide CString, Escaped;
    assert [OutStored(escape)][1..] == [];
    assert ExecSteps(sem, [], Step(sem, OutStored(escape), local, scope, g), scope, g) == "";
  }

  lemma FirstStep<G>(sem: Sem<G>, l: Line, steps: seq<Line>, local: Local, scope: Scope, g: G)
    requires !l.OutStored?
    ensures ExecSteps(sem, [l] + steps, local, scope, g)
            == ExecSteps(sem, steps, Step(sem, l, local, scope, g), scope, g)
  {
    hide Step;
    assert ([l] + steps)[1..] == steps;
  }

  /** The block that goes through a char array. */
  lemma StoredPrints<G>(sem: Sem<G>, conversion: Conversion, expr: string, escape: bool, scope: Scope, g: G)
    requires NUL !in Converted(sem, conversion, expr, scope, g)
    ensures ExecSteps(sem, [Declare(TEMP_SIZE), Store(conversion, expr), OutStored(escape)], Local([], None), scope, g)
            == Sent(Some(Cut(Converted(sem, conversion, expr, scope, g), TEMP_SIZE - 1)), escape)
  {
    hide Converted, CString, Stored, Cut, Sent, ExecSteps;
    var l1 := Step(sem, Declare(TEMP_SIZE), Local([], None), scope, g);
    var l2 := Step(sem, Store(conversion, expr), l1, scope, g);
    StoredText(l1.buffer, Converted(sem, conversion, expr, scope, g));
    LastStep(sem, escape, l2, scope, g);
    FirstStep(sem, Store(conversion, expr), [OutStored(escape)], l1, scope, g);
    FirstStep(sem, Declare(TEMP_SIZE), [Store(conversion, expr), OutStored(escape)], Local([], None), scope, g);
    hide Step;
    assert [Store(conversion, expr)] + [OutStored(escape)] == [Store(conversion, expr), OutStored(escape)];
    assert [Declare(TEMP_SIZE)] + [Store(conversion, expr), OutStored(escape)]
           == [Declare(TEMP_SIZE), Store(conversion, expr), OutStored(escape)];
  }

  lemma TimePrints<G>(sem: Sem<G>, expr: string, escape: bool, scope: Scope, g: G)
    ensures ExecSteps(sem, [Declare(TIME_SIZE), BreakDown(expr), StoreTime, OutStored(escape)], Local([], None),
            scope, g)
            == Sent(Some(Clock(sem.localtime(sem.time(expr, scope, g)))), escape)
  {
    var tm := sem.localtime(sem.time(expr, scope, g));
    ClockLength(tm);
    hide Clock, CString, Stored, Sent, ExecSteps;
    var l1 := Step(sem, Declare(TIME_SIZE), Local([], None), scope, g);
    var l2 := Step(sem, BreakDown(expr), l1, scope, g);
    var l3 := Step(sem, StoreTime, l2, scope, g);
    StoredText(l1.buffer, Clock(tm));
    LastStep(sem, escape, l3, scope, g);
    FirstStep(sem, StoreTime, [OutStored(escape)], l2, scope, g);
    FirstStep(sem, BreakDown(expr), [StoreTime, OutStored(escape)], l1, scope, g);
    FirstStep(sem, Declare(TIME_SIZE), [BreakDown(expr), StoreTime, OutStored(escape)], Local([], None), scope, g);
    hide Step;
    assert [StoreTime] + [OutStored(escape)] == [StoreTime, OutStored(escape)];
    assert [BreakDown(expr)] + [StoreTime, OutStored(escape)] == [BreakDown(expr), StoreTime, OutStored(escape)];
    assert [Declare(TIME_SIZE)] + [BreakDown(expr), StoreTime, OutStored(escape)]
           == [Declare(TIME_SIZE), BreakDown(expr), StoreTime, OutStored(escape)];
  }

  lemma LineReads(l: Line)
    requires l.OutText? || l.OutTruth? || l.OutIfSet?
    ensures ReadStmt([l]).Some? && ReadStmt([l]).value.1 == [] && Balanced([l])
  {
    assert [l][1..] == [];
    hide ReadStmt, Balanced;
    StmtBalanced([l]);
  }

  lemma OneLine<G>(sem: Sem<G>, l: Line, scope: Scope, g: G)
    requires l.OutText? || l.OutTruth? || l.OutIfSet?
    ensures ReadStmt([l]).Some? && ReadStmt([l]).value.1 == []
    ensures Run(sem, [l], scope, g) == ExecOne(sem, ReadStmt([l]).value.0, scope, g)
  {
    hide Run, Balanced, ExecOne, ReadStmt;
    LineReads(l);
    RunOne(sem, [l], scope, g);
  }

  lemma {:induction false} StepsRead(steps: seq<Line>)
    requires forall i :: 0 <= i < |steps| ==> IsStep(steps[i])
    ensures StepCount(steps + [Close]) == |steps|
  {
    if steps == [] {
      assert steps + [Close] == [Close];
    } else {
      assert (steps + [Close])[1..] == steps[1..] + [Close];
      StepsRead(steps[1..]);
    }
  }

  lemma CompoundReads(ls: seq<Line>, n: nat)
    requires ls != [] && ls[0] == Open && n == StepCount(ls[1..]) && ls[1..][n..] == [Close]
    ensures ReadStmt(ls) == Some((Compound(ls[1..][..n]), []))
  {
    hide StepCount, ReadBlock, IsStep;
    assert [Close][1..] == [];
  }

  lemma BlockReads(steps: seq<Line>)
    requires forall i :: 0 <= i < |steps| ==> IsStep(steps[i])
    ensures ReadStmt([Open] + steps + [Close]) == Some((Compound(steps), []))
    ensures Balanced([Open] + steps + [Close])
  {
    var ls := [Open] + steps + [Close];
    StepsRead(steps);
    assert ls[1..] == steps + [Close];
    assert (steps + [Close])[..|steps|] == steps && (steps + [Close])[|steps|..] == [Close] && [Close][1..] == [];
    hide ReadStmt, Balanced, StepCount, IsStep;
    CompoundReads(ls, |steps|);
    StmtBalanced(ls);
  }

  lemma OneBlock<G>(sem: Sem<G>, steps: seq<Line>, scope: Scope, g: G)
    requires forall i :: 0 <= i < |steps| ==> IsStep(steps[i])
    ensures Run(sem, [Open] + steps + [Close], scope, g) == (ExecSteps(sem, steps, Local([], None), scope, g), g)
  {
    hide Run, Balanced, ReadStmt, ExecSteps;
    BlockReads(steps);
    RunOne(sem, [Open] + steps + [Close], scope, g);
  }

  lemma LineMeans<G>(sem: Sem<G>, form: VarForm, escape: bool, scope: Scope, g: G)
    requires form.format.FBool? || form.format.FString? || form.format.FHtml? || form.format.FPlain?
    ensures Run(sem, VarLines(form, escape), scope, g) == (Meant(sem, false, form, escape, scope, g), g)
  {
    hide Run, Balanced, Escaped;
    OneLine(sem, VarLines(form, escape)[0], scope, g);
  }

  lemma TimeMeans<G>(sem: Sem<G>, form: VarForm, escape: bool, scope: Scope, g: G)
    requires form.format.FTime?
    ensures Run(sem, VarLines(form, escape), scope, g) == (Meant(sem, false, form, escape, scope, g), g)
  {
    hide Run, Balanced, ExecSteps, Escaped, Clock;
    var steps := [Declare(TIME_SIZE), BreakDown(form.expr), StoreTime, OutStored(escape)];
    assert VarLines(form, escape) == [Open] + steps + [Close];
    TimePrints(sem, form.expr, escape, scope, g);
    OneBlock(sem, steps, scope, g);
  }

  predicate IsNumber(f: Format) {
    f.FInt? || f.FLong? || f.FSize? || f.FFloat? || f.FNumber?
  }

  function ConversionFor(f: Format): Conversion {
    match f
    case FLong => PercentLd
    case FSize => PercentZu
    case FFloat => PercentF
    case _ => PercentD
  }

  lemma ConversionText<G>(sem: Sem<G>, form: VarForm, scope: Scope, g: G)
    requires IsNumber(form.format)
    ensures var v := VarValue(sem, form, scope, g);
            && Converted(sem, ConversionFor(form.format), form.expr, scope, g) == Rendered(v)
            && NUL !in Rendered(v)
            && (!v.RealValue? ==> Cut(Rendered(v), TEMP_SIZE - 1) == Rendered(v))
  {
    hide Fixed, Decimal, Cut;
    if form.format.FFloat? {
      FixedLength(sem.float(form.expr, scope, g));
    } else {
      IntegerText(VarValue(sem, form, scope, g).n);
    }
  }

  lemma NumberMeans<G>(sem: Sem<G>, form: VarForm, escape: bool, scope: Scope, g: G)
    requires IsNumber(form.format)
    ensures Run(sem, VarLines(form, escape), scope, g) == (Meant(sem, false, form, escape, scope, g), g)
  {
    var conversion := ConversionFor(form.format);
    var steps := [Declare(TEMP_SIZE), Store(conversion, form.expr), OutStored(escape)];
    assert VarLines(form, escape) == [Open] + steps + [Close];
    ConversionText(sem, form, scope, g);
    hide Run, Balanced, ExecSteps, Escaped, Cut, Fixed, Decimal, Converted, VarLines;
    StoredPrints(sem, conversion, form.expr, escape, scope, g);
    OneBlock(sem, steps, scope, g);
  }

  lemma VariableBalanced(form: VarForm, escape: bool)
    ensures Balanced(VarLines(form, escape))
  {
    hide Balanced, ReadStmt;
    if IsNumber(form.format) {
      var steps := [Declare(TEMP_SIZE), Store(ConversionFor(form.format), form.expr), OutStored(escape)];
      assert VarLines(form, escape) == [Open] + steps + [Close];
      BlockReads(steps);
    } else if form.format.FTime? {
      var steps := [Declare(TIME_SIZE), BreakDown(form.expr), StoreTime, OutStored(escape)];
      assert VarLines(form, escape) == [Open] + steps + [Close];
      BlockReads(steps);
    } else {
      LineReads(VarLines(form, escape)[0]);
    }
  }

  /** The lines of a variable print the text of its value:
      a NULL string prints nothing, a truth value `true` or `false`, and of all values only
      a real number can be cut by its array. */
  lemma VariableLinesMean<G>(sem: Sem<G>, form: VarForm, escape: bool, scope: Scope, g: G)
    ensures Run(sem, VarLines(form, escape), scope, g) == (Meant(sem, false, form, escape, scope, g), g)
  {
    hide Run, Balanced, Meant, VarLines;
    if IsNumber(form.format) {
      NumberMeans(sem, form, escape, scope, g);
    } else if form.format.FTime? {
      TimeMeans(sem, form, escape, scope, g);
    } else {
      LineMeans(sem, form, escape, scope, g);
    }
  }

  // ------------------------------------------------------------------ what is cut

  lemma {:induction false} EscapedGrows(a: string, b: string)
    ensures |Escaped(a + b)| >= |Escaped(a)| + |b|
  {
    hide Entity;
    if b == "" {
      assert a + b == a;
    } else {
      assert (a + b)[..|a + b| - 1] == a + b[..|b| - 1];
      EscapedGrows(a, b[..|b| - 1]);
    }
  }

  /** A variable is printed whole exactly when it is not a real number that needs more than
      31 characters: one whose six decimals leave 25 or more digits before the point, or 24
      and a sign. What is printed is never longer than the whole text. */
  lemma PrintedWholeIff<G>(sem: Sem<G>, form: VarForm, escape: bool, scope: Scope, g: G)
    ensures var v := VarValue(sem, form, scope, g);
            Meant(sem, false, form, escape, scope, g) == Meant(sem, true, form, escape, scope, g)
            <==> (v.RealValue? ==> FitsBuffer(v.x))
    ensures |Meant(sem, false, form, escape, scope, g)| <= |Meant(sem, true, form, escape, scope, g)|
    ensures Meant(sem, false, form, escape, scope, g) == Meant(sem, true, form, escape, scope, g)
            <==> |Meant(sem, false, form, escape, scope, g)| == |Meant(sem, true, form, escape, scope, g)|
  {
    var v := VarValue(sem, form, scope, g);
    if v.RealValue? {
      FixedLength(v.x);
      hide Fixed, FitsBuffer, Escaped;
      var whole := Rendered(v);
      var kept := Cut(whole, TEMP_SIZE - 1);
      assert kept <= whole;
      assert whole == kept + whole[|kept|..];
      EscapedGrows(kept, whole[|kept|..]);
    }
  }

  lemma LargeNumberLength()
    ensures |Fixed(Finite(false, 10000000000000000905969664.0))| == 33
  {
    var n := 10000000000000000905969664;
    assert Micros(n as real) == n * MILLION;
    Powers();
    assert Pow10(26) == 100 * Pow10(24) && Pow10(25) == 10 * Pow10(24);
    hide Digits, Padded, Pow10, Micros;
    DigitsLength(n, 25);
    DigitsLength(n, 26);
  }

  /** The double nearest to 10 to the 25th needs 33 characters and loses two of them. */
  lemma LargeNumberIsCut<G>(sem: Sem<G>, scope: Scope, g: G)
    requires sem.float("x", scope, g) == Finite(false, 10000000000000000905969664.0)
    ensures |Meant(sem, true, VarForm(FFloat, "x"), false, scope, g)| == 33
    ensures Run(sem, VarLines(VarForm(FFloat, "x"), false), scope, g).0
            == Meant(sem, true, VarForm(FFloat, "x"), false, scope, g)[..31]
  {
    LargeNumberLength();
    hide Fixed, Run;
    VariableLinesMean(sem, VarForm(FFloat, "x"), false, scope, g);
  }
}
