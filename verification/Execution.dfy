/** A generated program at work: its statements write to the output buffer. */
module Execution {
  import opened Text
  import opened Escape
  import opened Values
  import opened Codegen
  import opened CSemantics
  import opened Runtime

  // ------------------------------------------------------------- what C can express

  /** A literal denotes a C string, and the escaped text of a char array can be measured. */
  ghost predicate Fine(l: Line) {
    && (l.OutRaw? || l.StyleTag? ==> NUL !in LiteralValue(l.lit))
    && (l.Declare? ==> 6 * l.size + 1 < SIZE_T)
  }

  ghost predicate FineLines(ls: seq<Line>) {
    forall i :: 0 <= i < |ls| ==> Fine(ls[i])
  }

  ghost predicate FineStmt(s: Stmt) {
    match s
    case Print(lit) => NUL !in LiteralValue(lit)
    case Compound(steps) => FineLines(steps)
    case For(_, _, body) => FineAll(s.body)
    case If(_, thn, els) => FineAll(s.thn) && FineAll(s.els)
    case _ => true
  }

  ghost predicate FineAll(ss: seq<Stmt>) {
    ss != [] ==> FineStmt(ss[0]) && FineAll(ss[1..])
  }

  lemma FineSlice(ls: seq<Line>, i: nat, j: nat)
    requires FineLines(ls) && i <= j <= |ls|
    ensures FineLines(ls[i..j]) && FineLines(ls[i..])
  {
    hide Fine;
  }

  lemma {:induction false} FineStmtRead(ls: seq<Line>)
    requires FineLines(ls) && ReadStmt(ls).Some?
    ensures FineStmt(ReadStmt(ls).value.0) && FineLines(ReadStmt(ls).value.1)
    decreases |ls|, 0
  {
    assert Fine(ls[0]);
    var t := ls[1..];
    FineSlice(ls, 1, 1);
    if ls[0].ForOpen? {
      var body := if ItemAt(t).Some? then t[1..] else t;
      assert FineLines(body) by { FineSlice(t, if ItemAt(t).Some? then 1 else 0, |t|); }
      FineBlockRead(body);
      FineFor(ls);
    } else if ls[0].IfOpen? {
      FineBlockRead(t);
      var rest := ReadBlock(t).1;
      if StartsWith(rest, ElseLine) {
        FineSlice(rest, 1, 1);
        FineBlockRead(rest[1..]);
      }
      FineIf(ls);
    } else if ls[0].Open? {
      hide Fine, FineLines, ReadBlock, StepCount, LiteralValue;
      FineSlice(t, 0, StepCount(t));
      FineSlice(t, StepCount(t), StepCount(t));
      FineSlice(t[StepCount(t)..], 1, 1);
      assert t[..StepCount(t)] == t[0..StepCount(t)];
    } else {
      hide FineLines, ReadBlock, StepCount, LiteralValue;
    }
  }

  lemma FineFor(ls: seq<Line>)
    requires ls != [] && ls[0].ForOpen? && ReadStmt(ls).Some?
    requires var t := ls[1..];
             var (body, rest) := ReadBlock(if ItemAt(t).Some? then t[1..] else t);
             FineAll(body) && FineLines(rest)
    ensures FineStmt(ReadStmt(ls).value.0) && FineLines(ReadStmt(ls).value.1)
  {
    hide FineLines, ReadBlock, FineAll;
    var t := ls[1..];
    var rest := ReadBlock(if ItemAt(t).Some? then t[1..] else t).1;
    FineSlice(rest, 1, 1);
  }

  lemma FineIf(ls: seq<Line>)
    requires ls != [] && ls[0].IfOpen? && ReadStmt(ls).Some?
    requires var (thn, rest) := ReadBlock(ls[1..]);
             && FineAll(thn) && FineLines(rest)
             && (StartsWith(rest, ElseLine) ==>
                   var (els, rest') := ReadBlock(rest[1..]); FineAll(els) && FineLines(rest'))
    ensures FineStmt(ReadStmt(ls).value.0) && FineLines(ReadStmt(ls).value.1)
  {
    assert FineAll([]);
    hide FineLines, ReadBlock, FineAll;
    var rest := ReadBlock(ls[1..]).1;
    if StartsWith(rest, Close) {
      FineSlice(rest, 1, 1);
    } else {
      var rest' := ReadBlock(rest[1..]).1;
      FineSlice(rest', 1, 1);
    }
  }

  lemma {:induction false} FineBlockRead(ls: seq<Line>)
    requires FineLines(ls)
    ensures FineAll(ReadBlock(ls).0) && FineLines(ReadBlock(ls).1)
    decreases |ls|, 1
  {
    if ReadStmt(ls).Some? {
      FineStmtRead(ls);
      FineBlockRead(ReadStmt(ls).value.1);
      hide ReadStmt, FineLines;
      var ss := ReadBlock(ReadStmt(ls).value.1).0;
      assert ([ReadStmt(ls).value.0] + ss)[1..] == ss;
    }
  }

  lemma {:induction false} FineAt(ss: seq<Stmt>, i: nat)
    requires FineAll(ss) && i < |ss|
    ensures FineStmt(ss[i])
  {
    if i > 0 {
      FineAt(ss[1..], i - 1);
    }
  }

  // ------------------------------------------------------------------- char arrays

  /** snprintf(dst, sizeof(dst), ...) for a text already formatted */
  method Snprintf(dst: array<char>, text: string)
    modifies dst
    ensures dst[..] == Stored(old(dst[..]), text)
  {
    if dst.Length > 0 {
      var n := if |text| < dst.Length then |text| else dst.Length - 1;
      ghost var before := dst[..];
      StrCpy(dst, 0, text[..n]);
      assert dst[0..n] == text[..n] && dst[n] == NUL;
      assert dst[n + 1..] == before[n + 1..];
      assert dst[..] == dst[0..n] + [dst[n]] + dst[n + 1..];
    }
  }

  // -------------------------------------------------------------------- statements

  method Send(out: Buffer, text: Option<CText>, escape: bool)
    requires out.Valid()
    modifies out, out.data
    ensures out.Valid() && (out.data == old(out.data) || fresh(out.data))
    ensures out.Contents() == old(out.Contents()) + Sent(text, escape)
  {
    if escape {
      out.OutputHtml(text);
    } else {
      out.OutputRaw(text);
    }
  }

  lemma StepAt<G>(sem: Sem<G>, steps: seq<Line>, i: nat, local: Local, scope: Scope, g: G)
    requires i < |steps|
    ensures ExecSteps(sem, steps[i..], local, scope, g)
            == (if steps[i].OutStored? then Sent(Some(CString(local.buffer)), steps[i].escape) else "")
               + ExecSteps(sem, steps[i + 1..], Step(sem, steps[i], local, scope, g), scope, g)
  {
    assert steps[i..][1..] == steps[i + 1..];
    hide Step, CString, Sent;
  }

  /** char temp[size]; the array holds whatever is in memory. */
  method NewArray(size: nat, memory: nat -> char) returns (a: array<char>)
    ensures fresh(a) && a[..] == seq(size, i requires 0 <= i < size => memory(i))
  {
    a := new char[size];
    for i := 0 to size
      invariant forall k :: 0 <= k < i ==> a[k] == memory(k)
    {
      a[i] := memory(i);
    }
  }

  /** One line of a block, other than the one that prints. */
  method RunStep<G>(sem: Sem<G>, l: Line, buffer: array<char>, start: Option<Tm>, scope: Scope, g: G)
    returns (temp: array<char>, tm: Option<Tm>)
    requires !l.OutStored?
    modifies buffer
    ensures temp == buffer || fresh(temp)
    ensures temp.Length == if l.Declare? then l.size else buffer.Length
    ensures Local(temp[..], tm) == Step(sem, l, Local(old(buffer[..]), start), scope, g)
  {
    hide Stored, Converted, Clock;
    temp, tm := buffer, start;
    match l {
      case Declare(size) => temp := NewArray(size, sem.memory);
      case Store(conversion, expr) => Snprintf(temp, Converted(sem, conversion, expr, scope, g));
      case BreakDown(expr) => tm := Some(sem.localtime(sem.time(expr, scope, g)));
      case StoreTime =>
        if tm.Some? && |Clock(tm.value)| < temp.Length {
          Snprintf(temp, Clock(tm.value));
        }
      case _ =>
    }
  }

  /** A block with its own char array. */
  method RunSteps<G>(out: Buffer, sem: Sem<G>, steps: seq<Line>, scope: Scope, g: G)
    requires out.Valid() && FineLines(steps)
    modifies out, out.data
    ensures out.Valid() && (out.data == old(out.data) || fresh(out.data))
    ensures out.Contents() == old(out.Contents()) + ExecSteps(sem, steps, Local([], None), scope, g)
  {
    hide ExecSteps, CString, Sent, Step;
    ghost var before := out.Contents();
    ghost var all := ExecSteps(sem, steps, Local([], None), scope, g);
    var temp := new char[0];
    var tm := None;
    assert steps[0..] == steps && temp[..] == [];
    for i := 0 to |steps|
      invariant out.Valid() && (out.data == old(out.data) || fresh(out.data))
      invariant fresh(temp) && temp != out.data && 6 * temp.Length + 1 < SIZE_T
      invariant out.Contents() + ExecSteps(sem, steps[i..], Local(temp[..], tm), scope, g) == before + all
    {
      StepAt(sem, steps, i, Local(temp[..], tm), scope, g);
      assert Fine(steps[i]);
      if steps[i].OutStored? {
        StepKeeps(sem, steps[i], Local(temp[..], tm), scope, g);
        var text := ReadCString(temp);
        Send(out, Some(text), steps[i].escape);
      } else {
        temp, tm := RunStep(sem, steps[i], temp, tm, scope, g);
      }
    }
    StepsEnd(sem, steps, Local(temp[..], tm), scope, g);
  }

  lemma StepKeeps<G>(sem: Sem<G>, l: Line, local: Local, scope: Scope, g: G)
    requires l.OutStored?
    ensures Step(sem, l, local, scope, g) == local
  {}

  lemma StepsEnd<G>(sem: Sem<G>, steps: seq<Line>, local: Local, scope: Scope, g: G)
    ensures ExecSteps(sem, steps[|steps|..], local, scope, g) == ""
  {}

  lemma ExecAt<G>(sem: Sem<G>, ss: seq<Stmt>, i: nat, scope: Scope, g: G)
    requires i <= |ss|
    ensures i == |ss| ==> Exec(sem, ss[i..], scope, g) == ("", g)
    ensures i < |ss| ==>
              var (o, g') := ExecOne(sem, ss[i], scope, g);
              Exec(sem, ss[i..], scope, g)
                == (o + Exec(sem, ss[i + 1..], scope, g').0, Exec(sem, ss[i + 1..], scope, g').1)
  {
    if i < |ss| {
      assert ss[i..][1..] == ss[i + 1..];
    }
    hide ExecOne;
  }

  /** Statements in turn: what they print is appended to the buffer. */
  method RunAll<G>(out: Buffer, sem: Sem<G>, ss: seq<Stmt>, scope: Scope, start: G) returns (g: G)
    requires out.Valid() && FineAll(ss)
    modifies out, out.data
    ensures out.Valid() && (out.data == old(out.data) || fresh(out.data))
    ensures out.Contents() == old(out.Contents()) + Exec(sem, ss, scope, start).0 && g == Exec(sem, ss, scope, start).1
    decreases ss, 0
  {
    hide Exec, ExecOne, FineStmt, FineAll;
    ghost var before := out.Contents();
    ghost var (all, end) := Exec(sem, ss, scope, start);
    g := start;
    assert ss[0..] == ss;
    for i := 0 to |ss|
      invariant out.Valid() && (out.data == old(out.data) || fresh(out.data))
      invariant out.Contents() + Exec(sem, ss[i..], scope, g).0 == before + all && Exec(sem, ss[i..], scope, g).1 == end
    {
      ExecAt(sem, ss, i, scope, g);
      FineAt(ss, i);
      g := RunOne(out, sem, ss[i], scope, g);
    }
    ExecAt(sem, ss, |ss|, scope, g);
  }

  method RunOne<G>(out: Buffer, sem: Sem<G>, s: Stmt, scope: Scope, start: G) returns (g: G)
    requires out.Valid() && FineStmt(s)
    modifies out, out.data
    ensures out.Valid() && (out.data == old(out.data) || fresh(out.data))
    ensures out.Contents() == old(out.Contents()) + ExecOne(sem, s, scope, start).0
            && g == ExecOne(sem, s, scope, start).1
    decreases s, 0
  {
    hide Exec, ExecFor, ExecSteps, FineAll, LiteralValue, Sent, Bound, Holds;
    g := start;
    match s {
      case Print(lit) => out.OutputRaw(Some(LiteralValue(lit)));
      case PrintText(expr, escape) => Send(out, sem.text(expr, scope, g), escape);
      case PrintTruth(expr, escape) =>
        Send(out, Some(if sem.truth(expr, scope, g) then "true" else "false"), escape);
      case PrintIfSet(expr, escape) =>
        var text := sem.text(expr, scope, g);
        if text.Some? {
          Send(out, text, escape);
        }
      case Compound(steps) => RunSteps(out, sem, s.steps, scope, g);
      case Block(text) =>
        var r := sem.run(text, scope, g);
        out.OutputRaw(Some(r.0));
        g := r.1;
      case For(count, item, body) => g := RunFor(out, sem, s.count, s.item, s.body, scope, g);
      case If(condition, thn, els) =>
        if Holds(sem, condition, scope, g) {
          g := RunAll(out, sem, s.thn, scope, g);
        } else {
          g := RunAll(out, sem, s.els, scope, g);
        }
    }
  }

  lemma ForAt<G>(sem: Sem<G>, count: string, item: Option<Item>, body: seq<Stmt>, scope: Scope, i: nat, g: G)
    ensures i >= Bound(sem, count, scope, g) ==> ExecFor(sem, count, item, body, scope, i, g) == ("", g)
    ensures i < Bound(sem, count, scope, g) ==>
              var (o, g') := Exec(sem, body, scope + [Binding(item, i)], g);
              var (o', g'') := ExecFor(sem, count, item, body, scope, i + 1, g');
              ExecFor(sem, count, item, body, scope, i, g) == (o + o', g'')
  {}

  /** for (size_t i = 0; i < count; i++) */
  method RunFor<G>(out: Buffer, sem: Sem<G>, count: string, item: Option<Item>, body: seq<Stmt>, scope: Scope,
      start: G) returns (g: G)
    requires out.Valid() && FineAll(body)
    modifies out, out.data
    ensures out.Valid() && (out.data == old(out.data) || fresh(out.data))
    ensures out.Contents() == old(out.Contents()) + ExecFor(sem, count, item, body, scope, 0, start).0
    ensures g == ExecFor(sem, count, item, body, scope, 0, start).1
    decreases body, 1
  {
    hide Exec, ExecFor, FineAll, Bound;
    ghost var before := out.Contents();
    ghost var (all, end) := ExecFor(sem, count, item, body, scope, 0, start);
    g := start;
    var i: nat := 0;
    while i < Bound(sem, count, scope, g)
      invariant out.Valid() && (out.data == old(out.data) || fresh(out.data))
      invariant i < SIZE_T
      invariant out.Contents() + ExecFor(sem, count, item, body, scope, i, g).0 == before + all
      invariant ExecFor(sem, count, item, body, scope, i, g).1 == end
      decreases SIZE_T - i
    {
      ForAt(sem, count, item, body, scope, i, g);
      g := RunAll(out, sem, body, scope + [Binding(item, i)], g);
      i := i + 1;
    }
    ForAt(sem, count, item, body, scope, i, g);
  }

  /** A generated function from cweb_output_init to cweb_output_get. */
  method RunProgram<G>(sem: Sem<G>, ls: seq<Line>, start: G) returns (page: array<char>, g: G)
    requires FineLines(ls)
    ensures fresh(page) && CString(page[..]) == Run(sem, ls, [], start).0 && g == Run(sem, ls, [], start).1
  {
    FineBlockRead(ls);
    hide Exec, ReadBlock, FineAll, FineLines;
    var out := new Buffer();
    g := RunAll(out, sem, ReadBlock(ls).0, [], start);
    page := out.Get();
    assert "" + Run(sem, ls, [], start).0 == Run(sem, ls, [], start).0;
  }
}
