/** What a generated function prints when it runs. The lines are read back as C blocks
    and executed; C expressions and <% %> blocks are opaque functions of the program
    state G, and a loop index is a size_t. */
module CSemantics {
  import opened Text
  import opened Literal
  import opened Escape
  import opened Values
  import opened Codegen

  // ---------------------------------------------------------------- C structure

  datatype Item = Item(name: string, items: string)

  datatype Stmt =
    | Print(lit: string)
    | PrintText(expr: string, escape: bool)
    | PrintTruth(expr: string, escape: bool)
    | PrintIfSet(expr: string, escape: bool)
    | Compound(steps: seq<Line>)                // a block with its own char array
    | Block(text: string)
    | For(count: string, item: Option<Item>, body: seq<Stmt>)
    | If(condition: string, thn: seq<Stmt>, els: seq<Stmt>)

  /** One statement at the start of the lines, if they form one, and the lines after it. */
  function ReadStmt(ls: seq<Line>): (r: Option<(Stmt, seq<Line>)>)
    ensures r.Some? ==> |r.value.1| < |ls|
    decreases |ls|, 0
  {
    if ls == [] then None
    else
      match ls[0]
      case OutRaw(lit) => Some((Print(lit), ls[1..]))
      case StyleTag(lit) => Some((Print(lit), ls[1..]))
      case OutText(expr, escape) => Some((PrintText(expr, escape), ls[1..]))
      case OutTruth(expr, escape) => Some((PrintTruth(expr, escape), ls[1..]))
      case OutIfSet(expr, escape) => Some((PrintIfSet(expr, escape), ls[1..]))
      case Open =>
        var n := StepCount(ls[1..]);
        var rest := ls[1..][n..];
        if StartsWith(rest, Close) then Some((Compound(ls[1..][..n]), rest[1..])) else None
      case CodeLine(text) => Some((Block(text), ls[1..]))
      case ForOpen(count) =>
        var item := ItemAt(ls[1..]);
        var (body, rest) := ReadBlock(if item.Some? then ls[1..][1..] else ls[1..]);
        if StartsWith(rest, Close) then Some((For(count, item, body), rest[1..])) else None
      case IfOpen(condition) =>
        var (thn, rest) := ReadBlock(ls[1..]);
        if StartsWith(rest, Close) then Some((If(condition, thn, []), rest[1..]))
        else if StartsWith(rest, ElseLine) then
          var (els, rest') := ReadBlock(rest[1..]);
          if StartsWith(rest', Close) then Some((If(condition, thn, els), rest'[1..])) else None
        else None
      case _ => None
  }

  predicate IsStep(l: Line) {
    l.Declare? || l.Store? || l.BreakDown? || l.StoreTime? || l.OutStored?
  }

  /** How many lines at the start may stand in a block with a char array. */
  function StepCount(ls: seq<Line>): (n: nat)
    ensures n <= |ls|
  {
    if ls == [] || !IsStep(ls[0]) then 0 else 1 + StepCount(ls[1..])
  }

  predicate StartsWith(ls: seq<Line>, l: Line) {
    ls != [] && ls[0] == l
  }

  /** Statements up to the end of the lines, or to the first line that starts none. */
  function ReadBlock(ls: seq<Line>): (r: (seq<Stmt>, seq<Line>))
    ensures |r.1| <= |ls|
    decreases |ls|, 1
  {
    match ReadStmt(ls)
    case None => ([], ls)
    case Some(x) => var (ss, rest) := ReadBlock(x.1); ([x.0] + ss, rest)
  }

  function ItemAt(ls: seq<Line>): Option<Item> {
    if ls != [] && ls[0].LetItem? then Some(Item(ls[0].name, ls[0].items)) else None
  }

  /** The lines are well-formed C: every block is closed and nothing is left over. */
  ghost predicate Balanced(ls: seq<Line>) {
    ReadBlock(ls).1 == []
  }

  // ------------------------------------------------------------------ execution

  /** One enclosing loop: the item it declares, and the current index. */
  datatype Binding = Binding(item: Option<Item>, index: nat)

  type Scope = seq<Binding>

  /** The program around the template: what its expressions yield where the generated
      code asks for a C type, what its code blocks do, the local time, and what a char
      array holds before it is written. */
  datatype Sem<!G> = Sem(
    count: (string, Scope, G) -> int,
    holds: (string, Scope, G) -> bool,
    int32: (string, Scope, G) -> Int32,
    int64: (string, Scope, G) -> Int64,
    size: (string, Scope, G) -> Size,
    float: (string, Scope, G) -> Float,
    truth: (string, Scope, G) -> bool,
    time: (string, Scope, G) -> Int64,
    text: (string, Scope, G) -> Option<CText>,
    run: (string, Scope, G) -> (CText, G),
    localtime: Int64 -> Tm,
    memory: nat -> char)

  type Outcome<G> = (string, G)

  /** The loop bound, converted to size_t as in `i < count`. */
  function Bound<G>(sem: Sem<G>, count: string, scope: Scope, g: G): (n: nat)
    ensures n < SIZE_T
  {
    sem.count(count, scope, g) % SIZE_T
  }

  /** An empty condition is generated as `if (false)`. */
  function Holds<G>(sem: Sem<G>, condition: string, scope: Scope, g: G): bool {
    condition != "" && sem.holds(condition, scope, g)
  }

  /** cweb_output_html or cweb_output_raw; NULL prints nothing. */
  function Sent(text: Option<string>, escape: bool): string {
    match text
    case None => ""
    case Some(s) => if escape then Escaped(s) else s
  }

  // ------------------------------------------------------------ local char arrays

  /** The locals of one block. */
  datatype Local = Local(buffer: seq<char>, tm: Option<Tm>)

  /** snprintf into an array of |buffer| bytes: what does not fit is cut. */
  function Stored(buffer: seq<char>, text: string): (r: seq<char>)
    ensures |r| == |buffer|
  {
    if buffer == [] then buffer
    else
      var n := if |text| < |buffer| then |text| else |buffer| - 1;
      text[..n] + [NUL] + buffer[n + 1..]
  }

  function Converted<G>(sem: Sem<G>, conversion: Conversion, expr: string, scope: Scope, g: G): string {
    match conversion
    case PercentD => Decimal(sem.int32(expr, scope, g))
    case PercentLd => Decimal(sem.int64(expr, scope, g))
    case PercentZu => Decimal(sem.size(expr, scope, g))
    case PercentF => Fixed(sem.float(expr, scope, g))
  }

  /** One line of a block. strftime stores nothing when the text does not fit. */
  function Step<G>(sem: Sem<G>, l: Line, local: Local, scope: Scope, g: G): Local {
    match l
    case Declare(size) => Local(seq(size, i requires 0 <= i < size => sem.memory(i)), local.tm)
    case Store(conversion, expr) => local.(buffer := Stored(local.buffer, Converted(sem, conversion, expr, scope, g)))
    case BreakDown(expr) => local.(tm := Some(sem.localtime(sem.time(expr, scope, g))))
    case StoreTime =>
      if local.tm.Some? && |Clock(local.tm.value)| < |local.buffer|
      then local.(buffer := Stored(local.buffer, Clock(local.tm.value))) else local
    case _ => local
  }

  /** The lines of a block in turn; its array ends with it. */
  function ExecSteps<G>(sem: Sem<G>, steps: seq<Line>, local: Local, scope: Scope, g: G): string {
    if steps == [] then ""
    else
      (if steps[0].OutStored? then Sent(Some(CString(local.buffer)), steps[0].escape) else "")
      + ExecSteps(sem, steps[1..], Step(sem, steps[0], local, scope, g), scope, g)
  }

  function LiteralValue(lit: string): string {
    match DecodeLiteral(lit)
    case Some(r) => r.0
    case None => ""
  }

  function Exec<G>(sem: Sem<G>, ss: seq<Stmt>, scope: Scope, g: G): Outcome<G>
    decreases ss, 0
  {
    if ss == [] then ("", g)
    else
      var (o, g') := ExecOne(sem, ss[0], scope, g);
      var (o', g'') := Exec(sem, ss[1..], scope, g');
      (o + o', g'')
  }

  function ExecOne<G>(sem: Sem<G>, s: Stmt, scope: Scope, g: G): Outcome<G>
    decreases s, 0
  {
    match s
    case Print(lit) => (LiteralValue(lit), g)
    case PrintText(expr, escape) => (Sent(sem.text(expr, scope, g), escape), g)
    case PrintTruth(expr, escape) => (Sent(Some(if sem.truth(expr, scope, g) then "true" else "false"), escape), g)
    case PrintIfSet(expr, escape) =>
      (if sem.text(expr, scope, g).Some? then Sent(sem.text(expr, scope, g), escape) else "", g)
    case Compound(steps) => (ExecSteps(sem, s.steps, Local([], None), scope, g), g)
    case Block(text) => sem.run(text, scope, g)
    case For(count, item, body) => ExecFor(sem, s.count, s.item, s.body, scope, 0, g)
    case If(condition, thn, els) => Exec(sem, if Holds(sem, condition, scope, g) then s.thn else s.els, scope, g)
  }

  /** The iterations from index i on; the bound is evaluated before each of them. */
  function ExecFor<G>(sem: Sem<G>, count: string, item: Option<Item>, body: seq<Stmt>, scope: Scope, i: nat,
      g: G): Outcome<G>
    decreases body, SIZE_T - i
  {
    if i < Bound(sem, count, scope, g) then
      var (o, g') := Exec(sem, body, scope + [Binding(item, i)], g);
      var (o', g'') := ExecFor(sem, count, item, body, scope, i + 1, g');
      (o + o', g'')
    else ("", g)
  }

  /** Running a generated function on its lines. */
  function Run<G>(sem: Sem<G>, ls: seq<Line>, scope: Scope, g: G): Outcome<G> {
    Exec(sem, ReadBlock(ls).0, scope, g)
  }

  lemma StmtBalanced(ls: seq<Line>)
    requires ReadStmt(ls).Some? && ReadStmt(ls).value.1 == []
    ensures Balanced(ls)
  {
    assert ReadBlock([]) == ([], []);
    hide ReadStmt;
  }

  // ------------------------------------------------------- reading concatenations

  lemma {:induction false} StepCountConcat(a: seq<Line>, b: seq<Line>)
    requires StepCount(a) < |a|
    ensures StepCount(a + b) == StepCount(a)
  {
    if IsStep(a[0]) {
      assert (a + b)[1..] == a[1..] + b;
      StepCountConcat(a[1..], b);
    }
  }

  lemma CompoundConcat(a: seq<Line>, b: seq<Line>)
    requires ReadStmt(a).Some? && a[0].Open?
    ensures ReadStmt(a + b) == Some((ReadStmt(a).value.0, ReadStmt(a).value.1 + b))
  {
    var t := a[1..];
    assert (a + b)[1..] == t + b;
    StepCountConcat(t, b);
    var n := StepCount(t);
    assert (t + b)[..n] == t[..n] && (t + b)[n..] == t[n..] + b;
    assert (t[n..] + b)[1..] == t[n..][1..] + b;
    hide StepCount, ReadBlock;
  }

  /** What follows a statement or a closed block does not change how it is read. */
  lemma {:induction false} StmtConcat(a: seq<Line>, b: seq<Line>)
    requires ReadStmt(a).Some?
    ensures ReadStmt(a + b) == Some((ReadStmt(a).value.0, ReadStmt(a).value.1 + b))
    decreases |a|, 1
  {
    if a[0].ForOpen? {
      ForConcat(a, b);
    } else if a[0].Open? {
      CompoundConcat(a, b);
    } else if a[0].IfOpen? {
      IfConcat(a, b);
    } else {
      assert (a + b)[1..] == a[1..] + b;
      hide ReadBlock, StepCount, ItemAt;
    }
  }

  lemma {:induction false} IfConcat(a: seq<Line>, b: seq<Line>)
    requires ReadStmt(a).Some? && a[0].IfOpen?
    ensures ReadStmt(a + b) == Some((ReadStmt(a).value.0, ReadStmt(a).value.1 + b))
    decreases |a|, 0
  {
    assert (a + b)[0] == a[0] && (a + b)[1..] == a[1..] + b;
    hide ReadBlock;
    var rest := ReadBlock(a[1..]).1;
    BlockConcat(a[1..], b);
    assert rest != [];
    assert (rest + b)[0] == rest[0] && (rest + b)[1..] == rest[1..] + b;
    if StartsWith(rest, ElseLine) {
      var rest' := ReadBlock(rest[1..]).1;
      BlockConcat(rest[1..], b);
      assert rest' != [];
      assert (rest' + b)[0] == rest'[0] && (rest' + b)[1..] == rest'[1..] + b;
    }
  }

  lemma {:induction false} ForConcat(a: seq<Line>, b: seq<Line>)
    requires ReadStmt(a).Some? && a[0].ForOpen?
    ensures ReadStmt(a + b) == Some((ReadStmt(a).value.0, ReadStmt(a).value.1 + b))
    decreases |a|, 0
  {
    var t := a[1..];
    assert (a + b)[1..] == t + b;
    assert t != [];
    var body := if ItemAt(t).Some? then t[1..] else t;
    assert (t + b)[1..] == t[1..] + b;
    var rest := ReadBlock(body).1;
    BlockConcat(body, b);
    assert (rest + b)[1..] == rest[1..] + b;
    hide ReadBlock;
  }

  lemma BlockUnfolds(ls: seq<Line>)
    ensures ReadStmt(ls).None? ==> ReadBlock(ls) == ([], ls)
    ensures ReadStmt(ls).Some? ==>
              var (s, tail) := ReadStmt(ls).value;
              ReadBlock(ls) == ([s] + ReadBlock(tail).0, ReadBlock(tail).1)
  {
    hide ReadStmt;
  }

  /** The first line ends a block, or there is none. */
  lemma NoStmt(ls: seq<Line>)
    requires ls == [] || ls[0].Close? || ls[0].ElseLine?
    ensures ReadStmt(ls).None?
  {}

  lemma {:induction false} BlockConcat(a: seq<Line>, b: seq<Line>)
    ensures var (ss, rest) := ReadBlock(a);
            && (rest == [] ==> ReadBlock(a + b) == (ss + ReadBlock(b).0, ReadBlock(b).1))
            && (StartsWith(rest, Close) || StartsWith(rest, ElseLine) ==> ReadBlock(a + b) == (ss, rest + b))
    decreases |a|, 2
  {
    hide ReadStmt, ReadBlock;
    BlockUnfolds(a);
    BlockUnfolds(a + b);
    if ReadStmt(a).Some? {
      var (s, tail) := ReadStmt(a).value;
      StmtConcat(a, b);
      BlockConcat(tail, b);
      assert [s] + (ReadBlock(tail).0 + ReadBlock(b).0) == ([s] + ReadBlock(tail).0) + ReadBlock(b).0;
    } else if a == [] {
      assert a + b == b;
      assert [] + ReadBlock(b).0 == ReadBlock(b).0;
    } else if a[0].Close? || a[0].ElseLine? {
      NoStmt(a + b);
    }
  }

  // -------------------------------------------------------------- running blocks

  lemma {:induction false} ExecConcat<G>(sem: Sem<G>, a: seq<Stmt>, b: seq<Stmt>, scope: Scope, g: G)
    ensures var (o, g') := Exec(sem, a, scope, g);
            Exec(sem, a + b, scope, g) == (o + Exec(sem, b, scope, g').0, Exec(sem, b, scope, g').1)
  {
    if a == [] {
      assert a + b == b;
      assert "" + Exec(sem, b, scope, g).0 == Exec(sem, b, scope, g).0;
    } else {
      var (o, g') := ExecOne(sem, a[0], scope, g);
      assert (a + b)[1..] == a[1..] + b;
      assert (a + b)[0] == a[0];
      hide ExecOne;
      ExecConcat(sem, a[1..], b, scope, g');
      var (o', g'') := Exec(sem, a[1..], scope, g');
      assert o + (o' + Exec(sem, b, scope, g'').0) == o + o' + Exec(sem, b, scope, g'').0;
    }
  }

  /** Balanced pieces run one after the other. */
  lemma RunConcat<G>(sem: Sem<G>, a: seq<Line>, b: seq<Line>, scope: Scope, g: G)
    requires Balanced(a) && Balanced(b)
    ensures Balanced(a + b)
    ensures var (o, g') := Run(sem, a, scope, g);
            Run(sem, a + b, scope, g) == (o + Run(sem, b, scope, g').0, Run(sem, b, scope, g').1)
  {
    BlockConcat(a, b);
    ExecConcat(sem, ReadBlock(a).0, ReadBlock(b).0, scope, g);
  }

  lemma RunOne<G>(sem: Sem<G>, ls: seq<Line>, scope: Scope, g: G)
    requires ReadStmt(ls).Some? && ReadStmt(ls).value.1 == []
    ensures Balanced(ls) && Run(sem, ls, scope, g) == ExecOne(sem, ReadStmt(ls).value.0, scope, g)
  {
    var s := ReadStmt(ls).value.0;
    assert ReadBlock([]) == ([], []);
    assert ReadBlock(ls) == ([s] + [], []);
    assert ([s] + [])[1..] == [];
    hide ExecOne, ReadStmt;
    var (o, g') := ExecOne(sem, s, scope, g);
    assert Exec(sem, [], scope, g') == ("", g');
    assert o + "" == o;
  }

  lemma RunEmpty<G>(sem: Sem<G>, scope: Scope, g: G)
    ensures Balanced([]) && Run(sem, [], scope, g) == ("", g)
  {}

  /** A balanced body stops at the line that closes its block. */
  lemma ReadBody(body: seq<Line>, tail: seq<Line>)
    requires Balanced(body) && (StartsWith(tail, Close) || StartsWith(tail, ElseLine))
    ensures ReadBlock(body + tail) == (ReadBlock(body).0, tail)
  {
    BlockConcat(body, tail);
    assert ReadBlock(tail) == ([], tail);
    assert ReadBlock(body).0 + [] == ReadBlock(body).0;
  }

  function ForLine(count: string, item: Option<Item>): seq<Line> {
    [ForOpen(count)] + if item.Some? then [LetItem(item.value.name, item.value.items)] else []
  }

  /** A balanced body between the lines of a loop is the body of that loop. */
  lemma ReadFor(count: string, item: Option<Item>, body: seq<Line>)
    requires Balanced(body) && (item.None? ==> ItemAt(body + [Close]) == None)
    ensures ReadStmt(ForLine(count, item) + body + [Close]) == Some((For(count, item, ReadBlock(body).0), []))
  {
    hide ReadBlock, Balanced;
    ReadBody(body, [Close]);
    var ls := ForLine(count, item) + body + [Close];
    if item.Some? {
      var let := LetItem(item.value.name, item.value.items);
      assert ls[1..] == [let] + (body + [Close]);
      assert ls[1..][1..] == body + [Close];
    } else {
      assert ls[1..] == body + [Close];
    }
    assert [Close][1..] == [];
  }

  lemma ReadIf(condition: string, thn: seq<Line>)
    requires Balanced(thn)
    ensures ReadStmt([IfOpen(condition)] + thn + [Close]) == Some((If(condition, ReadBlock(thn).0, []), []))
  {
    hide ReadBlock, Balanced;
    ReadBody(thn, [Close]);
    assert ([IfOpen(condition)] + thn + [Close])[1..] == thn + [Close];
    assert [Close][1..] == [];
  }

  lemma ReadIfElse(condition: string, thn: seq<Line>, els: seq<Line>)
    requires Balanced(thn) && Balanced(els)
    ensures ReadStmt([IfOpen(condition)] + thn + ([ElseLine] + els) + [Close])
            == Some((If(condition, ReadBlock(thn).0, ReadBlock(els).0), []))
  {
    hide ReadBlock, Balanced;
    var rest := [ElseLine] + els + [Close];
    ReadBody(els, [Close]);
    ReadBody(thn, rest);
    var ls := [IfOpen(condition)] + thn + ([ElseLine] + els) + [Close];
    assert ls[1..] == thn + rest;
    assert rest[1..] == els + [Close];
    assert [Close][1..] == [];
  }
}
