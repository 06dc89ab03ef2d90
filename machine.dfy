/** The interpreter as functions of its state: for every executing method of `Interpreter`
    a function from the state before to the outcome and the state after, following the same
    steps in the same order with the same fuel. Each method is proved to compute exactly its
    function; what the source promises about execution is proved here, about the functions.

    The fuel discipline is the methods': `RunStmt` and `Eval` spend one unit and hand the
    rest to the helpers, which pass it on unchanged; when it is zero the outcome is
    `Exhausted`. A `while` loop additionally counts its iterations against its fuel. */
module Machine {
  import opened Values
  import opened Text
  import opened Includes
  import opened Store
  import opened Rules
  import opened Semantics
  import Syntax

  /** Everything the interpreter owns: the variable store, the function table, the last
      `return` value, the base-directory stack, the module search list, the includes in
      progress, standard input, output and error. `leaked` is bookkeeping only: the include
      marks a failed include left in progress. */
  datatype State = State(
    vars: Vars,
    funcs: map<string, Syntax.Function>,
    currentReturn: Option<Value>,
    baseDirs: seq<Path>,
    modulesPaths: seq<Path>,
    inProgress: set<Path>,
    leaked: set<Path>,
    stdin: string,
    stdout: string,
    stderr: seq<string>)

  /** There is always a current base directory, and every mark recorded as left behind is
      still in progress. */
  predicate WellFormed(st: State) {
    |st.baseDirs| >= 1 && st.leaked <= st.inProgress
  }

  /** What every execution step keeps: the base-directory stack and the module search list
      are as before, the in-progress marks not left behind are as before, and no record of a
      left-behind mark is dropped. */
  predicate Kept(st0: State, st1: State) {
    WellFormed(st1) &&
    st1.baseDirs == st0.baseDirs && st1.modulesPaths == st0.modulesPaths &&
    st1.inProgress - st1.leaked == st0.inProgress - st0.leaked && st0.leaked <= st1.leaked
  }

  /** A list outcome with `acc` put in front of its values. */
  function Appended(acc: seq<Value>, o: Outcome<seq<Value>>): Outcome<seq<Value>> {
    match o
    case Ok(vs) => Ok(acc + vs)
    case Err(m) => Err(m)
    case Exhausted => Exhausted
  }

  lemma AppendedNothing(o: Outcome<seq<Value>>)
    ensures Appended([], o) == o
  {
    if o.Ok? { assert [] + o.value == o.value; }
  }

  /** Evaluating the first member of a list and then the rest after it. */
  lemma AppendedStep(host: Host, vars: Vars, es: seq<Syntax.Expr>, acc: seq<Value>)
    requires AllCallFree(es) && es != [] && PureEval(host, vars, es[0]).Ok?
    ensures AllCallFree(es[1..])
    ensures Appended(acc + [PureEval(host, vars, es[0]).value], PureEvalList(host, vars, es[1..])) ==
            Appended(acc, PureEvalList(host, vars, es))
  {
    assert AllCallFree(es[1..]);
    var rest := PureEvalList(host, vars, es[1..]);
    if rest.Ok? {
      var v := PureEval(host, vars, es[0]).value;
      assert acc + [v] + rest.value == acc + ([v] + rest.value);
    }
  }

  // ---------------------------------------------------------------------------------
  // Expressions

  /** `eval_expr`. An expression without user calls changes nothing and yields `PureEval` of
      the store, given fuel for its depth. */
  function Eval(host: Host, st: State, e: Syntax.Expr, fuel: nat): (r: (Outcome<Value>, State))
    ensures WellFormed(st) ==> Kept(st, r.1)
    ensures CallFree(e) ==> r.1 == st && (r.0.Exhausted? || r.0 == PureEval(host, st.vars, e))
    ensures CallFree(e) && Depth(e) < fuel ==> !r.0.Exhausted?
    decreases fuel, 0, 0
  {
    if fuel == 0 then (Exhausted, st)
    else
      match e
      case IntLit(n) => (Ok(Int(n)), st)
      case StringLit(s) => (Ok(Str(s)), st)
      case RegexLit(p) => (Ok(Regex(p)), st)
      case SubstCall(pat, repl, flags, input) => EvalSubstOf(host, st, pat, repl, flags, input, fuel - 1)
      case Variable(name) => (Ok(GetVar(st.vars, name)), st)
      case Binary(left, op, right) => EvalBinaryOf(host, st, left, op, right, fuel - 1)
      case Unary(op, x) => EvalUnaryOf(host, st, op, x, fuel - 1)
      case ArrayLit(elems) => EvalArrayOf(host, st, elems, fuel - 1)
      case Index(target, index) => EvalIndexOf(host, st, target, index, fuel - 1)
      case Call(name, args) => EvalCallOf(host, st, name, args, fuel - 1)
  }

  /** A substitution: the input, then the regex replacement on its text. */
  function EvalSubstOf(host: Host, st: State, pat: string, repl: string, flags: string, input: Syntax.Expr, fuel: nat)
    : (r: (Outcome<Value>, State))
    ensures WellFormed(st) ==> Kept(st, r.1)
    ensures CallFree(input) ==>
              r.1 == st && (r.0.Exhausted? || r.0 == PureEval(host, st.vars, Syntax.SubstCall(pat, repl, flags, input)))
    ensures CallFree(input) && Depth(input) < fuel ==> !r.0.Exhausted?
    decreases fuel, 1, 0
  {
    var (src, st1) := Eval(host, st, input, fuel);
    if src.IsFailure() then (src.PropagateFailure(), st1)
    else (Substitute(host, pat, repl, flags, host.ops.toString(src.value)), st1)
  }

  /** A unary operation: the operand, then the operator. */
  function EvalUnaryOf(host: Host, st: State, op: Syntax.UnaryOp, x: Syntax.Expr, fuel: nat): (r: (Outcome<Value>, State))
    ensures WellFormed(st) ==> Kept(st, r.1)
    ensures CallFree(x) ==> r.1 == st && (r.0.Exhausted? || r.0 == PureEval(host, st.vars, Syntax.Unary(op, x)))
    ensures CallFree(x) && Depth(x) < fuel ==> !r.0.Exhausted?
    decreases fuel, 1, 0
  {
    var (v, st1) := Eval(host, st, x, fuel);
    if v.IsFailure() then (v.PropagateFailure(), st1)
    else (Ok(EvalUnary(host.ops, op, v.value)), st1)
  }

  /** An array literal: the elements left to right. */
  function EvalArrayOf(host: Host, st: State, elems: seq<Syntax.Expr>, fuel: nat): (r: (Outcome<Value>, State))
    ensures WellFormed(st) ==> Kept(st, r.1)
    ensures AllCallFree(elems) ==>
              r.1 == st && (r.0.Exhausted? || r.0 == PureEval(host, st.vars, Syntax.ArrayLit(elems)))
    ensures AllCallFree(elems) && DepthList(elems) < fuel ==> !r.0.Exhausted?
    decreases fuel, 2, 0
  {
    var (vs, st1) := EvalArgs(host, st, elems, [], fuel);
    assert AllCallFree(elems) ==> Appended([], PureEvalList(host, st.vars, elems)) == PureEvalList(host, st.vars, elems) by {
      if AllCallFree(elems) { AppendedNothing(PureEvalList(host, st.vars, elems)); }
    }
    if vs.IsFailure() then (vs.PropagateFailure(), st1)
    else (Ok(Array(vs.value)), st1)
  }

  /** A binary operation: the left operand, then the right one, then the operator. */
  function EvalBinaryOf(host: Host, st: State, left: Syntax.Expr, op: Syntax.BinOp, right: Syntax.Expr, fuel: nat)
    : (r: (Outcome<Value>, State))
    ensures WellFormed(st) ==> Kept(st, r.1)
    ensures CallFree(left) && CallFree(right) ==>
              r.1 == st && (r.0.Exhausted? || r.0 == PureEval(host, st.vars, Syntax.Binary(left, op, right)))
    ensures CallFree(left) && CallFree(right) && Depth(left) < fuel && Depth(right) < fuel ==> !r.0.Exhausted?
    decreases fuel, 1, 0
  {
    var (lv, st1) := Eval(host, st, left, fuel);
    if lv.IsFailure() then (lv.PropagateFailure(), st1)
    else
      var (rv, st2) := Eval(host, st1, right, fuel);
      if rv.IsFailure() then (rv.PropagateFailure(), st2)
      else (EvalBinary(host, op, lv.value, rv.value), st2)
  }

  /** An indexing: the target, then the index, then the element. */
  function EvalIndexOf(host: Host, st: State, target: Syntax.Expr, index: Syntax.Expr, fuel: nat)
    : (r: (Outcome<Value>, State))
    ensures WellFormed(st) ==> Kept(st, r.1)
    ensures CallFree(target) && CallFree(index) ==>
              r.1 == st && (r.0.Exhausted? || r.0 == PureEval(host, st.vars, Syntax.Index(target, index)))
    ensures CallFree(target) && CallFree(index) && Depth(target) < fuel && Depth(index) < fuel ==> !r.0.Exhausted?
    decreases fuel, 1, 0
  {
    var (tv, st1) := Eval(host, st, target, fuel);
    if tv.IsFailure() then (tv.PropagateFailure(), st1)
    else
      var (iv, st2) := Eval(host, st1, index, fuel);
      if iv.IsFailure() then (iv.PropagateFailure(), st2)
      else (Ok(Values.Index(tv.value, host.ops.toInt(iv.value))), st2)
  }

  /** A list of expressions left to right, their values put after `acc`; the first failure
      stops it. */
  function EvalArgs(host: Host, st: State, es: seq<Syntax.Expr>, acc: seq<Value>, fuel: nat)
    : (r: (Outcome<seq<Value>>, State))
    ensures WellFormed(st) ==> Kept(st, r.1)
    ensures r.0.Ok? ==> |r.0.value| == |acc| + |es|
    ensures AllCallFree(es) ==> r.1 == st && (r.0.Exhausted? || r.0 == Appended(acc, PureEvalList(host, st.vars, es)))
    ensures AllCallFree(es) && DepthList(es) < fuel ==> !r.0.Exhausted?
    decreases fuel, 1, |es|
  {
    if es == [] then
      assert acc + [] == acc;
      (Ok(acc), st)
    else
      var (v, st1) := Eval(host, st, es[0], fuel);
      if v.IsFailure() then (v.PropagateFailure(), st1)
      else
        assert AllCallFree(es) ==>
                 AllCallFree(es[1..]) &&
                 Appended(acc + [v.value], PureEvalList(host, st.vars, es[1..])) == Appended(acc, PureEvalList(host, st.vars, es)) by {
          if AllCallFree(es) { AppendedStep(host, st.vars, es, acc); }
        }
        EvalArgs(host, st1, es[1..], acc + [v.value], fuel)
  }

  /** A call in an expression: a builtin name is applied to its first argument (the only one
      evaluated); a defined function is called and its return value, or `Nil` when it
      returned none, is the result; any other name warns and gives `Nil`. */
  function EvalCallOf(host: Host, st: State, name: string, args: seq<Syntax.Expr>, fuel: nat)
    : (r: (Outcome<Value>, State))
    ensures WellFormed(st) ==> Kept(st, r.1)
    ensures CallFree(Syntax.Call(name, args)) ==>
              r.1 == st && (r.0.Exhausted? || r.0 == PureEval(host, st.vars, Syntax.Call(name, args)))
    ensures CallFree(Syntax.Call(name, args)) && DepthList(args) < fuel ==> !r.0.Exhausted?
    decreases fuel, 3, 0
  {
    if Syntax.IsBuiltin(name) then
      if args == [] then (Ok(Builtin(host, name, None)), st)
      else
        var (v, st1) := Eval(host, st, args[0], fuel);
        if v.IsFailure() then (v.PropagateFailure(), st1)
        else (Ok(Builtin(host, name, Some(v.value))), st1)
    else if name in st.funcs then
      var (ret, st1) := CallFunction(host, st, st.funcs[name], args, fuel);
      var value := (match ret
                    case Ok(Some(v)) => Ok(v)
                    case Ok(None) => Ok(Nil)
                    case Err(m) => Err(m)
                    case Exhausted => Exhausted);
      (value, st1)
    else (Ok(Nil), st.(stderr := st.stderr + ["Warning: unknown function '" + name + "'"]))
  }

  /** The call protocol shared by call statements and call expressions: evaluate the
      arguments, save each parameter's value and bind the matching argument (or `Nil`), run
      the body, then restore the saved values. */
  function CallFunction(host: Host, st: State, f: Syntax.Function, args: seq<Syntax.Expr>, fuel: nat)
    : (r: (StmtOutcome, State))
    ensures WellFormed(st) ==> Kept(st, r.1)
    decreases fuel, 2, 0
  {
    var (ev, st1) := EvalArgs(host, st, args, [], fuel);
    if ev.IsFailure() then (ev.PropagateFailure(), st1)
    else
      var (bound, saved) := BindParams(st1.vars, f.params, ev.value);
      var (res, st2) := RunBlock(host, st1.(vars := bound), f.body, fuel);
      (res, st2.(vars := RestoreParams(st2.vars, saved)))
  }

  // ---------------------------------------------------------------------------------
  // Statements

  /** `execute_statement`. A value comes back only from `return`, and from an `if`, a
      `while` or a call that ran one; `return` also records its value. */
  function RunStmt(host: Host, st: State, s: Syntax.Stmt, fuel: nat): (r: (StmtOutcome, State))
    ensures WellFormed(st) ==> Kept(st, r.1)
    ensures fuel == 0 ==> r == (Exhausted, st)
    ensures r.0.Ok? && r.0.value.Some? ==> s.Return? || s.If? || s.While? || s.FunctionCall?
    ensures s.Return? && r.0.Ok? ==> r.0.value.Some? && r.1.currentReturn == r.0.value
    decreases fuel, 0, 0
  {
    if fuel == 0 then (Exhausted, st)
    else
      match s
      case If(cond, thenBody, elseIfs, elseBody) => RunIf(host, st, cond, thenBody, elseIfs, elseBody, fuel - 1)
      case While(cond, body) => RunWhile(host, st, cond, body, fuel - 1, fuel - 1)
      case Printf(format, args) => RunPrintf(host, st, format, args, fuel - 1)
      case Read(x) =>
        var (line, rest) := ReadLine(st.stdin);
        (Ok(None), st.(vars := st.vars[x := Str(TrimLineEnd(line))], stdin := rest))
      case Include(path) => RunInclude(host, st, path, fuel - 1)
      case FunctionDef(name, params, body) =>
        (Ok(None), st.(funcs := st.funcs[name := Syntax.Function(params, body)]))
      case FunctionCall(name, args) => RunCall(host, st, name, args, fuel - 1)
      case Return(ret) =>
        if ret.None? then (Ok(Some(Nil)), st.(currentReturn := Some(Nil)))
        else
          var (v, st1) := Eval(host, st, ret.value, fuel - 1);
          if v.IsFailure() then (v.PropagateFailure(), st1)
          else (Ok(Some(v.value)), st1.(currentReturn := Some(v.value)))
      case _ => RunStore(host, st, s, fuel - 1)
  }

  /** Which function runs an `if` or a `while`. */
  lemma RunStmtDispatch(host: Host, st: State, s: Syntax.Stmt, fuel: nat)
    requires fuel > 0
    ensures s.If? ==> RunStmt(host, st, s, fuel) == RunIf(host, st, s.cond, s.thenBody, s.elseIfs, s.elseBody, fuel - 1)
    ensures s.While? ==> RunStmt(host, st, s, fuel) == RunWhile(host, st, s.loopCond, s.loopBody, fuel - 1, fuel - 1)
  {
  }

  /** Which function runs an `include` or a call statement. */
  lemma RunStmtDispatchTransfer(host: Host, st: State, s: Syntax.Stmt, fuel: nat)
    requires fuel > 0
    ensures s.Include? ==> RunStmt(host, st, s, fuel) == RunInclude(host, st, s.path, fuel - 1)
    ensures s.FunctionCall? ==> RunStmt(host, st, s, fuel) == RunCall(host, st, s.name, s.callArgs, fuel - 1)
  {
  }

  /** Which function runs a `printf` or a store statement. */
  lemma RunStmtDispatchWrite(host: Host, st: State, s: Syntax.Stmt, fuel: nat)
    requires fuel > 0
    ensures s.Printf? ==> RunStmt(host, st, s, fuel) == RunPrintf(host, st, s.format, s.printArgs, fuel - 1)
    ensures IsStoreStmt(s) ==> RunStmt(host, st, s, fuel) == RunStore(host, st, s, fuel - 1)
  {
  }

  /** The statements that rewrite one variable. On operands without user calls, and with
      fuel for them, the new store is `StoreStep` of the old one and nothing else changes; a
      failing operand changes nothing. */
  function RunStore(host: Host, st: State, s: Syntax.Stmt, fuel: nat): (r: (StmtOutcome, State))
    requires IsStoreStmt(s)
    ensures WellFormed(st) ==> Kept(st, r.1)
    ensures !(r.0.Ok? && r.0.value.Some?)
    ensures AllCallFree(StmtExprs(s)) && DepthList(StmtExprs(s)) < fuel ==>
              var step := StoreStep(host, st.vars, s);
              (step.Ok? ==> r == (Ok(None), st.(vars := step.value))) &&
              (step.Err? ==> r == (Err(step.msg), st))
    decreases fuel, 2, 0
  {
    if IsUpdateStmt(s) then
      var x := Target(s);
      var current := GetVar(st.vars, x);
      var (v, st1) := Eval(host, st, StmtExprs(s)[0], fuel);
      if v.IsFailure() then (v.PropagateFailure(), st1)
      else (Ok(None), st1.(vars := st1.vars[x := Combine(host.ops, s, current, v.value)]))
    else
      match s
      case ArrayAssignment(a, i, e) =>
        assert StmtExprs(s)[0] == i && StmtExprs(s)[1] == e;
        var (iv, st1) := Eval(host, st, i, fuel);
        if iv.IsFailure() then (iv.PropagateFailure(), st1)
        else
          var idx := AsUsize(host.ops.toInt(iv.value));
          var (v, st2) := Eval(host, st1, e, fuel);
          if v.IsFailure() then (v.PropagateFailure(), st2)
          else (Ok(None), st2.(vars := st2.vars[a := AssignElement(GetVar(st2.vars, a), idx, v.value)]))
      case Pop(a) => (Ok(None), st.(vars := st.vars[a := PopValue(GetVar(st.vars, a))]))
      case Shift(a) => (Ok(None), st.(vars := st.vars[a := ShiftValue(GetVar(st.vars, a))]))
  }

  /** `printf`: the format and the rendered arguments, escapes replaced, go to standard output
      with a newline added unless the text ends in one; nothing is printed when an argument
      fails. */
  function RunPrintf(host: Host, st: State, format: string, args: seq<Syntax.Expr>, fuel: nat)
    : (r: (StmtOutcome, State))
    ensures WellFormed(st) ==> Kept(st, r.1)
    ensures !(r.0.Ok? && r.0.value.Some?)
    ensures AllCallFree(args) && DepthList(args) < fuel ==>
              var vals := PureEvalList(host, st.vars, args);
              (vals.Ok? ==> r == (Ok(None), st.(stdout := st.stdout + Emitted(PrintfText(format, vals.value))))) &&
              (vals.Err? ==> r == (Err(vals.msg), st))
    decreases fuel, 2, 0
  {
    var (vals, st1) := EvalArgs(host, st, args, [], fuel);
    assert AllCallFree(args) ==> Appended([], PureEvalList(host, st.vars, args)) == PureEvalList(host, st.vars, args) by {
      if AllCallFree(args) { AppendedNothing(PureEvalList(host, st.vars, args)); }
    }
    if vals.IsFailure() then (vals.PropagateFailure(), st1)
    else (Ok(None), st1.(stdout := st1.stdout + Emitted(PrintfText(format, vals.value))))
  }

  /** The statements of a body, in order, until one yields a return value or exhausts the
      fuel (that outcome is the body's); a statement that fails is skipped over. */
  function RunBlock(host: Host, st: State, body: seq<Syntax.Stmt>, fuel: nat): (r: (StmtOutcome, State))
    ensures WellFormed(st) ==> Kept(st, r.1)
    ensures !r.0.Err?
    decreases fuel, 1, |body|
  {
    if body == [] then (Ok(None), st)
    else
      var (o, st1) := RunStmt(host, st, body[0], fuel);
      if Stops(o) then (o, st1) else RunBlock(host, st1, body[1..], fuel)
  }

  /** `execute`: the statements in order, stopping at the first failure; a return value at
      this level is ignored. */
  function RunProgram(host: Host, st: State, stmts: seq<Syntax.Stmt>, fuel: nat): (r: (Outcome<()>, State))
    ensures WellFormed(st) ==> Kept(st, r.1)
    decreases fuel, 1, |stmts|
  {
    if stmts == [] then (Ok(()), st)
    else
      var (o, st1) := RunStmt(host, st, stmts[0], fuel);
      if o.IsFailure() then (o.PropagateFailure(), st1) else RunProgram(host, st1, stmts[1..], fuel)
  }

  /** The `elseif` part of the condition scan, from the k-th condition on: the position of the
      first truthy condition, or `|elseIfs|` when none is; a condition's failure ends it. */
  function ScanOf(host: Host, st: State, elseIfs: seq<Syntax.ElseIf>, k: nat, fuel: nat): (r: (Outcome<nat>, State))
    requires k <= |elseIfs|
    ensures WellFormed(st) ==> Kept(st, r.1)
    ensures r.0.Ok? ==> k <= r.0.value <= |elseIfs|
    decreases fuel, 1, |elseIfs| - k
  {
    if k == |elseIfs| then (Ok(k), st)
    else
      var (c, st1) := Eval(host, st, elseIfs[k].cond, fuel);
      if c.IsFailure() then (c.PropagateFailure(), st1)
      else if host.ops.isTruthy(c.value) then (Ok(k), st1)
      else ScanOf(host, st1, elseIfs, k + 1, fuel)
  }

  /** The condition scan of `if` / `elseif` / `else`: the branch to run. */
  function SelectOf(host: Host, st: State, cond: Syntax.Expr, elseIfs: seq<Syntax.ElseIf>, hasElse: bool, fuel: nat)
    : (r: (Outcome<Branch>, State))
    ensures WellFormed(st) ==> Kept(st, r.1)
    ensures r.0.Ok? && r.0.value.ElseIfBranch? ==> r.0.value.k < |elseIfs|
    ensures r.0 == Ok(ElseBranch) ==> hasElse
    decreases fuel, 2, 0
  {
    var (c, st1) := Eval(host, st, cond, fuel);
    if c.IsFailure() then (c.PropagateFailure(), st1)
    else if host.ops.isTruthy(c.value) then (Ok(ThenBranch), st1)
    else
      var (k, st2) := ScanOf(host, st1, elseIfs, 0, fuel);
      if k.IsFailure() then (k.PropagateFailure(), st2)
      else if k.value < |elseIfs| then (Ok(ElseIfBranch(k.value)), st2)
      else if hasElse then (Ok(ElseBranch), st2)
      else (Ok(NoBranch), st2)
  }

  /** `if` / `elseif` / `else`: after the condition scan only the chosen body runs. */
  function RunIf(host: Host, st: State, cond: Syntax.Expr, thenBody: seq<Syntax.Stmt>, elseIfs: seq<Syntax.ElseIf>,
                 elseBody: Option<seq<Syntax.Stmt>>, fuel: nat): (r: (StmtOutcome, State))
    ensures WellFormed(st) ==> Kept(st, r.1)
    decreases fuel, 3, 0
  {
    var (sel, st1) := SelectOf(host, st, cond, elseIfs, elseBody.Some?, fuel);
    if sel.IsFailure() then (sel.PropagateFailure(), st1)
    else RunBlock(host, st1, BranchBody(thenBody, elseIfs, elseBody, sel.value), fuel)
  }

  /** `while` with `budget` iterations left: the body runs while the condition is truthy;
      the loop ends when it is not, or when the body yields a return value (passed up). */
  function RunWhile(host: Host, st: State, cond: Syntax.Expr, body: seq<Syntax.Stmt>, fuel: nat, budget: nat)
    : (r: (StmtOutcome, State))
    ensures WellFormed(st) ==> Kept(st, r.1)
    decreases fuel, 2, budget
  {
    if budget == 0 then (Exhausted, st)
    else
      var (c, st1) := Eval(host, st, cond, fuel);
      if c.IsFailure() then (c.PropagateFailure(), st1)
      else if !host.ops.isTruthy(c.value) then (Ok(None), st1)
      else
        var (b, st2) := RunBlock(host, st1, body, fuel);
        if b != Ok(None) then (b, st2) else RunWhile(host, st2, cond, body, fuel, budget - 1)
  }

  /** The state an included file starts in: its mark added, and the directory of the file
      pushed as the base directory when it has one. */
  function IncludeEntry(host: Host, st: State, resolved: Path, canonical: Path): State {
    var marked := st.(inProgress := st.inProgress + {canonical});
    match Parent(resolved)
    case Some(dir) => marked.(baseDirs := marked.baseDirs + [Canon(host, dir)])
    case None => marked
  }

  /** Leaving an included file: the directory pushed for it is popped (the bottom entry never
      is). */
  function IncludeExit(st: State, resolved: Path): State {
    if Parent(resolved).Some? && |st.baseDirs| > 1 then st.(baseDirs := st.baseDirs[..|st.baseDirs| - 1]) else st
  }

  /** An include: refused when its canonical path is already being included; otherwise it is
      marked, read, parsed and run from its own directory, and unmarked when it succeeds. A
      failure while running it returns before the mark is removed. */
  function RunInclude(host: Host, st: State, path: Path, fuel: nat): (r: (StmtOutcome, State))
    ensures WellFormed(st) ==> Kept(st, r.1)
    ensures !(r.0.Ok? && r.0.value.Some?)
    ensures var resolved := ResolveIncludePath(host, st.baseDirs, st.modulesPaths, path);
            var c := Canon(host, resolved);
            (c in st.inProgress ==> r == (Err("Include cycle detected (already in progress): " + c), st)) &&
            (c !in st.inProgress && host.readFile(resolved).ReadError? ==>
               r == (Err("Failed to include file: " + host.readFile(resolved).reason), st)) &&
            (WellFormed(st) && c !in st.inProgress && host.readFile(resolved).Contents? ==>
               var run := RunProgram(host, IncludeEntry(host, st, resolved, c), host.parse(host.readFile(resolved).text), fuel);
               (run.0.Ok? ==> r.0 == Ok(None) && c !in r.1.inProgress) &&
               (run.0.IsFailure() ==> r.0 == run.0.PropagateFailure() && c in r.1.inProgress && c in r.1.leaked))
    decreases fuel, 2, 0
  {
    var resolved := ResolveIncludePath(host, st.baseDirs, st.modulesPaths, path);
    var canonical := Canon(host, resolved);
    if canonical in st.inProgress then (Err("Include cycle detected (already in progress): " + canonical), st)
    else
      match host.readFile(resolved)
      case ReadError(reason) =>
        assert (st.inProgress + {canonical}) - {canonical} == st.inProgress;
        (Err("Failed to include file: " + reason), st)
      case Contents(text) =>
        var entry := IncludeEntry(host, st, resolved, canonical);
        var (res, st3) := RunProgram(host, entry, host.parse(text), fuel);
        var st4 := IncludeExit(st3, resolved);
        IncludeKept(st, entry, st3, st4, resolved, canonical);
        if res.IsFailure() then (res.PropagateFailure(), st4.(leaked := st4.leaked + {canonical}))
        else (Ok(None), st4.(inProgress := st4.inProgress - {canonical}))
  }

  /** The bookkeeping of an include that ran its file: the base directories come back as they
      were, and the file's mark is the only pending mark added. */
  lemma IncludeKept(st: State, entry: State, st3: State, st4: State, resolved: Path, canonical: Path)
    requires canonical !in st.inProgress
    requires entry.inProgress == st.inProgress + {canonical} && entry.leaked == st.leaked
    requires entry.modulesPaths == st.modulesPaths
    requires Parent(resolved).Some? ==> |entry.baseDirs| == |st.baseDirs| + 1 && entry.baseDirs[..|st.baseDirs|] == st.baseDirs
    requires Parent(resolved).None? ==> entry.baseDirs == st.baseDirs
    requires WellFormed(st) ==> Kept(entry, st3)
    requires st4 == IncludeExit(st3, resolved)
    ensures WellFormed(st) ==>
              WellFormed(st4) && st4.baseDirs == st.baseDirs && st4.modulesPaths == st.modulesPaths &&
              st4.inProgress - st4.leaked == (st.inProgress - st.leaked) + {canonical} && st.leaked <= st4.leaked &&
              canonical in st4.inProgress && canonical !in st4.leaked
  {
  }

  /** A call statement: `sleep` is handled before any lookup (its argument is evaluated and
      nothing else happens); a defined function is called and its return value passed up;
      any other name warns and does nothing. */
  function RunCall(host: Host, st: State, name: string, args: seq<Syntax.Expr>, fuel: nat): (r: (StmtOutcome, State))
    ensures WellFormed(st) ==> Kept(st, r.1)
    ensures r.0.Ok? && r.0.value.Some? ==> name != "sleep" && name in st.funcs
    decreases fuel, 3, 0
  {
    if name == "sleep" then
      if args == [] then (Ok(None), st)
      else
        var (seconds, st1) := Eval(host, st, args[0], fuel);
        if seconds.IsFailure() then (seconds.PropagateFailure(), st1) else (Ok(None), st1)
    else if name in st.funcs then CallFunction(host, st, st.funcs[name], args, fuel)
    else (Ok(None), st.(stderr := st.stderr + ["Warning: function '" + name + "' not defined"]))
  }
}
