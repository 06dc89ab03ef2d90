/** What execution promises, proved about the functions of `Machine` that the interpreter's
    methods compute: how a body and a program compose and what result their statements'
    outcomes give them, which branch an `if` runs, how a `while` loop iterates, what a user
    call leaves in the store, what `return` records, and the `push`/`pop` round trip. */
module Laws {
  import opened Values
  import opened Includes
  import opened Store
  import opened Semantics
  import opened Machine
  import Syntax

  // ---------------------------------------------------------------------------------
  // Bodies and programs

  /** Running `b1 + b2` runs `b1`, then `b2` from the state `b1` left, unless `b1` stopped
      the body (returned a value or ran out of fuel). */
  lemma {:induction false} RunBlockAppend(host: Host, st: State, b1: seq<Syntax.Stmt>, b2: seq<Syntax.Stmt>, fuel: nat)
    ensures RunBlock(host, st, b1 + b2, fuel) ==
              var (o, st1) := RunBlock(host, st, b1, fuel);
              if o == Ok(None) then RunBlock(host, st1, b2, fuel) else (o, st1)
    decreases |b1|
  {
    if b1 == [] {
      assert b1 + b2 == b2;
    } else {
      assert (b1 + b2)[0] == b1[0];
      assert (b1 + b2)[1..] == b1[1..] + b2;
      RunBlockAppend(host, RunStmt(host, st, b1[0], fuel).1, b1[1..], b2, fuel);
    }
  }

  /** Running the program `a + b` runs `a`, then `b` from the state `a` left, unless `a`
      failed. */
  lemma {:induction false} RunProgramAppend(host: Host, st: State, a: seq<Syntax.Stmt>, b: seq<Syntax.Stmt>, fuel: nat)
    ensures RunProgram(host, st, a + b, fuel) ==
              var (o, st1) := RunProgram(host, st, a, fuel);
              if o.Ok? then RunProgram(host, st1, b, fuel) else (o, st1)
    decreases |a|
  {
    if a == [] {
      assert a + b == b;
    } else {
      assert (a + b)[0] == a[0];
      assert (a + b)[1..] == a[1..] + b;
      RunProgramAppend(host, RunStmt(host, st, a[0], fuel).1, a[1..], b, fuel);
    }
  }

  /** The outcomes of the statements a body runs, in order, each statement starting from the
      state the previous one left. */
  function BlockOutcomes(host: Host, st: State, body: seq<Syntax.Stmt>, fuel: nat): seq<StmtOutcome>
    decreases |body|
  {
    if body == [] then []
    else
      var (o, st1) := RunStmt(host, st, body[0], fuel);
      if Stops(o) then [o] else [o] + BlockOutcomes(host, st1, body[1..], fuel)
  }

  /** A body runs its statements until one stops it, and yields what `BlockResult` gives for
      their outcomes: the first return value, errors skipped over. */
  lemma {:induction false} RunBlockOutcomes(host: Host, st: State, body: seq<Syntax.Stmt>, fuel: nat)
    ensures BlockTrace(BlockOutcomes(host, st, body, fuel), |body|)
    ensures RunBlock(host, st, body, fuel).0 == BlockResult(BlockOutcomes(host, st, body, fuel))
    decreases |body|
  {
    if body != [] {
      var (o, st1) := RunStmt(host, st, body[0], fuel);
      if !Stops(o) {
        RunBlockOutcomes(host, st1, body[1..], fuel);
        var t := BlockOutcomes(host, st1, body[1..], fuel);
        assert ([o] + t)[1..] == t;
        assert forall j :: 1 <= j < |[o] + t| ==> ([o] + t)[j] == t[j - 1];
      }
    }
  }

  /** The outcomes of the statements a program runs, in order. */
  function ProgramOutcomes(host: Host, st: State, stmts: seq<Syntax.Stmt>, fuel: nat): seq<StmtOutcome>
    decreases |stmts|
  {
    if stmts == [] then []
    else
      var (o, st1) := RunStmt(host, st, stmts[0], fuel);
      if o.IsFailure() then [o] else [o] + ProgramOutcomes(host, st1, stmts[1..], fuel)
  }

  /** A program runs its statements until one fails, and yields what `RunResult` gives for
      their outcomes: the first failure, return values ignored. */
  lemma {:induction false} RunProgramOutcomes(host: Host, st: State, stmts: seq<Syntax.Stmt>, fuel: nat)
    ensures RunTrace(ProgramOutcomes(host, st, stmts, fuel), |stmts|)
    ensures RunProgram(host, st, stmts, fuel).0 == RunResult(ProgramOutcomes(host, st, stmts, fuel))
    decreases |stmts|
  {
    if stmts != [] {
      var (o, st1) := RunStmt(host, st, stmts[0], fuel);
      if !o.IsFailure() {
        RunProgramOutcomes(host, st1, stmts[1..], fuel);
        var t := ProgramOutcomes(host, st1, stmts[1..], fuel);
        assert ([o] + t)[1..] == t;
        assert forall j :: 1 <= j < |[o] + t| ==> ([o] + t)[j] == t[j - 1];
      }
    }
  }

  // ---------------------------------------------------------------------------------
  // if / elseif / else

  /** `ts` holds the truth, in `vars`, of the `if` condition followed by the `elseif`
      conditions, each of which has no user calls, evaluates without error and needs less
      than `fuel`. */
  predicate TruthsOf(host: Host, vars: Vars, cond: Syntax.Expr, elseIfs: seq<Syntax.ElseIf>, fuel: nat, ts: seq<bool>) {
    |ts| == |elseIfs| + 1 &&
    CallFree(cond) && Depth(cond) < fuel && PureEval(host, vars, cond).Ok? &&
    ts[0] == host.ops.isTruthy(PureEval(host, vars, cond).value) &&
    forall k :: 0 <= k < |elseIfs| ==>
      CallFree(elseIfs[k].cond) && Depth(elseIfs[k].cond) < fuel && PureEval(host, vars, elseIfs[k].cond).Ok? &&
      ts[k + 1] == host.ops.isTruthy(PureEval(host, vars, elseIfs[k].cond).value)
  }

  /** One step of the `elseif` scan: it stops at a truthy condition and goes on past a
      falsy one, changing nothing. */
  lemma ScanStep(host: Host, st: State, cond: Syntax.Expr, elseIfs: seq<Syntax.ElseIf>, ts: seq<bool>, k: nat, fuel: nat)
    requires k < |elseIfs| && TruthsOf(host, st.vars, cond, elseIfs, fuel, ts)
    ensures ScanOf(host, st, elseIfs, k, fuel) == if ts[k + 1] then (Ok(k), st) else ScanOf(host, st, elseIfs, k + 1, fuel)
  {
    var c := elseIfs[k].cond;
    assert CallFree(c) && Depth(c) < fuel;
    assert Eval(host, st, c, fuel) == (PureEval(host, st.vars, c), st);
  }

  /** The `elseif` scan from position `k` stops at the first truthy condition from there on,
      or at the end, and changes nothing. */
  lemma {:induction false} ScanOfTruths(host: Host, st: State, cond: Syntax.Expr, elseIfs: seq<Syntax.ElseIf>,
                                        ts: seq<bool>, k: nat, fuel: nat)
    requires k <= |elseIfs| && TruthsOf(host, st.vars, cond, elseIfs, fuel, ts)
    ensures ScanOf(host, st, elseIfs, k, fuel) == (Ok(k + FirstTrue(ts[k + 1..])), st)
    decreases |elseIfs| - k
  {
    FirstTrueFrom(ts, k + 1);
    if k < |elseIfs| {
      ScanStep(host, st, cond, elseIfs, ts, k, fuel);
      if !ts[k + 1] {
        ScanOfTruths(host, st, cond, elseIfs, ts, k + 1, fuel);
      }
    }
  }

  /** The `if` condition, then (when it is falsy) the `elseif` scan. */
  lemma SelectStep(host: Host, st: State, cond: Syntax.Expr, elseIfs: seq<Syntax.ElseIf>, hasElse: bool,
                   fuel: nat, ts: seq<bool>)
    requires TruthsOf(host, st.vars, cond, elseIfs, fuel, ts)
    ensures var (k, st2) := ScanOf(host, st, elseIfs, 0, fuel);
            (ts[0] ==> SelectOf(host, st, cond, elseIfs, hasElse, fuel) == (Ok(ThenBranch), st)) &&
            (!ts[0] && k.Ok? ==>
               SelectOf(host, st, cond, elseIfs, hasElse, fuel) ==
                 (Ok(if k.value < |elseIfs| then ElseIfBranch(k.value) else if hasElse then ElseBranch else NoBranch), st2))
  {
    assert Eval(host, st, cond, fuel) == (PureEval(host, st.vars, cond), st);
  }

  /** When the conditions have no user calls and evaluate, the scan changes nothing and
      chooses the branch `ChooseBranch` gives for their truths. */
  lemma SelectChoosesBranch(host: Host, st: State, cond: Syntax.Expr, elseIfs: seq<Syntax.ElseIf>, hasElse: bool,
                            fuel: nat, ts: seq<bool>)
    requires TruthsOf(host, st.vars, cond, elseIfs, fuel, ts)
    ensures SelectOf(host, st, cond, elseIfs, hasElse, fuel) == (Ok(ChooseBranch(ts, hasElse)), st)
  {
    SelectStep(host, st, cond, elseIfs, hasElse, fuel, ts);
    if !ts[0] {
      ScanOfTruths(host, st, cond, elseIfs, ts, 0, fuel);
      assert FirstTrue(ts) == 1 + FirstTrue(ts[1..]);
    }
  }

  /** `if` runs exactly the body of the branch `ChooseBranch` picks from the truths of its
      conditions (with `ChooseBranchSpec`: the then-body when the condition is truthy, the
      first `elseif` whose condition is truthy, the else-body, or nothing), from the state it
      started in. */
  lemma RunIfRunsChosenBranch(host: Host, st: State, cond: Syntax.Expr, thenBody: seq<Syntax.Stmt>,
                              elseIfs: seq<Syntax.ElseIf>, elseBody: Option<seq<Syntax.Stmt>>, fuel: nat, ts: seq<bool>)
    requires TruthsOf(host, st.vars, cond, elseIfs, fuel, ts)
    ensures RunIf(host, st, cond, thenBody, elseIfs, elseBody, fuel) ==
              RunBlock(host, st, BranchBody(thenBody, elseIfs, elseBody, ChooseBranch(ts, elseBody.Some?)), fuel)
  {
    SelectChoosesBranch(host, st, cond, elseIfs, elseBody.Some?, fuel, ts);
  }

  /** A failing `if` condition is not swallowed: no branch runs and the error is the
      statement's. */
  lemma RunIfConditionFails(host: Host, st: State, cond: Syntax.Expr, thenBody: seq<Syntax.Stmt>,
                            elseIfs: seq<Syntax.ElseIf>, elseBody: Option<seq<Syntax.Stmt>>, fuel: nat)
    requires CallFree(cond) && Depth(cond) < fuel && PureEval(host, st.vars, cond).Err?
    ensures RunIf(host, st, cond, thenBody, elseIfs, elseBody, fuel) == (Err(PureEval(host, st.vars, cond).msg), st)
  {
  }

  // ---------------------------------------------------------------------------------
  // while

  /** A false condition ends the loop with nothing changed. */
  lemma WhileConditionFalse(host: Host, st: State, cond: Syntax.Expr, body: seq<Syntax.Stmt>, fuel: nat, budget: nat)
    requires CallFree(cond) && Depth(cond) < fuel && budget > 0
    requires PureEval(host, st.vars, cond).Ok? && !host.ops.isTruthy(PureEval(host, st.vars, cond).value)
    ensures RunWhile(host, st, cond, body, fuel, budget) == (Ok(None), st)
  {
  }

  /** A true condition runs the body once; a return value from it ends the loop and is
      passed up, otherwise the loop goes on from the state the body left. */
  lemma WhileConditionTrue(host: Host, st: State, cond: Syntax.Expr, body: seq<Syntax.Stmt>, fuel: nat, budget: nat)
    requires CallFree(cond) && Depth(cond) < fuel && budget > 0
    requires PureEval(host, st.vars, cond).Ok? && host.ops.isTruthy(PureEval(host, st.vars, cond).value)
    ensures RunWhile(host, st, cond, body, fuel, budget) ==
              var (b, st1) := RunBlock(host, st, body, fuel);
              if b == Ok(None) then RunWhile(host, st1, cond, body, fuel, budget - 1) else (b, st1)
  {
  }

  /** A loop whose condition stays true never ends: with an empty body it runs until its
      fuel is exhausted, changing nothing. */
  lemma {:induction false} WhileTrueEmptyBodyExhausts(host: Host, st: State, cond: Syntax.Expr, fuel: nat, budget: nat)
    requires CallFree(cond) && Depth(cond) < fuel
    requires PureEval(host, st.vars, cond).Ok? && host.ops.isTruthy(PureEval(host, st.vars, cond).value)
    ensures RunWhile(host, st, cond, [], fuel, budget) == (Exhausted, st)
    decreases budget
  {
    if budget > 0 {
      WhileTrueEmptyBodyExhausts(host, st, cond, fuel, budget - 1);
    }
  }

  // ---------------------------------------------------------------------------------
  // Calls and return

  /** A user call with distinct parameters: the body starts with each parameter bound to its
      argument (or `Nil`), the call's outcome is the body's, and afterwards every parameter
      has its value from before the call back (unset again if it was unset) while every
      other variable is as the body left it. */
  lemma CallRestoresParams(host: Host, st: State, f: Syntax.Function, args: seq<Syntax.Expr>, fuel: nat)
    requires Distinct(f.params)
    ensures var (ev, st1) := EvalArgs(host, st, args, [], fuel);
            ev.Ok? ==>
              var start := st1.(vars := BindParams(st1.vars, f.params, ev.value).0);
              var (res, end) := RunBlock(host, start, f.body, fuel);
              var (r, after) := CallFunction(host, st, f, args, fuel);
              r == res &&
              (forall i :: 0 <= i < |f.params| ==> GetVar(start.vars, f.params[i]) == ArgOrNil(ev.value, i)) &&
              (forall p :: p in f.params ==>
                 GetVar(after.vars, p) == GetVar(st1.vars, p) && (p in after.vars <==> GetVar(st1.vars, p) != Nil)) &&
              (forall x :: x !in f.params ==> (x in after.vars <==> x in end.vars) && GetVar(after.vars, x) == GetVar(end.vars, x))
  {
    var (ev, st1) := EvalArgs(host, st, args, [], fuel);
    if ev.Ok? {
      BindParamsSpec(st1.vars, f.params, ev.value);
      var start := st1.(vars := BindParams(st1.vars, f.params, ev.value).0);
      var (res, end) := RunBlock(host, start, f.body, fuel);
      ParamsRestoredAfterCall(st1.vars, f.params, ev.value, end.vars);
    }
  }

  /** A user function called in an expression: the arguments are evaluated first, and a
      failing one is the call's failure; otherwise the call's value is the first value the
      body returns (as `BlockResult` of its statements' outcomes gives it), `Nil` when the
      body returns none. A call statement yields the body's result itself. */
  lemma UserCallValue(host: Host, st: State, name: string, args: seq<Syntax.Expr>, fuel: nat)
    requires !Syntax.IsBuiltin(name) && name in st.funcs
    ensures var f := st.funcs[name];
            var (ev, st1) := EvalArgs(host, st, args, [], fuel);
            (ev.IsFailure() ==> EvalCallOf(host, st, name, args, fuel) == (ev.PropagateFailure(), st1)) &&
            (ev.Ok? ==>
               var start := st1.(vars := BindParams(st1.vars, f.params, ev.value).0);
               var res := BlockResult(BlockOutcomes(host, start, f.body, fuel));
               EvalCallOf(host, st, name, args, fuel).0 ==
                 (match res
                  case Ok(Some(v)) => Ok(v)
                  case Ok(None) => Ok(Nil)
                  case _ => Exhausted) &&
               (name != "sleep" ==> RunCall(host, st, name, args, fuel).0 == res))
  {
    var f := st.funcs[name];
    var (ev, st1) := EvalArgs(host, st, args, [], fuel);
    if ev.Ok? {
      var start := st1.(vars := BindParams(st1.vars, f.params, ev.value).0);
      RunBlockOutcomes(host, start, f.body, fuel);
    }
  }

  /** `return e` yields the value of `e` and records it as the last return value. */
  lemma ReturnRecordsValue(host: Host, st: State, e: Syntax.Expr, fuel: nat)
    requires CallFree(e) && Depth(e) + 1 < fuel && PureEval(host, st.vars, e).Ok?
    ensures var v := PureEval(host, st.vars, e).value;
            RunStmt(host, st, Syntax.Return(Some(e)), fuel) == (Ok(Some(v)), st.(currentReturn := Some(v)))
  {
  }

  // ---------------------------------------------------------------------------------
  // push / pop

  /** A store statement whose operands have no user calls runs `StoreStep`: the new store on
      success, the operand's error with nothing changed otherwise. */
  lemma StoreStatement(host: Host, st: State, s: Syntax.Stmt, fuel: nat)
    requires IsStoreStmt(s) && fuel > 0
    requires AllCallFree(StmtExprs(s)) && DepthList(StmtExprs(s)) < fuel - 1
    ensures var step := StoreStep(host, st.vars, s);
            (step.Ok? ==> RunStmt(host, st, s, fuel) == (Ok(None), st.(vars := step.value))) &&
            (step.Err? ==> RunStmt(host, st, s, fuel) == (Err(step.msg), st))
  {
    assert RunStmt(host, st, s, fuel) == RunStore(host, st, s, fuel - 1);
  }

  /** Two statements that neither return nor run out of fuel, run as a body. */
  lemma TwoStatements(host: Host, st: State, s1: Syntax.Stmt, s2: Syntax.Stmt, fuel: nat)
    requires RunStmt(host, st, s1, fuel).0 == Ok(None)
    requires RunStmt(host, RunStmt(host, st, s1, fuel).1, s2, fuel).0 == Ok(None)
    ensures RunBlock(host, st, [s1, s2], fuel) == (Ok(None), RunStmt(host, RunStmt(host, st, s1, fuel).1, s2, fuel).1)
  {
    var st1 := RunStmt(host, st, s1, fuel).1;
    var st2 := RunStmt(host, st1, s2, fuel).1;
    assert [s1, s2][0] == s1 && [s1, s2][1..] == [s2];
    assert RunBlock(host, st, [s1, s2], fuel) == RunBlock(host, st1, [s2], fuel);
    assert [s2][0] == s2 && [s2][1..] == [];
    assert RunBlock(host, st1, [s2], fuel) == RunBlock(host, st2, [], fuel);
  }

  /** The statements `push a, e` then `pop a` give `a` back the array it held (the empty
      array when it held none) and change nothing else. */
  lemma PushPopStatements(host: Host, st: State, a: string, e: Syntax.Expr, fuel: nat)
    requires CallFree(e) && Depth(e) + 1 < fuel && PureEval(host, st.vars, e).Ok?
    ensures var current := GetVar(st.vars, a);
            RunBlock(host, st, [Syntax.Push(a, e), Syntax.Pop(a)], fuel) ==
              (Ok(None), st.(vars := st.vars[a := if current.Array? then current else Array([])]))
  {
    PushThenPop(host, st.vars, a, e);
    var st1 := st.(vars := StoreStep(host, st.vars, Syntax.Push(a, e)).value);
    StoreStatement(host, st, Syntax.Push(a, e), fuel);
    StoreStatement(host, st1, Syntax.Pop(a), fuel);
    TwoStatements(host, st, Syntax.Push(a, e), Syntax.Pop(a), fuel);
  }

  /** The statements `unshift a, e` then `shift a` give `a` back the array it held (the empty
      array when it held none) and change nothing else. */
  lemma UnshiftShiftStatements(host: Host, st: State, a: string, e: Syntax.Expr, fuel: nat)
    requires CallFree(e) && Depth(e) + 1 < fuel && PureEval(host, st.vars, e).Ok?
    ensures var current := GetVar(st.vars, a);
            RunBlock(host, st, [Syntax.Unshift(a, e), Syntax.Shift(a)], fuel) ==
              (Ok(None), st.(vars := st.vars[a := if current.Array? then current else Array([])]))
  {
    UnshiftThenShift(host, st.vars, a, e);
    var st1 := st.(vars := StoreStep(host, st.vars, Syntax.Unshift(a, e)).value);
    StoreStatement(host, st, Syntax.Unshift(a, e), fuel);
    StoreStatement(host, st1, Syntax.Shift(a), fuel);
    TwoStatements(host, st, Syntax.Unshift(a, e), Syntax.Shift(a), fuel);
  }

  // ---------------------------------------------------------------------------------
  // include

  /** A file whose first statement includes the file itself (its path resolving, from the
      file's own directory, to the same canonical path) fails with the cycle error instead
      of recursing. The base directories come back as they were, but the failure returns
      before the file's mark is removed, so the mark stays in progress. */
  lemma SelfIncludeIsCycle(host: Host, st: State, path: Path, fuel: nat)
    requires WellFormed(st) && fuel > 0
    requires var resolved := ResolveIncludePath(host, st.baseDirs, st.modulesPaths, path);
             var c := Canon(host, resolved);
             var entry := IncludeEntry(host, st, resolved, c);
             c !in st.inProgress && host.readFile(resolved).Contents? &&
             var stmts := host.parse(host.readFile(resolved).text);
             stmts != [] && stmts[0].Include? &&
             Canon(host, ResolveIncludePath(host, entry.baseDirs, entry.modulesPaths, stmts[0].path)) == c
    ensures var c := Canon(host, ResolveIncludePath(host, st.baseDirs, st.modulesPaths, path));
            var (r, after) := RunInclude(host, st, path, fuel);
            r == Err("Include cycle detected (already in progress): " + c) &&
            c in after.inProgress && after.baseDirs == st.baseDirs && after.modulesPaths == st.modulesPaths
  {
    var resolved := ResolveIncludePath(host, st.baseDirs, st.modulesPaths, path);
    var c := Canon(host, resolved);
    var entry := IncludeEntry(host, st, resolved, c);
    var stmts := host.parse(host.readFile(resolved).text);
    var inner := stmts[0].path;
    var msg := "Include cycle detected (already in progress): " + c;
    assert c in entry.inProgress;
    RunStmtDispatchTransfer(host, entry, stmts[0], fuel);
    assert RunStmt(host, entry, stmts[0], fuel) == (Err(msg), entry);
    assert RunProgram(host, entry, stmts, fuel).0 == Err(msg);
  }

  /** An include whose file failed while running leaves its mark, so including the same
      path again later in the run (in any well-formed state that kept the marks left
      behind, with the same base directories and search list) is refused as a cycle and
      changes nothing. */
  lemma IncludeAfterFailureIsCycle(host: Host, st: State, path: Path, fuel: nat, later: State, fuel2: nat)
    requires WellFormed(st) && WellFormed(later)
    requires host.readFile(ResolveIncludePath(host, st.baseDirs, st.modulesPaths, path)).Contents?
    requires Canon(host, ResolveIncludePath(host, st.baseDirs, st.modulesPaths, path)) !in st.inProgress
    requires RunInclude(host, st, path, fuel).0.Err?
    requires later.baseDirs == st.baseDirs && later.modulesPaths == st.modulesPaths
    requires RunInclude(host, st, path, fuel).1.leaked <= later.leaked
    ensures var c := Canon(host, ResolveIncludePath(host, st.baseDirs, st.modulesPaths, path));
            RunInclude(host, later, path, fuel2) == (Err("Include cycle detected (already in progress): " + c), later)
  {
  }
}
