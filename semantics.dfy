/** Reference definitions the interpreter's methods are proved against: what an expression
    without user calls evaluates to, what a variable-store statement does to the store, what
    a statement block returns given what its statements returned, which branch of an `if`
    runs, and how include marks may be left behind. */
module Semantics {
  import opened Values
  import opened Includes
  import opened Store
  import opened Rules
  import Syntax

  // ---------------------------------------------------------------------------------
  // Expressions that change no interpreter state

  /** An expression whose evaluation calls no user function: builtins are allowed (only
      their first argument is ever evaluated), other calls are not, since they run a body or
      print a warning. */
  predicate CallFree(e: Syntax.Expr)
    decreases e
  {
    match e
    case SubstCall(_, _, _, input) => CallFree(input)
    case Binary(l, _, r) => CallFree(l) && CallFree(r)
    case Unary(_, x) => CallFree(x)
    case ArrayLit(elems) => forall i :: 0 <= i < |elems| ==> CallFree(elems[i])
    case Index(t, i) => CallFree(t) && CallFree(i)
    case Call(name, args) => Syntax.IsBuiltin(name) && (args == [] || CallFree(args[0]))
    case _ => true
  }

  predicate AllCallFree(es: seq<Syntax.Expr>) {
    forall i :: 0 <= i < |es| ==> CallFree(es[i])
  }

  /** The nesting depth of an expression: how much fuel evaluating it may take. */
  function Depth(e: Syntax.Expr): nat
    decreases e
  {
    match e
    case SubstCall(_, _, _, input) => 1 + Depth(input)
    case Binary(l, _, r) => 1 + Max(Depth(l), Depth(r))
    case Unary(_, x) => 1 + Depth(x)
    case ArrayLit(elems) => 1 + DepthList(elems)
    case Index(t, i) => 1 + Max(Depth(t), Depth(i))
    case Call(_, args) => 1 + DepthList(args)
    case _ => 0
  }

  function DepthList(es: seq<Syntax.Expr>): (d: nat)
    ensures forall i :: 0 <= i < |es| ==> Depth(es[i]) <= d
    decreases es
  {
    if es == [] then 0 else Max(Depth(es[0]), DepthList(es[1..]))
  }

  function Max(a: nat, b: nat): nat {
    if a < b then b else a
  }

  /** `eval_expr` on an expression without user calls, in the store `vars`: operands left
      to right, the first failure propagating. */
  function PureEval(host: Host, vars: Vars, e: Syntax.Expr): (r: Outcome<Value>)
    requires CallFree(e)
    ensures !r.Exhausted?
    decreases e
  {
    match e
    case IntLit(n) => Ok(Int(n))
    case StringLit(s) => Ok(Str(s))
    case RegexLit(p) => Ok(Regex(p))
    case SubstCall(pat, repl, flags, input) =>
      var src :- PureEval(host, vars, input);
      Substitute(host, pat, repl, flags, host.ops.toString(src))
    case Variable(name) => Ok(GetVar(vars, name))
    case Binary(l, op, rt) =>
      var lv :- PureEval(host, vars, l);
      var rv :- PureEval(host, vars, rt);
      EvalBinary(host, op, lv, rv)
    case Unary(op, x) =>
      var v :- PureEval(host, vars, x);
      Ok(EvalUnary(host.ops, op, v))
    case ArrayLit(elems) =>
      var vs :- PureEvalList(host, vars, elems);
      Ok(Array(vs))
    case Index(t, i) =>
      var tv :- PureEval(host, vars, t);
      var iv :- PureEval(host, vars, i);
      Ok(Values.Index(tv, host.ops.toInt(iv)))
    case Call(name, args) =>
      if args == [] then Ok(Builtin(host, name, None))
      else
        var v :- PureEval(host, vars, args[0]);
        Ok(Builtin(host, name, Some(v)))
  }

  /** A list of expressions evaluated left to right; the first failure stops it. */
  function PureEvalList(host: Host, vars: Vars, es: seq<Syntax.Expr>): (r: Outcome<seq<Value>>)
    requires AllCallFree(es)
    ensures !r.Exhausted?
    ensures r.Ok? ==> |r.value| == |es|
    decreases es
  {
    if es == [] then Ok([])
    else
      var first :- PureEval(host, vars, es[0]);
      var rest :- PureEvalList(host, vars, es[1..]);
      Ok([first] + rest)
  }

  /** A list evaluates without error exactly when every member does, and then to the values
      of its members in order. */
  lemma {:induction false} PureEvalListSpec(host: Host, vars: Vars, es: seq<Syntax.Expr>)
    requires AllCallFree(es)
    ensures PureEvalList(host, vars, es).Ok? <==> forall i :: 0 <= i < |es| ==> PureEval(host, vars, es[i]).Ok?
    ensures PureEvalList(host, vars, es).Ok? ==>
              forall i :: 0 <= i < |es| ==> PureEvalList(host, vars, es).value[i] == PureEval(host, vars, es[i]).value
    decreases es
  {
    if es != [] {
      assert AllCallFree(es[1..]);
      PureEvalListSpec(host, vars, es[1..]);
      assert forall i :: 1 <= i < |es| ==> es[1..][i - 1] == es[i];
    }
  }

  /** The first failing member decides a list's failure: when every member before position
      `k` evaluates and the k-th fails, the whole list fails with the k-th member's error. */
  lemma {:induction false} PureEvalListFirstError(host: Host, vars: Vars, es: seq<Syntax.Expr>, k: nat)
    requires AllCallFree(es) && k < |es|
    requires forall j :: 0 <= j < k ==> PureEval(host, vars, es[j]).Ok?
    requires PureEval(host, vars, es[k]).Err?
    ensures PureEvalList(host, vars, es) == Err(PureEval(host, vars, es[k]).msg)
    decreases k
  {
    if k > 0 {
      assert AllCallFree(es[1..]);
      assert forall j :: 0 <= j < k - 1 ==> es[1..][j] == es[j + 1];
      PureEvalListFirstError(host, vars, es[1..], k - 1);
    }
  }

  /** An expression without user calls reads only the variables it names. */
  lemma {:induction false} PureEvalReadsOnlyItsVariables(host: Host, vars: Vars, other: Vars, e: Syntax.Expr)
    requires CallFree(e)
    requires forall x :: Mentions(e, x) ==> GetVar(vars, x) == GetVar(other, x)
    ensures PureEval(host, vars, e) == PureEval(host, other, e)
    decreases e
  {
    match e
    case SubstCall(_, _, _, input) =>
      PureEvalReadsOnlyItsVariables(host, vars, other, input);
    case Binary(l, _, rt) =>
      PureEvalReadsOnlyItsVariables(host, vars, other, l);
      PureEvalReadsOnlyItsVariables(host, vars, other, rt);
    case Unary(_, x) =>
      PureEvalReadsOnlyItsVariables(host, vars, other, x);
    case ArrayLit(elems) =>
      PureEvalListReadsOnlyItsVariables(host, vars, other, elems);
    case Index(t, i) =>
      PureEvalReadsOnlyItsVariables(host, vars, other, t);
      PureEvalReadsOnlyItsVariables(host, vars, other, i);
    case Call(_, args) =>
      if args != [] {
        PureEvalReadsOnlyItsVariables(host, vars, other, args[0]);
      }
    case _ =>
  }

  lemma {:induction false} PureEvalListReadsOnlyItsVariables(host: Host, vars: Vars, other: Vars, es: seq<Syntax.Expr>)
    requires AllCallFree(es)
    requires forall x, i :: 0 <= i < |es| && Mentions(es[i], x) ==> GetVar(vars, x) == GetVar(other, x)
    ensures PureEvalList(host, vars, es) == PureEvalList(host, other, es)
    decreases es
  {
    if es != [] {
      assert AllCallFree(es[1..]);
      forall x, i | 0 <= i < |es| - 1 && Mentions(es[1..][i], x) ensures GetVar(vars, x) == GetVar(other, x) {
        assert es[1..][i] == es[i + 1];
      }
      PureEvalListReadsOnlyItsVariables(host, vars, other, es[1..]);
      PureEvalReadsOnlyItsVariables(host, vars, other, es[0]);
    }
  }

  /** Whether the variable `x` occurs in `e` where evaluation reads it. */
  predicate Mentions(e: Syntax.Expr, x: string)
    decreases e
  {
    match e
    case Variable(name) => name == x
    case SubstCall(_, _, _, input) => Mentions(input, x)
    case Binary(l, _, r) => Mentions(l, x) || Mentions(r, x)
    case Unary(_, y) => Mentions(y, x)
    case ArrayLit(elems) => exists i :: 0 <= i < |elems| && Mentions(elems[i], x)
    case Index(t, i) => Mentions(t, x) || Mentions(i, x)
    case Call(_, args) => exists i :: 0 <= i < |args| && Mentions(args[i], x)
    case _ => false
  }

  // ---------------------------------------------------------------------------------
  // Statements that only rewrite one variable

  /** The statements whose whole effect is on one variable: assignment, indexed assignment,
      `inc`, `dec`, `push`, `pop`, `shift`, `unshift`. */
  predicate IsStoreStmt(s: Syntax.Stmt) {
    s.Assignment? || s.ArrayAssignment? || s.Inc? || s.Dec? ||
    s.Push? || s.Pop? || s.Shift? || s.Unshift?
  }

  /** The variable a store statement writes. */
  function Target(s: Syntax.Stmt): string
    requires IsStoreStmt(s)
  {
    match s
    case Assignment(t, _) => t
    case ArrayAssignment(a, _, _) => a
    case Inc(x, _) => x
    case Dec(x, _) => x
    case Push(a, _) => a
    case Pop(a) => a
    case Shift(a) => a
    case Unshift(a, _) => a
  }

  /** The expressions a statement evaluates, in the order it evaluates them. */
  function StmtExprs(s: Syntax.Stmt): (es: seq<Syntax.Expr>)
    ensures IsUpdateStmt(s) ==> |es| == 1
  {
    match s
    case Assignment(_, v) => [v]
    case ArrayAssignment(_, i, v) => [i, v]
    case Inc(_, d) => [d]
    case Dec(_, d) => [d]
    case Push(_, v) => [v]
    case Unshift(_, v) => [v]
    case Printf(_, args) => args
    case _ => []
  }

  /** The store statements with one operand, whose new value combines the variable's
      current value with the operand's: assignment, `inc`, `dec`, `push`, `unshift`. */
  predicate IsUpdateStmt(s: Syntax.Stmt) {
    s.Assignment? || s.Inc? || s.Dec? || s.Push? || s.Unshift?
  }

  /** The value an update statement writes, from the variable's current value and the
      operand's value. */
  function Combine(ops: ValueOps, s: Syntax.Stmt, current: Value, v: Value): Value
    requires IsUpdateStmt(s)
  {
    match s
    case Assignment(_, _) => v
    case Inc(_, _) => ops.add(current, v)
    case Dec(_, _) => ops.subtract(current, v)
    case Push(_, _) => PushValue(current, v)
    case Unshift(_, _) => UnshiftValue(current, v)
  }

  /** A store statement on `vars`: the new store, or the error its expression raised. The
      variable is read after the index and element of an indexed assignment are evaluated,
      but before the operand of `inc`, `dec`, `push` and `unshift` is; without user calls
      the order makes no difference. */
  function StoreStep(host: Host, vars: Vars, s: Syntax.Stmt): (r: Outcome<Vars>)
    requires IsStoreStmt(s) && AllCallFree(StmtExprs(s))
    ensures !r.Exhausted?
  {
    if IsUpdateStmt(s) then
      assert CallFree(StmtExprs(s)[0]);
      var v :- PureEval(host, vars, StmtExprs(s)[0]);
      Ok(vars[Target(s) := Combine(host.ops, s, GetVar(vars, Target(s)), v)])
    else
      match s
      case ArrayAssignment(a, i, e) =>
        assert CallFree(StmtExprs(s)[0]) && CallFree(StmtExprs(s)[1]);
        var iv :- PureEval(host, vars, i);
        var v :- PureEval(host, vars, e);
        Ok(vars[a := AssignElement(GetVar(vars, a), AsUsize(host.ops.toInt(iv)), v)])
      case Pop(a) => Ok(vars[a := PopValue(GetVar(vars, a))])
      case Shift(a) => Ok(vars[a := ShiftValue(GetVar(vars, a))])
  }

  /** A store statement writes its target variable and no other: the new store has the old
      names plus the target, and every other name keeps its value. */
  lemma StoreStepFrame(host: Host, vars: Vars, s: Syntax.Stmt)
    requires IsStoreStmt(s) && AllCallFree(StmtExprs(s))
    ensures StoreStep(host, vars, s).Ok? ==>
              var after := StoreStep(host, vars, s).value;
              after.Keys == vars.Keys + {Target(s)} &&
              forall x :: x != Target(s) && x in vars ==> after[x] == vars[x]
  {
  }

  /** Indexed assignment: an index inside the array's bounds replaces that element and no
      other; an index outside them (a negative one included), or a variable that does not
      hold an array, leaves the variable's value as it was. */
  lemma ArrayAssignmentSpec(host: Host, vars: Vars, a: string, i: Syntax.Expr, e: Syntax.Expr)
    requires CallFree(i) && CallFree(e)
    requires PureEval(host, vars, i).Ok? && PureEval(host, vars, e).Ok?
    ensures var s := Syntax.ArrayAssignment(a, i, e);
            var n := host.ops.toInt(PureEval(host, vars, i).value);
            var v := PureEval(host, vars, e).value;
            var current := GetVar(vars, a);
            AllCallFree(StmtExprs(s)) && StoreStep(host, vars, s).Ok? &&
            var after := GetVar(StoreStep(host, vars, s).value, a);
            (IsI64(n) && current.Array? && 0 <= n < |current.elems| ==>
               after.Array? && |after.elems| == |current.elems| && after.elems[n] == v &&
               forall j :: 0 <= j < |after.elems| && j != n ==> after.elems[j] == current.elems[j]) &&
            (IsI64(n) && current.Array? && |current.elems| <= I64_MAX && (n < 0 || n >= |current.elems|) ==>
               after == current) &&
            (!current.Array? ==> after == current)
  {
    var s := Syntax.ArrayAssignment(a, i, e);
    assert StmtExprs(s) == [i, e];
    var n := host.ops.toInt(PureEval(host, vars, i).value);
    var v := PureEval(host, vars, e).value;
    var current := GetVar(vars, a);
    var after := AssignElement(current, AsUsize(n), v);
    assert StoreStep(host, vars, s) == Ok(vars[a := after]);
    assert GetVar(vars[a := after], a) == after;
    if IsI64(n) && n < 0 && current.Array? && |current.elems| <= I64_MAX {
      assert AsUsize(n) > I64_MAX;
    }
  }

  /** `push` with an operand that evaluates writes the value with the operand added at the
      end. */
  lemma StoreStepPush(host: Host, vars: Vars, a: string, e: Syntax.Expr)
    requires CallFree(e) && PureEval(host, vars, e).Ok?
    ensures StmtExprs(Syntax.Push(a, e)) == [e]
    ensures StoreStep(host, vars, Syntax.Push(a, e)) == Ok(vars[a := PushValue(GetVar(vars, a), PureEval(host, vars, e).value)])
  {
    var s := Syntax.Push(a, e);
    assert StmtExprs(s) == [e];
    assert IsUpdateStmt(s) && Target(s) == a;
  }

  /** `unshift` with an operand that evaluates writes the value with the operand added at the
      front. */
  lemma StoreStepUnshift(host: Host, vars: Vars, a: string, e: Syntax.Expr)
    requires CallFree(e) && PureEval(host, vars, e).Ok?
    ensures StmtExprs(Syntax.Unshift(a, e)) == [e]
    ensures StoreStep(host, vars, Syntax.Unshift(a, e)) == Ok(vars[a := UnshiftValue(GetVar(vars, a), PureEval(host, vars, e).value)])
  {
    var s := Syntax.Unshift(a, e);
    assert StmtExprs(s) == [e];
    assert IsUpdateStmt(s) && Target(s) == a;
  }

  /** `pop` and `shift` write the value with the end or the front element dropped. */
  lemma StoreStepDrop(host: Host, vars: Vars, a: string)
    ensures StmtExprs(Syntax.Pop(a)) == [] && StmtExprs(Syntax.Shift(a)) == []
    ensures StoreStep(host, vars, Syntax.Pop(a)) == Ok(vars[a := PopValue(GetVar(vars, a))])
    ensures StoreStep(host, vars, Syntax.Shift(a)) == Ok(vars[a := ShiftValue(GetVar(vars, a))])
  {
  }

  /** `pop` after `push` gives the variable back the array it held; a variable that held no
      array is left holding the empty array. */
  lemma PushThenPop(host: Host, vars: Vars, a: string, e: Syntax.Expr)
    requires CallFree(e) && PureEval(host, vars, e).Ok?
    ensures AllCallFree(StmtExprs(Syntax.Push(a, e)))
    ensures StoreStep(host, vars, Syntax.Push(a, e)).Ok?
    ensures StoreStep(host, StoreStep(host, vars, Syntax.Push(a, e)).value, Syntax.Pop(a)) ==
              Ok(vars[a := if GetVar(vars, a).Array? then GetVar(vars, a) else Array([])])
  {
    var v := PureEval(host, vars, e).value;
    var pushed := vars[a := PushValue(GetVar(vars, a), v)];
    var restored := vars[a := if GetVar(vars, a).Array? then GetVar(vars, a) else Array([])];
    assert AllCallFree(StmtExprs(Syntax.Push(a, e))) && StoreStep(host, vars, Syntax.Push(a, e)) == Ok(pushed) by {
      StoreStepPush(host, vars, a, e);
    }
    assert StoreStep(host, pushed, Syntax.Pop(a)) == Ok(restored) by {
      StoreStepDrop(host, pushed, a);
      PushPopInStore(vars, a, v);
    }
  }

  /** `shift` after `unshift` gives the variable back the array it held; a variable that held
      no array is left holding the empty array. */
  lemma UnshiftThenShift(host: Host, vars: Vars, a: string, e: Syntax.Expr)
    requires CallFree(e) && PureEval(host, vars, e).Ok?
    ensures AllCallFree(StmtExprs(Syntax.Unshift(a, e)))
    ensures StoreStep(host, vars, Syntax.Unshift(a, e)).Ok?
    ensures StoreStep(host, StoreStep(host, vars, Syntax.Unshift(a, e)).value, Syntax.Shift(a)) ==
              Ok(vars[a := if GetVar(vars, a).Array? then GetVar(vars, a) else Array([])])
  {
    var v := PureEval(host, vars, e).value;
    var unshifted := vars[a := UnshiftValue(GetVar(vars, a), v)];
    var restored := vars[a := if GetVar(vars, a).Array? then GetVar(vars, a) else Array([])];
    assert AllCallFree(StmtExprs(Syntax.Unshift(a, e))) && StoreStep(host, vars, Syntax.Unshift(a, e)) == Ok(unshifted) by {
      StoreStepUnshift(host, vars, a, e);
    }
    assert StoreStep(host, unshifted, Syntax.Shift(a)) == Ok(restored) by {
      StoreStepDrop(host, unshifted, a);
      PushPopInStore(vars, a, v);
    }
  }

  // ---------------------------------------------------------------------------------
  // Statement blocks

  /** What a nested statement returns, as `execute_statement` gives it to the enclosing body. */
  type StmtOutcome = Outcome<Option<Value>>

  /** The outcomes that end a body: a return value, or the fuel running out. An error does not. */
  predicate Stops(o: StmtOutcome) {
    o.Exhausted? || (o.Ok? && o.value.Some?)
  }

  /** What the body of an `if`, `while` or function yields, given the outcomes of the
      statements it ran, in order: the first return value, or `None`. */
  function BlockResult(trace: seq<StmtOutcome>): (r: StmtOutcome)
    ensures !r.Err?
    decreases |trace|
  {
    if trace == [] then Ok(None)
    else if Stops(trace[0]) then trace[0]
    else BlockResult(trace[1..])
  }

  /** The outcomes a body run can produce: each statement runs until one stops the body;
      statements are skipped only after such a stop. */
  predicate BlockTrace(trace: seq<StmtOutcome>, n: nat) {
    |trace| <= n &&
    (forall j :: 0 <= j < |trace| - 1 ==> !Stops(trace[j])) &&
    (|trace| < n ==> trace != [] && Stops(trace[|trace| - 1]))
  }

  /** A body yields the outcome of its first stopping statement, unchanged, and `None` when
      no statement stops it. */
  lemma {:induction false} BlockResultSpec(trace: seq<StmtOutcome>)
    ensures (forall j :: 0 <= j < |trace| ==> !Stops(trace[j])) ==> BlockResult(trace) == Ok(None)
    ensures forall k :: 0 <= k < |trace| && Stops(trace[k]) && (forall j :: 0 <= j < k ==> !Stops(trace[j])) ==>
              BlockResult(trace) == trace[k]
    decreases |trace|
  {
    if trace != [] {
      BlockResultSpec(trace[1..]);
      assert forall j :: 1 <= j < |trace| ==> trace[1..][j - 1] == trace[j];
    }
  }

  /** Errors inside a body are swallowed: a statement that failed has the same effect on the
      body's result as one that did nothing. */
  lemma {:induction false} BlockIgnoresErrors(pre: seq<StmtOutcome>, msg: string, post: seq<StmtOutcome>)
    ensures BlockResult(pre + [Err(msg)] + post) == BlockResult(pre + post)
    decreases |pre|
  {
    if pre == [] {
      assert [Err(msg)] + post == [Err(msg)] + post;
      assert ([] + [Err(msg)] + post)[1..] == post;
      assert [] + post == post;
    } else {
      BlockIgnoresErrors(pre[1..], msg, post);
      assert (pre + [Err(msg)] + post)[0] == pre[0];
      assert (pre + post)[0] == pre[0];
      assert (pre + [Err(msg)] + post)[1..] == pre[1..] + [Err(msg)] + post;
      assert (pre + post)[1..] == pre[1..] + post;
    }
  }

  /** The top level (`execute`) stops at the first failure only: a return value there is
      ignored and the next statement runs. */
  function RunResult(trace: seq<StmtOutcome>): (r: Outcome<()>)
    decreases |trace|
  {
    if trace == [] then Ok(())
    else if trace[0].IsFailure() then trace[0].PropagateFailure()
    else RunResult(trace[1..])
  }

  predicate RunTrace(trace: seq<StmtOutcome>, n: nat) {
    |trace| <= n &&
    (forall j :: 0 <= j < |trace| - 1 ==> trace[j].Ok?) &&
    (|trace| < n ==> trace != [] && trace[|trace| - 1].IsFailure())
  }

  /** A `return` at the top level does not end the program. */
  lemma {:induction false} RunIgnoresReturns(pre: seq<StmtOutcome>, v: Value, post: seq<StmtOutcome>)
    ensures RunResult(pre + [Ok(Some(v))] + post) == RunResult(pre + post)
    decreases |pre|
  {
    if pre == [] {
      assert ([] + [Ok(Some(v))] + post)[1..] == post;
      assert [] + post == post;
    } else {
      RunIgnoresReturns(pre[1..], v, post);
      assert (pre + [Ok(Some(v))] + post)[0] == pre[0];
      assert (pre + post)[0] == pre[0];
      assert (pre + [Ok(Some(v))] + post)[1..] == pre[1..] + [Ok(Some(v))] + post;
      assert (pre + post)[1..] == pre[1..] + post;
    }
  }

  /** The top level fails exactly when some statement failed, with the first failure. */
  lemma {:induction false} RunResultSpec(trace: seq<StmtOutcome>)
    ensures RunResult(trace) == Ok(()) <==> forall j :: 0 <= j < |trace| ==> trace[j].Ok?
    ensures forall k :: 0 <= k < |trace| && trace[k].IsFailure() && (forall j :: 0 <= j < k ==> trace[j].Ok?) ==>
              RunResult(trace) == trace[k].PropagateFailure()
    decreases |trace|
  {
    if trace != [] {
      RunResultSpec(trace[1..]);
      assert forall j :: 1 <= j < |trace| ==> trace[1..][j - 1] == trace[j];
    }
  }

  // ---------------------------------------------------------------------------------
  // if / elseif / else

  /** The body an `if` statement runs. */
  datatype Branch = ThenBranch | ElseIfBranch(k: nat) | ElseBranch | NoBranch

  /** The position of the first true condition, or `|truths|`. */
  function FirstTrue(truths: seq<bool>): (k: nat)
    ensures k <= |truths|
    ensures k < |truths| ==> truths[k]
    ensures forall j :: 0 <= j < k ==> !truths[j]
    decreases |truths|
  {
    if truths == [] then 0 else if truths[0] then 0 else 1 + FirstTrue(truths[1..])
  }

  /** Looking for the first true truth from position `i` on: it is there when `ts[i]` holds,
      and one further than the first from `i + 1` on otherwise. */
  lemma FirstTrueFrom(ts: seq<bool>, i: nat)
    requires i <= |ts|
    ensures i == |ts| ==> FirstTrue(ts[i..]) == 0
    ensures i < |ts| && ts[i] ==> FirstTrue(ts[i..]) == 0
    ensures i < |ts| && !ts[i] ==> FirstTrue(ts[i..]) == 1 + FirstTrue(ts[i + 1..])
  {
    if i < |ts| {
      assert ts[i..][0] == ts[i];
      assert ts[i..][1..] == ts[i + 1..];
    } else {
      assert ts[i..] == [];
    }
  }

  /** The branch chosen from the truth of the `if` condition followed by the truths of the
      `elseif` conditions that were evaluated. */
  function ChooseBranch(truths: seq<bool>, hasElse: bool): Branch {
    var k := FirstTrue(truths);
    if k < |truths| then (if k == 0 then ThenBranch else ElseIfBranch(k - 1))
    else if hasElse then ElseBranch else NoBranch
  }

  /** At most one branch runs: the then-body exactly when the condition is truthy; the k-th
      `elseif` body exactly when it is the first truthy condition; the else-body exactly when
      there is one and no condition is truthy; nothing otherwise. */
  lemma ChooseBranchSpec(truths: seq<bool>, hasElse: bool)
    requires truths != []
    ensures ChooseBranch(truths, hasElse) == ThenBranch <==> truths[0]
    ensures forall k: nat :: ChooseBranch(truths, hasElse) == ElseIfBranch(k) <==>
              k + 1 < |truths| && truths[k + 1] && forall j :: 0 <= j <= k ==> !truths[j]
    ensures ChooseBranch(truths, hasElse) == ElseBranch <==> hasElse && forall j :: 0 <= j < |truths| ==> !truths[j]
    ensures ChooseBranch(truths, hasElse) == NoBranch <==> !hasElse && forall j :: 0 <= j < |truths| ==> !truths[j]
  {
  }

  /** The statements of the chosen branch. */
  function BranchBody(thenBody: seq<Syntax.Stmt>, elseIfs: seq<Syntax.ElseIf>, elseBody: Option<seq<Syntax.Stmt>>,
                      b: Branch): seq<Syntax.Stmt>
  {
    match b
    case ThenBranch => thenBody
    case ElseIfBranch(k) => if k < |elseIfs| then elseIfs[k].body else []
    case ElseBranch => if elseBody.Some? then elseBody.value else []
    case NoBranch => []
  }
}
