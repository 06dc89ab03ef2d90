/** `Interpreter`: the statement executor and expression evaluator, with the state it owns —
    the variable store and function table (held through `Runtime` in the source), the value
    of the last `return`, the base-directory stack and module search list of the include
    subsystem, and the set of includes in progress. Standard input, standard output and the
    warnings on standard error are fields too.

    Every executing method takes `fuel`; when it runs out the outcome is `Exhausted`, which
    is passed up unchanged (never swallowed like an error). Each executing method is proved
    to produce exactly the outcome and the new state that its function in `Machine` gives
    for the state it started from. The ghost field `leaked` records the include marks that a
    failed include left in the in-progress set. */
module Interp {
  import opened Values
  import opened Text
  import opened Includes
  import opened Store
  import opened Rules
  import opened Semantics
  import opened Machine
  import Syntax

  class Interpreter {
    const host: Host
    var vars: Vars
    var funcs: map<string, Syntax.Function>
    var currentReturn: Option<Value>
    var baseDirs: seq<Path>
    var modulesPaths: seq<Path>
    var includeInProgress: set<Path>
    ghost var leaked: set<Path>
    /** The input not read yet. */
    var stdin: string
    /** Everything printed so far. */
    var stdout: string
    /** The warnings printed so far, one per line. */
    var stderr: seq<string>

    /** The interpreter's fields as one value. */
    ghost function St(): State
      reads this
    {
      State(vars, funcs, currentReturn, baseDirs, modulesPaths, includeInProgress, leaked, stdin, stdout, stderr)
    }

    /** `Interpreter::new`: an empty store, the working directory (or `.`) as the only base
        directory, and the module search list from `MINILUX_MODULES_PATH` when it is set. */
    constructor (host: Host)
      ensures this.host == host
      ensures vars == map[] && funcs == map[] && currentReturn == None
      ensures baseDirs == [if host.currentDir.Some? then host.currentDir.value else "."]
      ensures modulesPaths == if host.modulesPathVar.Some? then ParseModulesPathList(host, host.modulesPathVar.value) else []
      ensures includeInProgress == {} && leaked == {}
      ensures stdin == host.input && stdout == [] && stderr == []
      ensures WellFormed(St())
    {
      this.host := host;
      vars := map[];
      funcs := map[];
      currentReturn := None;
      baseDirs := [if host.currentDir.Some? then host.currentDir.value else "."];
      modulesPaths := if host.modulesPathVar.Some? then ParseModulesPathList(host, host.modulesPathVar.value) else [];
      includeInProgress := {};
      leaked := {};
      stdin := host.input;
      stdout := [];
      stderr := [];
    }

    /** `push_base_dir`: pushes the directory, canonicalized when that succeeds. */
    method PushBaseDir(dir: Path)
      modifies this`baseDirs
      ensures baseDirs == old(baseDirs) + [Canon(host, dir)]
    {
      baseDirs := baseDirs + [Canon(host, dir)];
    }

    /** `pop_base_dir`: pops, except the last entry, which is never removed. */
    method PopBaseDir()
      modifies this`baseDirs
      ensures |old(baseDirs)| > 1 ==> baseDirs == old(baseDirs)[..|old(baseDirs)| - 1]
      ensures |old(baseDirs)| <= 1 ==> baseDirs == old(baseDirs)
      ensures |old(baseDirs)| >= 1 ==> |baseDirs| >= 1
    {
      if |baseDirs| > 1 {
        baseDirs := baseDirs[..|baseDirs| - 1];
      }
    }

    /** `set_modules_path`: replaces the module search list. */
    method SetModulesPath(spec: string)
      modifies this`modulesPaths
      ensures modulesPaths == ParseModulesPathList(host, spec)
    {
      modulesPaths := ParseModulesPathList(host, spec);
    }

    /** `execute`: runs the statements in order and stops at the first failure. */
    method Execute(stmts: seq<Syntax.Stmt>, fuel: nat) returns (r: Outcome<()>)
      modifies this
      ensures (r, St()) == RunProgram(host, old(St()), stmts, fuel)
      decreases fuel, 1
    {
      var i := 0;
      while i < |stmts|
        invariant 0 <= i <= |stmts|
        invariant RunProgram(host, old(St()), stmts, fuel) == RunProgram(host, St(), stmts[i..], fuel)
      {
        assert stmts[i..][0] == stmts[i] && stmts[i..][1..] == stmts[i + 1..];
        var o := ExecuteStatement(stmts[i], fuel);
        if o.IsFailure() {
          return o.PropagateFailure();
        }
        i := i + 1;
      }
      r := Ok(());
    }

    /** `execute_statement`: one statement. */
    method ExecuteStatement(s: Syntax.Stmt, fuel: nat) returns (r: StmtOutcome)
      modifies this
      ensures (r, St()) == RunStmt(host, old(St()), s, fuel)
      decreases fuel, 0, 1
    {
      if fuel == 0 {
        return Exhausted;
      }
      if s.If? || s.While? {
        r := ExecControl(s, fuel);
      } else if s.Include? || s.FunctionCall? {
        r := ExecTransfer(s, fuel);
      } else if s.Read? || s.FunctionDef? {
        r := ExecDirect(s, fuel);
      } else if s.Printf? {
        RunStmtDispatchWrite(host, St(), s, fuel);
        r := ExecPrintf(s.format, s.printArgs, fuel - 1);
      } else if s.Return? {
        r := ExecReturn(s, fuel);
      } else {
        RunStmtDispatchWrite(host, St(), s, fuel);
        r := ExecStore(s, fuel - 1);
      }
    }

    /** `if` and `while`. */
    method ExecControl(s: Syntax.Stmt, fuel: nat) returns (r: StmtOutcome)
      requires (s.If? || s.While?) && fuel > 0
      modifies this
      ensures (r, St()) == RunStmt(host, old(St()), s, fuel)
      decreases fuel, 0, 0
    {
      RunStmtDispatch(host, St(), s, fuel);
      match s
      case If(cond, thenBody, elseIfs, elseBody) =>
        r := ExecIf(cond, thenBody, elseIfs, elseBody, fuel - 1);
      case While(cond, body) =>
        r := ExecWhile(cond, body, fuel - 1);
    }

    /** `include` and a call statement: control passes to other statements and comes back. */
    method ExecTransfer(s: Syntax.Stmt, fuel: nat) returns (r: StmtOutcome)
      requires (s.Include? || s.FunctionCall?) && fuel > 0
      modifies this
      ensures (r, St()) == RunStmt(host, old(St()), s, fuel)
      decreases fuel, 0, 0
    {
      RunStmtDispatchTransfer(host, St(), s, fuel);
      match s
      case Include(path) =>
        r := ExecInclude(path, fuel - 1);
      case FunctionCall(name, args) =>
        r := ExecCall(name, args, fuel - 1);
    }

    /** `read` (the next line of standard input, its line ending trimmed, into the variable)
        and a function definition. */
    method ExecDirect(s: Syntax.Stmt, fuel: nat) returns (r: StmtOutcome)
      requires (s.Read? || s.FunctionDef?) && fuel > 0
      modifies this
      ensures (r, St()) == RunStmt(host, old(St()), s, fuel)
      decreases fuel, 0, 0
    {
      match s
      case Read(x) =>
        var (line, rest) := ReadLine(stdin);
        stdin := rest;
        vars := vars[x := Str(TrimLineEnd(line))];
        r := Ok(None);
      case FunctionDef(name, params, body) =>
        funcs := funcs[name := Syntax.Function(params, body)];
        r := Ok(None);
    }

    /** `return`: the value, `Nil` when there is none, becomes the last return value. */
    method ExecReturn(s: Syntax.Stmt, fuel: nat) returns (r: StmtOutcome)
      requires s.Return? && fuel > 0
      modifies this
      ensures (r, St()) == RunStmt(host, old(St()), s, fuel)
      decreases fuel, 0, 0
    {
      if s.returned.Some? {
        var v :- EvalExpr(s.returned.value, fuel - 1);
        currentReturn := Some(v);
        r := Ok(Some(v));
      } else {
        currentReturn := Some(Nil);
        r := Ok(Some(Nil));
      }
    }

    /** The statements that rewrite one variable. */
    method ExecStore(s: Syntax.Stmt, fuel: nat) returns (r: StmtOutcome)
      requires IsStoreStmt(s)
      modifies this
      ensures (r, St()) == RunStore(host, old(St()), s, fuel)
      decreases fuel, 2
    {
      if IsUpdateStmt(s) {
        var x := Target(s);
        var current := GetVar(vars, x);
        var v :- EvalExpr(StmtExprs(s)[0], fuel);
        vars := vars[x := Combine(host.ops, s, current, v)];
        r := Ok(None);
      } else {
        match s
        case ArrayAssignment(a, i, e) =>
          var iv :- EvalExpr(i, fuel);
          var idx := AsUsize(host.ops.toInt(iv));
          var v :- EvalExpr(e, fuel);
          vars := vars[a := AssignElement(GetVar(vars, a), idx, v)];
          r := Ok(None);
        case Pop(a) =>
          vars := vars[a := PopValue(GetVar(vars, a))];
          r := Ok(None);
        case Shift(a) =>
          vars := vars[a := ShiftValue(GetVar(vars, a))];
          r := Ok(None);
      }
    }

    /** `printf`. */
    method ExecPrintf(format: string, args: seq<Syntax.Expr>, fuel: nat) returns (r: StmtOutcome)
      modifies this
      ensures (r, St()) == RunPrintf(host, old(St()), format, args, fuel)
      decreases fuel, 2
    {
      var vals :- EvalList(args, fuel);
      stdout := stdout + Emitted(PrintfText(format, vals));
      r := Ok(None);
    }

    /** The statements of a body, in order, until one yields a return value. */
    method ExecBlock(body: seq<Syntax.Stmt>, fuel: nat) returns (r: StmtOutcome)
      modifies this
      ensures (r, St()) == RunBlock(host, old(St()), body, fuel)
      decreases fuel, 1
    {
      var i := 0;
      while i < |body|
        invariant 0 <= i <= |body|
        invariant RunBlock(host, old(St()), body, fuel) == RunBlock(host, St(), body[i..], fuel)
      {
        assert body[i..][0] == body[i] && body[i..][1..] == body[i + 1..];
        var o := ExecuteStatement(body[i], fuel);
        if Stops(o) {
          return o;
        }
        i := i + 1;
      }
      r := Ok(None);
    }

    /** The `elseif` part of the condition scan. */
    method ScanElseIfs(elseIfs: seq<Syntax.ElseIf>, fuel: nat) returns (r: Outcome<nat>)
      modifies this
      ensures (r, St()) == ScanOf(host, old(St()), elseIfs, 0, fuel)
      decreases fuel, 1
    {
      var k := 0;
      while k < |elseIfs|
        invariant 0 <= k <= |elseIfs|
        invariant ScanOf(host, old(St()), elseIfs, 0, fuel) == ScanOf(host, St(), elseIfs, k, fuel)
      {
        var c :- EvalExpr(elseIfs[k].cond, fuel);
        if host.ops.isTruthy(c) {
          return Ok(k);
        }
        k := k + 1;
      }
      r := Ok(|elseIfs|);
    }

    /** The condition scan of `if` / `elseif` / `else`. */
    method SelectBranch(cond: Syntax.Expr, elseIfs: seq<Syntax.ElseIf>, hasElse: bool, fuel: nat)
      returns (r: Outcome<Branch>)
      modifies this
      ensures (r, St()) == SelectOf(host, old(St()), cond, elseIfs, hasElse, fuel)
      decreases fuel, 2
    {
      var c :- EvalExpr(cond, fuel);
      if host.ops.isTruthy(c) {
        return Ok(ThenBranch);
      }
      var k :- ScanElseIfs(elseIfs, fuel);
      if k < |elseIfs| {
        r := Ok(ElseIfBranch(k));
      } else {
        r := if hasElse then Ok(ElseBranch) else Ok(NoBranch);
      }
    }

    /** `if` / `elseif` / `else`. */
    method ExecIf(cond: Syntax.Expr, thenBody: seq<Syntax.Stmt>, elseIfs: seq<Syntax.ElseIf>,
                  elseBody: Option<seq<Syntax.Stmt>>, fuel: nat) returns (r: StmtOutcome)
      modifies this
      ensures (r, St()) == RunIf(host, old(St()), cond, thenBody, elseIfs, elseBody, fuel)
      decreases fuel, 3
    {
      var sel :- SelectBranch(cond, elseIfs, elseBody.Some?, fuel);
      match sel {
        case ThenBranch =>
          r := ExecBlock(thenBody, fuel);
        case ElseIfBranch(k) =>
          r := ExecBlock(elseIfs[k].body, fuel);
        case ElseBranch =>
          r := ExecBlock(elseBody.value, fuel);
        case NoBranch =>
          r := Ok(None);
      }
    }

    /** `while`; the loop counts its iterations against its fuel. */
    method ExecWhile(cond: Syntax.Expr, body: seq<Syntax.Stmt>, fuel: nat) returns (r: StmtOutcome)
      modifies this
      ensures (r, St()) == RunWhile(host, old(St()), cond, body, fuel, fuel)
      decreases fuel, 2
    {
      var budget := fuel;
      while budget > 0
        invariant RunWhile(host, old(St()), cond, body, fuel, fuel) == RunWhile(host, St(), cond, body, fuel, budget)
        decreases budget
      {
        var c :- EvalExpr(cond, fuel);
        if !host.ops.isTruthy(c) {
          return Ok(None);
        }
        var b := ExecBlock(body, fuel);
        if b != Ok(None) {
          return b;
        }
        budget := budget - 1;
      }
      r := Exhausted;
    }

    /** An include. */
    method ExecInclude(path: Path, fuel: nat) returns (r: StmtOutcome)
      modifies this
      ensures (r, St()) == RunInclude(host, old(St()), path, fuel)
      decreases fuel, 2
    {
      var resolved := ResolveIncludePath(host, baseDirs, modulesPaths, path);
      var canonical := Canon(host, resolved);
      if canonical in includeInProgress {
        return Err("Include cycle detected (already in progress): " + canonical);
      }
      includeInProgress := includeInProgress + {canonical};
      match host.readFile(resolved) {
        case ReadError(reason) =>
          r := Err("Failed to include file: " + reason);
        case Contents(text) =>
          var stmts := host.parse(text);
          var parentDir := Parent(resolved);
          if parentDir.Some? {
            PushBaseDir(parentDir.value);
          }
          assert St() == IncludeEntry(host, old(St()), resolved, canonical);
          var execResult := Execute(stmts, fuel);
          if parentDir.Some? {
            PopBaseDir();
          }
          if execResult.IsFailure() {
            leaked := leaked + {canonical};
            return execResult.PropagateFailure();
          }
          r := Ok(None);
      }
      includeInProgress := includeInProgress - {canonical};
    }

    /** A call statement. */
    method ExecCall(name: string, args: seq<Syntax.Expr>, fuel: nat) returns (r: StmtOutcome)
      modifies this
      ensures (r, St()) == RunCall(host, old(St()), name, args, fuel)
      decreases fuel, 3
    {
      if name == "sleep" {
        if args != [] {
          var seconds :- EvalExpr(args[0], fuel);
        }
        return Ok(None);
      }
      if name in funcs {
        r := CallUser(funcs[name], args, fuel);
      } else {
        stderr := stderr + ["Warning: function '" + name + "' not defined"];
        r := Ok(None);
      }
    }

    /** The call protocol shared by call statements and call expressions. */
    method CallUser(f: Syntax.Function, args: seq<Syntax.Expr>, fuel: nat) returns (r: StmtOutcome)
      modifies this
      ensures (r, St()) == CallFunction(host, old(St()), f, args, fuel)
      decreases fuel, 2
    {
      var vals :- EvalList(args, fuel);
      var bound, saved := Bind(vars, f.params, vals);
      vars := bound;
      r := ExecBlock(f.body, fuel);
      vars := Restore(vars, saved);
    }

    /** The expressions of a list, left to right; the first failure stops it. */
    method EvalList(es: seq<Syntax.Expr>, fuel: nat) returns (r: Outcome<seq<Value>>)
      modifies this
      ensures (r, St()) == EvalArgs(host, old(St()), es, [], fuel)
      decreases fuel, 1
    {
      var values := [];
      var i := 0;
      while i < |es|
        invariant 0 <= i <= |es|
        invariant EvalArgs(host, old(St()), es, [], fuel) == EvalArgs(host, St(), es[i..], values, fuel)
      {
        assert es[i..][0] == es[i] && es[i..][1..] == es[i + 1..];
        var v :- EvalExpr(es[i], fuel);
        values := values + [v];
        i := i + 1;
      }
      r := Ok(values);
    }

    /** `eval_expr`. */
    method EvalExpr(e: Syntax.Expr, fuel: nat) returns (r: Outcome<Value>)
      modifies this
      ensures (r, St()) == Eval(host, old(St()), e, fuel)
      decreases fuel, 0, 1
    {
      if fuel == 0 {
        return Exhausted;
      }
      match e
      case IntLit(n) =>
        r := Ok(Int(n));
      case StringLit(s) =>
        r := Ok(Str(s));
      case RegexLit(p) =>
        r := Ok(Regex(p));
      case SubstCall(pat, repl, flags, input) =>
        r := EvalSubstExpr(pat, repl, flags, input, fuel - 1);
      case Variable(name) =>
        r := Ok(GetVar(vars, name));
      case Binary(left, op, right) =>
        r := EvalBinaryExpr(e, fuel);
      case Unary(op, x) =>
        r := EvalUnaryExpr(op, x, fuel - 1);
      case ArrayLit(elems) =>
        r := EvalArrayExpr(elems, fuel - 1);
      case Index(target, index) =>
        r := EvalIndexExpr(e, fuel);
      case Call(name, args) =>
        r := EvalCall(name, args, fuel - 1);
    }

    /** A substitution: the input, then the regex replacement on its text. */
    method EvalSubstExpr(pat: string, repl: string, flags: string, input: Syntax.Expr, fuel: nat)
      returns (r: Outcome<Value>)
      modifies this
      ensures (r, St()) == EvalSubstOf(host, old(St()), pat, repl, flags, input, fuel)
      decreases fuel, 1
    {
      var src :- EvalExpr(input, fuel);
      r := Substitute(host, pat, repl, flags, host.ops.toString(src));
    }

    /** A binary operation: both operands, left to right, then the operator. */
    method EvalBinaryExpr(e: Syntax.Expr, fuel: nat) returns (r: Outcome<Value>)
      requires e.Binary? && fuel > 0
      modifies this
      ensures (r, St()) == Eval(host, old(St()), e, fuel)
      decreases fuel, 0, 0
    {
      var lv :- EvalExpr(e.left, fuel - 1);
      var rv :- EvalExpr(e.right, fuel - 1);
      r := EvalBinary(host, e.op, lv, rv);
    }

    /** A unary operation: the operand, then the operator. */
    method EvalUnaryExpr(op: Syntax.UnaryOp, x: Syntax.Expr, fuel: nat) returns (r: Outcome<Value>)
      modifies this
      ensures (r, St()) == EvalUnaryOf(host, old(St()), op, x, fuel)
      decreases fuel, 1
    {
      var v :- EvalExpr(x, fuel);
      r := Ok(EvalUnary(host.ops, op, v));
    }

    /** An array literal: its elements, left to right. */
    method EvalArrayExpr(elems: seq<Syntax.Expr>, fuel: nat) returns (r: Outcome<Value>)
      modifies this
      ensures (r, St()) == EvalArrayOf(host, old(St()), elems, fuel)
      decreases fuel, 2
    {
      var vs :- EvalList(elems, fuel);
      r := Ok(Array(vs));
    }

    /** An indexing: the target, then the index, then the element. */
    method EvalIndexExpr(e: Syntax.Expr, fuel: nat) returns (r: Outcome<Value>)
      requires e.Index? && fuel > 0
      modifies this
      ensures (r, St()) == Eval(host, old(St()), e, fuel)
      decreases fuel, 0, 0
    {
      var tv :- EvalExpr(e.target, fuel - 1);
      var iv :- EvalExpr(e.index, fuel - 1);
      r := Ok(Values.Index(tv, host.ops.toInt(iv)));
    }

    /** A call in an expression. */
    method EvalCall(name: string, args: seq<Syntax.Expr>, fuel: nat) returns (r: Outcome<Value>)
      modifies this
      ensures (r, St()) == EvalCallOf(host, old(St()), name, args, fuel)
      decreases fuel, 3
    {
      if Syntax.IsBuiltin(name) {
        if args == [] {
          r := Ok(Builtin(host, name, None));
        } else {
          var v :- EvalExpr(args[0], fuel);
          r := Ok(Builtin(host, name, Some(v)));
        }
      } else if name in funcs {
        var ret := CallUser(funcs[name], args, fuel);
        match ret
        case Ok(Some(v)) => r := Ok(v);
        case Ok(None) => r := Ok(Nil);
        case Err(msg) => r := Err(msg);
        case Exhausted => r := Exhausted;
      } else {
        stderr := stderr + ["Warning: unknown function '" + name + "'"];
        r := Ok(Nil);
      }
    }
  }
}
