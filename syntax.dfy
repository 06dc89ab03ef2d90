/** The statement and expression trees the parser hands to the interpreter (the parser
    itself is not part of this model). Socket statements are not modelled. */
module Syntax {
  import Values

  datatype BinOp =
    | Add | Subtract | Multiply | Divide | Modulo
    | Equal | NotEqual | Less | LessEqual | Greater | GreaterEqual
    | And | Or | Match
  {
    predicate IsRelational() {
      Less? || LessEqual? || Greater? || GreaterEqual?
    }
  }

  datatype UnaryOp = Not | Negate

  datatype Expr =
    | IntLit(n: int)
    | StringLit(s: string)
    | RegexLit(pattern: string)
    | SubstCall(pat: string, repl: string, flags: string, input: Expr)
    | Variable(name: string)
    | Binary(left: Expr, op: BinOp, right: Expr)
    | Unary(uop: UnaryOp, operand: Expr)
    | ArrayLit(elems: seq<Expr>)
    | Index(target: Expr, index: Expr)
    | Call(callee: string, args: seq<Expr>)

  datatype ElseIf = ElseIf(cond: Expr, body: seq<Stmt>)

  datatype Stmt =
    | Assignment(target: string, value: Expr)
    | ArrayAssignment(arrayName: string, index: Expr, element: Expr)
    | If(cond: Expr, thenBody: seq<Stmt>, elseIfs: seq<ElseIf>, elseBody: Values.Option<seq<Stmt>>)
    | While(loopCond: Expr, loopBody: seq<Stmt>)
    | Printf(format: string, printArgs: seq<Expr>)
    | Read(readVar: string)
    | Inc(incVar: string, delta: Expr)
    | Dec(decVar: string, delta: Expr)
    | Push(pushArray: string, pushed: Expr)
    | Pop(popArray: string)
    | Shift(shiftArray: string)
    | Unshift(unshiftArray: string, unshifted: Expr)
    | Include(path: string)
    | FunctionDef(defName: string, params: seq<string>, defBody: seq<Stmt>)
    | FunctionCall(name: string, callArgs: seq<Expr>)
    | Return(returned: Values.Option<Expr>)

  /** A user function as the function table stores it: parameter names and body. */
  datatype Function = Function(params: seq<string>, body: seq<Stmt>)

  /** The names `eval_expr` intercepts before looking up a user function. */
  predicate IsBuiltin(name: string) {
    name in {"len", "strlen", "shell", "number", "lower", "upper", "sleep"}
  }
}
