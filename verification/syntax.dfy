/** The abstract syntax the evaluator walks and the runtime values it produces
    (`interpreter.rs`: `Value`, its `Display`, and the AST shapes its match arms name). */
module Syntax {
  import opened Base
  import opened Text
  import SnaskTypes

  datatype UnaryOp = Negative

  datatype BinaryOp =
    | Add | Subtract | Multiply | Divide
    | Equals | NotEquals
    | GreaterThan | LessThan | GreaterThanOrEquals | LessThanOrEquals

  /** `LiteralValue`: list and dict literals hold unevaluated sub-expressions. */
  datatype Literal =
    | LNumber(n: real)
    | LString(s: string)
    | LBoolean(b: bool)
    | LList(items: seq<Expr>)
    | LDict(entries: seq<Entry>)

  datatype Entry = Entry(key: Expr, val: Expr)

  /** `ExprKind`. */
  datatype Expr =
    | Literal(lit: Literal)
    | Variable(name: string)
    | Unary(uop: UnaryOp, operand: Expr)
    | Binary(bop: BinaryOp, left: Expr, right: Expr)
    | FunctionCall(callee: Expr, args: seq<Expr>)
    | IndexAccess(target: Expr, index: Expr)
    | PropertyAccess(receiver: Expr, property: string)

  /** One `if`/`elif` arm. */
  datatype Branch = Branch(condition: Expr, body: seq<Stmt>)

  /** `LoopStmt`: only `While` is executed; the other forms are parsed but refused. */
  datatype LoopStmt = While(condition: Expr, body: seq<Stmt>) | OtherLoop(form: string)

  datatype Param = Param(name: string, declared: SnaskTypes.Type)

  datatype FuncDecl = FuncDecl(name: string, params: seq<Param>, body: seq<Stmt>)

  /** `StmtKind`. `Unsupported` stands for the statement kinds the evaluator has no arm for. */
  datatype Stmt =
    | VarDeclaration(name: string, value: Expr)
    | MutDeclaration(name: string, value: Expr)
    | ConstDeclaration(name: string, value: Expr)
    | VarAssignment(name: string, value: Expr)
    | Print(exprs: seq<Expr>)
    | Input(name: string, varType: SnaskTypes.Type)
    // a missing `else` is the empty block, which executes exactly as no block
    | Conditional(ifBranch: Branch, elifs: seq<Branch>, elseBody: seq<Stmt>)
    | Loop(loop: LoopStmt)
    | FuncDeclaration(decl: FuncDecl)
    | Return(expr: Expr)
    | FuncCall(call: Expr)
    | Unsupported(kind: string)

  /** The runtime `Value`. A `Dict` is a map: Rust's `HashMap` compares by content. */
  datatype Value =
    | Number(n: real)
    | String(s: string)
    | Boolean(b: bool)
    | List(items: seq<Value>)
    | Dict(entries: map<Value, Value>)
    | Nil
    | Function(decl: FuncDecl)

  /** What the host's standard library decides and the model does not: the text of an
      `f64` under `Display`, and the order in which a `HashMap` yields its keys. */
  datatype Fmt = Fmt(number: real -> string, keyOrder: map<Value, Value> -> seq<Value>)

  /** The (key, value) pairs of m in iteration order. */
  function Entries(fmt: Fmt, m: map<Value, Value>): (es: seq<(Value, Value)>)
    ensures forall i :: 0 <= i < |es| ==> es[i].0 in m && es[i].1 == m[es[i].0]
    ensures forall k :: k in m && k in fmt.keyOrder(m) ==> exists i :: 0 <= i < |es| && es[i].0 == k
  {
    EntriesOf(m, fmt.keyOrder(m))
  }

  /** `impl Display for Value`. */
  function Render(fmt: Fmt, v: Value): string
  {
    match v
    case Number(n) => fmt.number(n)
    case String(s) => s
    case Boolean(b) => if b then "true" else "false"
    case List(items) =>
      "[" + Join(seq(|items|, i requires 0 <= i < |items| => Render(fmt, items[i])), ", ") + "]"
    case Dict(m) =>
      var es := Entries(fmt, m);
      "{" + Join(seq(|es|, i requires 0 <= i < |es| => Render(fmt, es[i].0) + ": " + Render(fmt, es[i].1)), ", ") + "}"
    case Nil => "nil"
    case Function(f) => "<fun " + f.name + ">"
  }
}
