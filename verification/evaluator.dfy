/** The tree-walking evaluator of `interpreter.rs`: expression evaluation, statement
    execution, conditionals, `while`, user function calls and the `push`/`set` methods,
    over an explicit state (scope stack, printed lines, console input).

    Fuel bounds the number of function bodies entered and loop iterations run, nested;
    it is the model's only addition, and running out of it is a separate outcome. */
module Evaluator {
  import opened Base
  import opened Text
  import opened Syntax
  import opened Scopes
  import opened Operators
  import SnaskTypes

  /** What the evaluator borrows from Rust's standard library: `f64` display and
      `HashMap` order (`fmt`), `str::parse::<f64>` and `str::parse::<i64>`. */
  datatype Host = Host(fmt: Fmt, parseFloat: string -> Option<real>, parseInt: string -> Option<int>)

  /** The interpreter's symbol table, the lines printed so far, and the console input
      with the number of lines already read. */
  datatype State = State(scopes: Frames, output: seq<string>, stdin: seq<string>, cursor: nat)

  /** Outcome of evaluating an expression. */
  datatype Eval = Produced(v: Value, st: State) | Raised(fault: Fault, st: State) | EvalOutOfFuel

  /** Outcome of executing a statement or block; `Returned` is the `return` signal. */
  datatype Exec = Normal(st: State) | Returned(v: Value, st: State) | Failed(fault: Fault, st: State) | ExecOutOfFuel

  /** Outcome of evaluating a sequence of sub-expressions. */
  datatype Collected<T> = Collected(items: T, st: State) | CollectRaised(fault: Fault, st: State) | CollectOutOfFuel

  /** What any evaluation step keeps: scopes are never popped below the starting
      depth, printed lines are only appended, console input is only consumed. */
  predicate Evolves(a: State, b: State)
  {
    && Depth(b.scopes) >= Depth(a.scopes)
    && a.output <= b.output
    && a.stdin == b.stdin
    && a.cursor <= b.cursor
  }

  predicate EvalKeeps(st: State, r: Eval) { r.EvalOutOfFuel? || Evolves(st, r.st) }
  predicate ExecKeeps(st: State, r: Exec) { r.ExecOutOfFuel? || Evolves(st, r.st) }
  predicate CollectKeeps<T>(st: State, r: Collected<T>) { r.CollectOutOfFuel? || Evolves(st, r.st) }

  function Enter(st: State): State { st.(scopes := EnterScope(st.scopes)) }
  function Exit(st: State): State { st.(scopes := ExitScope(st.scopes)) }
  function Bind(st: State, name: string, v: Value, reassignable: bool, flag: bool): State
  {
    st.(scopes := Define(st.scopes, name, v, reassignable, flag))
  }

  // ----- syntax sizes, the structural part of the termination measure -----

  function ExprSize(e: Expr): (n: nat)
    ensures n >= 1
  {
    match e
    case Literal(lit) =>
      (match lit
       case LList(items) => 2 + ExprsSize(items)
       case LDict(entries) => 2 + EntriesSize(entries)
       case _ => 1)
    case Variable(_) => 1
    case Unary(_, x) => 1 + ExprSize(x)
    case Binary(_, l, r) => 1 + ExprSize(l) + ExprSize(r)
    case FunctionCall(callee, args) => 2 + ExprSize(callee) + ExprsSize(args)
    case IndexAccess(t, i) => 1 + ExprSize(t) + ExprSize(i)
    case PropertyAccess(o, _) => 1 + ExprSize(o)
  }

  function ExprsSize(es: seq<Expr>): nat
  {
    if |es| == 0 then 0 else ExprSize(es[0]) + ExprsSize(es[1..])
  }

  function EntriesSize(es: seq<Entry>): nat
  {
    if |es| == 0 then 0 else EntrySize(es[0]) + EntriesSize(es[1..])
  }

  function EntrySize(en: Entry): (n: nat)
    ensures n > ExprSize(en.key) && n > ExprSize(en.val)
  {
    ExprSize(en.key) + ExprSize(en.val)
  }

  function StmtSize(s: Stmt): (n: nat)
    ensures n >= 1
  {
    match s
    case VarDeclaration(_, e) => 1 + ExprSize(e)
    case MutDeclaration(_, e) => 1 + ExprSize(e)
    case ConstDeclaration(_, e) => 1 + ExprSize(e)
    case VarAssignment(_, e) => 1 + ExprSize(e)
    case Print(es) => 2 + ExprsSize(es)
    case Input(_, _) => 1
    case Conditional(ifB, elifs, elseBody) =>
      2 + BranchSize(ifB) + BranchesSize(elifs) + BlockSize(elseBody)
    case Loop(l) =>
      (match l
       case While(c, b) => 2 + ExprSize(c) + BlockSize(b)
       case OtherLoop(_) => 1)
    case FuncDeclaration(_) => 1
    case Return(e) => 1 + ExprSize(e)
    case FuncCall(e) => 1 + ExprSize(e)
    case Unsupported(_) => 1
  }

  function BlockSize(ss: seq<Stmt>): nat
  {
    if |ss| == 0 then 0 else StmtSize(ss[0]) + BlockSize(ss[1..])
  }

  function BranchSize(b: Branch): (n: nat)
    ensures n > ExprSize(b.condition) && n > BlockSize(b.body) + 1
  {
    2 + ExprSize(b.condition) + BlockSize(b.body)
  }

  function BranchesSize(bs: seq<Branch>): (n: nat)
    ensures |bs| > 0 ==> n > BranchesSize(bs[1..]) && n >= BranchSize(bs[0])
  {
    if |bs| == 0 then 0 else BranchSize(bs[0]) + BranchesSize(bs[1..])
  }

  // ----- expressions -----

  /** `evaluate_expression`. */
  function EvalExpr(h: Host, e: Expr, st: State, fuel: nat): (r: Eval)
    ensures EvalKeeps(st, r)
    decreases fuel, ExprSize(e)
  {
    match e
    case Literal(lit) =>
      (match lit
       case LNumber(n) => Produced(Number(n), st)
       case LString(s) => Produced(String(s), st)
       case LBoolean(b) => Produced(Boolean(b), st)
       case LList(items) =>
         (match EvalListItems(h, items, st, fuel)
          case Collected(vs, st1) => Produced(List(vs), st1)
          case _ => EvalOutOfFuel)
       case LDict(entries) =>
         (match EvalDictEntries(h, entries, map[], st, fuel)
          case Collected(m, st1) => Produced(Dict(m), st1)
          case _ => EvalOutOfFuel))
    case Variable(name) =>
      (match Lookup(st.scopes, name)
       case Some(sym) => Produced(sym.value, st)
       case None => Raised(UndefinedVariable(name), st))
    case Unary(_, x) =>
      (match EvalExpr(h, x, st, fuel)
       case Produced(v, st1) =>
         (match Negate(v)
          case Ok(w) => Produced(w, st1)
          case Err(f) => Raised(f, st1))
       case other => other)
    case Binary(op, l, r) =>
      (match EvalExpr(h, l, st, fuel)
       case Produced(lv, st1) =>
         (match EvalExpr(h, r, st1, fuel)
          case Produced(rv, st2) =>
            (match ApplyBinary(h.fmt, op, lv, rv)
             case Ok(w) => Produced(w, st2)
             case Err(f) => Raised(f, st2))
          case other => other)
       case other => other)
    case FunctionCall(callee, args) => EvalCall(h, callee, args, st, fuel)
    case IndexAccess(t, i) =>
      (match EvalExpr(h, t, st, fuel)
       case Produced(tv, st1) =>
         (match EvalExpr(h, i, st1, fuel)
          case Produced(iv, st2) =>
            (match IndexValue(tv, iv)
             case Ok(w) => Produced(w, st2)
             case Err(f) => Raised(f, st2))
          case other => other)
       case other => other)
    case PropertyAccess(_, _) => Raised(PropertyOutsideCall, st)
  }

  /** A list literal: an element that fails becomes `Nil`; its effects stay. */
  function EvalListItems(h: Host, es: seq<Expr>, st: State, fuel: nat): (r: Collected<seq<Value>>)
    ensures CollectKeeps(st, r)
    ensures r.Collected? ==> |r.items| == |es|
    ensures !r.CollectRaised?
    decreases fuel, ExprsSize(es) + 1
  {
    if |es| == 0 then Collected([], st)
    else
      var first := EvalExpr(h, es[0], st, fuel);
      if first.EvalOutOfFuel? then CollectOutOfFuel
      else
        var v := if first.Produced? then first.v else Nil;
        match EvalListItems(h, es[1..], first.st, fuel)
        case Collected(vs, st2) => Collected([v] + vs, st2)
        case _ => CollectOutOfFuel
  }

  /** A dict literal: key and value are both evaluated; the entry is kept only if
      both succeed, and a later entry with an equal key replaces an earlier one. */
  function EvalDictEntries(h: Host, es: seq<Entry>, acc: map<Value, Value>, st: State, fuel: nat): (r: Collected<map<Value, Value>>)
    ensures CollectKeeps(st, r)
    ensures !r.CollectRaised?
    decreases fuel, EntriesSize(es) + 1
  {
    if |es| == 0 then Collected(acc, st)
    else
      var k := EvalExpr(h, es[0].key, st, fuel);
      if k.EvalOutOfFuel? then CollectOutOfFuel
      else
        var v := EvalExpr(h, es[0].val, k.st, fuel);
        if v.EvalOutOfFuel? then CollectOutOfFuel
        else
          var acc' := if k.Produced? && v.Produced? then acc[k.v := v.v] else acc;
          EvalDictEntries(h, es[1..], acc', v.st, fuel)
  }

  /** Left-to-right evaluation that stops at the first failure (method-call
      arguments and `print`). */
  function EvalArgs(h: Host, es: seq<Expr>, st: State, fuel: nat): (r: Collected<seq<Value>>)
    ensures CollectKeeps(st, r)
    ensures r.Collected? ==> |r.items| == |es|
    decreases fuel, ExprsSize(es) + 1
  {
    if |es| == 0 then Collected([], st)
    else
      match EvalExpr(h, es[0], st, fuel)
      case EvalOutOfFuel => CollectOutOfFuel
      case Raised(f, st1) => CollectRaised(f, st1)
      case Produced(v, st1) =>
        match EvalArgs(h, es[1..], st1, fuel)
        case Collected(vs, st2) => Collected([v] + vs, st2)
        case other => other
  }

  /** `evaluate_function_call`. */
  function EvalCall(h: Host, callee: Expr, args: seq<Expr>, st: State, fuel: nat): (r: Eval)
    ensures EvalKeeps(st, r)
    decreases fuel, ExprSize(callee) + ExprsSize(args) + 1
  {
    if callee.PropertyAccess? then
      match EvalArgs(h, args, st, fuel)
      case CollectOutOfFuel => EvalOutOfFuel
      case CollectRaised(f, st1) => Raised(f, st1)
      case Collected(vals, st1) => CallMethod(callee.receiver, callee.property, vals, st1)
    else
      match EvalExpr(h, callee, st, fuel)
      case EvalOutOfFuel => EvalOutOfFuel
      case Raised(f, st1) => Raised(f, st1)
      case Produced(fv, st1) =>
        if !fv.Function? then Raised(NotCallable(fv), st1)
        else if |args| != |fv.decl.params| then
          Raised(WrongArgumentCount(fv.decl.name, |fv.decl.params|, |args|), st1)
        else Invoke(h, fv.decl, args, st1, fuel)
  }

  /** Calls a function whose arity matches: the arguments are bound in a new
      scope, then the body runs on one unit of fuel less. */
  function Invoke(h: Host, decl: FuncDecl, args: seq<Expr>, st: State, fuel: nat): (r: Eval)
    requires |args| == |decl.params|
    ensures EvalKeeps(st, r)
    decreases fuel, ExprsSize(args) + 1
  {
    match BindArgs(h, decl.params, args, Enter(st), fuel)
    case CollectOutOfFuel => EvalOutOfFuel
    // an argument that fails leaves the call's scope pushed
    case CollectRaised(f, st2) => Raised(f, st2)
    case Collected(_, st2) =>
      if fuel == 0 then EvalOutOfFuel
      else CallResult(h, ExecBlock(h, decl.body, st2, fuel - 1))
  }

  /** How a finished function body becomes the call's value: the call scope is
      left, a body that ends normally yields nil, a returned value comes back
      through its text, and a failure propagates. */
  function CallResult(h: Host, x: Exec): Eval
  {
    match x
    case ExecOutOfFuel => EvalOutOfFuel
    case Normal(st3) => Produced(Nil, Exit(st3))
    case Returned(v, st3) => Produced(DecodeReturn(h.parseFloat, Render(h.fmt, v)), Exit(st3))
    case Failed(f, st3) => Raised(f, Exit(st3))
  }

  /** Evaluates each argument inside the already entered call scope and binds it to
      its parameter as a non-reassignable name, so a later argument sees the
      parameters bound before it. */
  function BindArgs(h: Host, params: seq<Param>, args: seq<Expr>, st: State, fuel: nat): (r: Collected<()>)
    requires |params| == |args|
    ensures CollectKeeps(st, r)
    decreases fuel, ExprsSize(args) + 1, 0
  {
    if |args| == 0 then Collected((), st)
    else
      match EvalExpr(h, args[0], st, fuel)
      case EvalOutOfFuel => CollectOutOfFuel
      case Raised(f, st1) => CollectRaised(f, st1)
      case Produced(v, st1) => BindArgs(h, params[1..], args[1..], Bind(st1, params[0].name, v, false, false), fuel)
  }

  /** The built-in `push` (lists) and `set` (dicts), on a variable target only. The
      binding is changed in place whatever its reassignability. */
  function CallMethod(target: Expr, property: string, vals: seq<Value>, st: State): (r: Eval)
    ensures r.Produced? || r.Raised?
    ensures r.st.output == st.output && r.st.cursor == st.cursor && r.st.stdin == st.stdin
    ensures Depth(r.st.scopes) == Depth(st.scopes)
    ensures !target.Variable? ==> r == Raised(ComplexMethodTarget, st)
    ensures r.Produced? ==> r.v == Nil
  {
    if !target.Variable? then Raised(ComplexMethodTarget, st)
    else
      var name := target.name;
      match Lookup(st.scopes, name)
      case None => Raised(UndefinedVariable(name), st)
      case Some(sym) =>
        match sym.value
        case List(items) =>
          if property != "push" then Raised(NoListMethod(property), st)
          else if |vals| != 1 then Raised(PushArity(|vals|), st)
          else Produced(Nil, st.(scopes := Update(st.scopes, name, sym.(value := List(items + [vals[0]])))))
        case Dict(m) =>
          if property != "set" then Raised(NoDictMethod(property), st)
          else if |vals| != 2 then Raised(SetArity(|vals|), st)
          else Produced(Nil, st.(scopes := Update(st.scopes, name, sym.(value := Dict(m[vals[0] := vals[1]])))))
        case _ => Raised(NotACollection(property), st)
  }

  // ----- statements -----

  /** The value `input` produces from one trimmed console line, by declared type. */
  function InputValue(h: Host, t: SnaskTypes.Type, text: string): (r: Result<Value, Fault>)
    ensures t == SnaskTypes.String ==> r == Ok(String(text))
    ensures t == SnaskTypes.Float ==>
      && (r.Ok? <==> h.parseFloat(text).Some?)
      && (r.Ok? ==> r.value == Number(h.parseFloat(text).value))
      && (r.Err? ==> r.error == InvalidInput(t, text))
    ensures t == SnaskTypes.Int ==>
      && (r.Ok? <==> h.parseInt(text).Some?)
      && (r.Ok? ==> r.value == Number(h.parseInt(text).value as real))
      && (r.Err? ==> r.error == InvalidInput(t, text))
    ensures t == SnaskTypes.Bool ==> r == (if text == "true" then Ok(Boolean(true))
                                           else if text == "false" then Ok(Boolean(false))
                                           else Err(InvalidInput(t, text)))
    ensures !(t.String? || t.Float? || t.Int? || t.Bool?) ==> r == Err(InputTypeNotSupported(t))
  {
    match t
    case String => Ok(String(text))
    case Float =>
      (match h.parseFloat(text)
       case Some(n) => Ok(Number(n))
       case None => Err(InvalidInput(t, text)))
    case Int =>
      (match h.parseInt(text)
       case Some(n) => Ok(Number(n as real))
       case None => Err(InvalidInput(t, text)))
    case Bool =>
      if text == "true" then Ok(Boolean(true))
      else if text == "false" then Ok(Boolean(false))
      else Err(InvalidInput(t, text))
    case _ => Err(InputTypeNotSupported(t))
  }

  /** `interpret_statement`. */
  function ExecStmt(h: Host, s: Stmt, st: State, fuel: nat): (r: Exec)
    ensures ExecKeeps(st, r)
    decreases fuel, StmtSize(s)
  {
    match s
    case VarDeclaration(name, e) => Declare(EvalExpr(h, e, st, fuel), name, false, true)
    case MutDeclaration(name, e) => Declare(EvalExpr(h, e, st, fuel), name, true, true)
    case ConstDeclaration(name, e) => Declare(EvalExpr(h, e, st, fuel), name, false, false)
    case VarAssignment(name, e) =>
      (match EvalExpr(h, e, st, fuel)
       case EvalOutOfFuel => ExecOutOfFuel
       case Raised(f, st1) => Failed(f, st1)
       case Produced(v, st1) =>
         (match Assign(st1.scopes, name, v)
          case Ok(scopes) => Normal(st1.(scopes := scopes))
          case Err(Unbound) => Failed(AssignToUndefined(name), st1)
          case Err(NotReassignable) => Failed(ConstantReassignment(name), st1)))
    case Print(es) =>
      (match EvalArgs(h, es, st, fuel)
       case CollectOutOfFuel => ExecOutOfFuel
       case CollectRaised(f, st1) => Failed(f, st1)
       case Collected(vals, st1) =>
         var texts := seq(|vals|, i requires 0 <= i < |vals| => Render(h.fmt, vals[i]));
         Normal(st1.(output := st1.output + [Join(texts, " ")])))
    case Input(name, t) =>
      // a line is read before the type is examined; at end of input the line is empty
      var line := if st.cursor < |st.stdin| then st.stdin[st.cursor] else "";
      var st1 := if st.cursor < |st.stdin| then st.(cursor := st.cursor + 1) else st;
      (match InputValue(h, t, TrimRust(line))
       case Ok(v) => Normal(Bind(st1, name, v, true, true))
       case Err(f) => Failed(f, st1))
    case Conditional(ifB, elifs, elseBody) =>
      (match EvalExpr(h, ifB.condition, st, fuel)
       case EvalOutOfFuel => ExecOutOfFuel
       case Raised(f, st1) => Failed(f, st1)
       case Produced(c, st1) =>
         if c == Boolean(true) then ExecBlock(h, ifB.body, st1, fuel)
         else ExecBranches(h, elifs, elseBody, st1, fuel))
    case Loop(l) =>
      (match l
       case While(c, b) => ExecWhile(h, c, b, st, fuel)
       case OtherLoop(form) => Failed(LoopNotImplemented(form), st))
    case FuncDeclaration(d) => Normal(Bind(st, d.name, Function(d), false, false))
    case Return(e) =>
      (match EvalExpr(h, e, st, fuel)
       case EvalOutOfFuel => ExecOutOfFuel
       case Raised(f, st1) => Failed(f, st1)
       case Produced(v, st1) => Returned(v, st1))
    case FuncCall(e) =>
      (match EvalExpr(h, e, st, fuel)
       case EvalOutOfFuel => ExecOutOfFuel
       case Raised(f, st1) => Failed(f, st1)
       case Produced(_, st1) => Normal(st1))
    case Unsupported(kind) => Failed(StatementNotImplemented(kind), st)
  }

  /** The three declaration forms: evaluate, then `define` with the given flags. A
      declaration completes exactly when its value is produced, and then the name
      resolves to that value with those flags; a failure is the evaluation's own. */
  function Declare(r: Eval, name: string, reassignable: bool, flag: bool): (x: Exec)
    ensures x.Normal? <==> r.Produced?
    ensures x.Failed? <==> r.Raised?
    ensures r.Produced? ==>
      && Lookup(x.st.scopes, name) == Some(Symbol(r.v, reassignable, flag))
      && Depth(x.st.scopes) == Depth(r.st.scopes)
      && x.st.output == r.st.output && x.st.stdin == r.st.stdin && x.st.cursor == r.st.cursor
    ensures r.Raised? ==> x.fault == r.fault && x.st == r.st
  {
    match r
    case EvalOutOfFuel => ExecOutOfFuel
    case Raised(f, st1) => Failed(f, st1)
    case Produced(v, st1) =>
      DefineThenLookup(st1.scopes, name, v, reassignable, flag, name);
      Normal(Bind(st1, name, v, reassignable, flag))
  }

  /** The `elif` arms in order, then the `else` block. */
  function ExecBranches(h: Host, elifs: seq<Branch>, elseBody: seq<Stmt>, st: State, fuel: nat): (r: Exec)
    ensures ExecKeeps(st, r)
    decreases fuel, BranchesSize(elifs) + BlockSize(elseBody) + 2
  {
    if |elifs| == 0 then ExecBlock(h, elseBody, st, fuel)
    else
      match EvalExpr(h, elifs[0].condition, st, fuel)
      case EvalOutOfFuel => ExecOutOfFuel
      case Raised(f, st1) => Failed(f, st1)
      case Produced(c, st1) =>
        if c == Boolean(true) then ExecBlock(h, elifs[0].body, st1, fuel)
        else ExecBranches(h, elifs[1..], elseBody, st1, fuel)
  }

  /** `while`: each iteration runs its body between `enter_scope` and `exit_scope`,
      and the scope is exited also when the body fails or returns. */
  function ExecWhile(h: Host, cond: Expr, body: seq<Stmt>, st: State, fuel: nat): (r: Exec)
    ensures ExecKeeps(st, r)
    decreases fuel, ExprSize(cond) + BlockSize(body) + 1
  {
    match EvalExpr(h, cond, st, fuel)
    case EvalOutOfFuel => ExecOutOfFuel
    case Raised(f, st1) => Failed(f, st1)
    case Produced(c, st1) =>
      if c != Boolean(true) then Normal(st1)
      else if fuel == 0 then ExecOutOfFuel
      else
        match ExecBlock(h, body, Enter(st1), fuel - 1)
        case ExecOutOfFuel => ExecOutOfFuel
        case Normal(st2) => ExecWhile(h, cond, body, Exit(st2), fuel - 1)
        case Returned(v, st2) => Returned(v, Exit(st2))
        case Failed(f, st2) => Failed(f, Exit(st2))
  }

  /** `execute_block`: statements in order, stopping at the first that does not complete normally. */
  function ExecBlock(h: Host, ss: seq<Stmt>, st: State, fuel: nat): (r: Exec)
    ensures ExecKeeps(st, r)
    decreases fuel, BlockSize(ss) + 1
  {
    if |ss| == 0 then Normal(st)
    else
      match ExecStmt(h, ss[0], st, fuel)
      case Normal(st1) => ExecBlock(h, ss[1..], st1, fuel)
      case other => other
  }

  // ----- whole programs -----

  datatype RunResult = RunOk(output: seq<string>) | RuntimeError(output: seq<string>) | RunOutOfFuel

  /** `Interpreter::new()` followed by `interpret`: a fresh global scope; the first
      statement that does not complete normally, a top-level `return` included,
      ends the run as a runtime error. */
  function Run(h: Host, program: seq<Stmt>, stdin: seq<string>, fuel: nat): (r: RunResult)
  {
    match ExecBlock(h, program, State(Empty, [], stdin, 0), fuel)
    case Normal(st) => RunOk(st.output)
    case Returned(_, st) => RuntimeError(st.output)
    case Failed(_, st) => RuntimeError(st.output)
    case ExecOutOfFuel => RunOutOfFuel
  }
}
