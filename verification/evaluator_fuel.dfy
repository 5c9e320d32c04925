/** The fuel bound of the evaluator is a modelling device only: an evaluation that
    finishes within some fuel gives the very same outcome with any larger fuel. */
module EvaluatorFuel {
  import opened Base
  import opened Syntax
  import opened Scopes
  import opened Evaluator

  lemma {:induction false} EvalExprFuel(h: Host, e: Expr, st: State, fuel: nat, more: nat)
    requires fuel <= more && !EvalExpr(h, e, st, fuel).EvalOutOfFuel?
    ensures EvalExpr(h, e, st, more) == EvalExpr(h, e, st, fuel)
    decreases fuel, ExprSize(e)
  {
    match e
    case Literal(lit) =>
      match lit {
        case LList(items) => EvalListItemsFuel(h, items, st, fuel, more);
        case LDict(entries) => EvalDictEntriesFuel(h, entries, map[], st, fuel, more);
        case _ =>
      }
    case Variable(_) =>
    case Unary(_, x) => EvalExprFuel(h, x, st, fuel, more);
    case Binary(_, l, r) =>
      EvalExprFuel(h, l, st, fuel, more);
      var a := EvalExpr(h, l, st, fuel);
      if a.Produced? { EvalExprFuel(h, r, a.st, fuel, more); }
    case FunctionCall(callee, args) => EvalCallFuel(h, callee, args, st, fuel, more);
    case IndexAccess(t, i) =>
      EvalExprFuel(h, t, st, fuel, more);
      var a := EvalExpr(h, t, st, fuel);
      if a.Produced? { EvalExprFuel(h, i, a.st, fuel, more); }
    case PropertyAccess(_, _) =>
  }

  lemma {:induction false} EvalListItemsFuel(h: Host, es: seq<Expr>, st: State, fuel: nat, more: nat)
    requires fuel <= more && !EvalListItems(h, es, st, fuel).CollectOutOfFuel?
    ensures EvalListItems(h, es, st, more) == EvalListItems(h, es, st, fuel)
    decreases fuel, ExprsSize(es) + 1
  {
    if |es| > 0 {
      EvalExprFuel(h, es[0], st, fuel, more);
      EvalListItemsFuel(h, es[1..], EvalExpr(h, es[0], st, fuel).st, fuel, more);
    }
  }

  lemma {:induction false} EvalDictEntriesFuel(h: Host, es: seq<Entry>, acc: map<Value, Value>, st: State, fuel: nat, more: nat)
    requires fuel <= more && !EvalDictEntries(h, es, acc, st, fuel).CollectOutOfFuel?
    ensures EvalDictEntries(h, es, acc, st, more) == EvalDictEntries(h, es, acc, st, fuel)
    decreases fuel, EntriesSize(es) + 1
  {
    if |es| > 0 {
      EvalExprFuel(h, es[0].key, st, fuel, more);
      var k := EvalExpr(h, es[0].key, st, fuel);
      EvalExprFuel(h, es[0].val, k.st, fuel, more);
      var v := EvalExpr(h, es[0].val, k.st, fuel);
      var acc' := if k.Produced? && v.Produced? then acc[k.v := v.v] else acc;
      EvalDictEntriesFuel(h, es[1..], acc', v.st, fuel, more);
    }
  }

  lemma {:induction false} EvalArgsFuel(h: Host, es: seq<Expr>, st: State, fuel: nat, more: nat)
    requires fuel <= more && !EvalArgs(h, es, st, fuel).CollectOutOfFuel?
    ensures EvalArgs(h, es, st, more) == EvalArgs(h, es, st, fuel)
    decreases fuel, ExprsSize(es) + 1
  {
    if |es| > 0 {
      EvalExprFuel(h, es[0], st, fuel, more);
      var a := EvalExpr(h, es[0], st, fuel);
      if a.Produced? { EvalArgsFuel(h, es[1..], a.st, fuel, more); }
    }
  }

  lemma {:induction false} EvalCallFuel(h: Host, callee: Expr, args: seq<Expr>, st: State, fuel: nat, more: nat)
    requires fuel <= more && !EvalCall(h, callee, args, st, fuel).EvalOutOfFuel?
    ensures EvalCall(h, callee, args, st, more) == EvalCall(h, callee, args, st, fuel)
    decreases fuel, ExprSize(callee) + ExprsSize(args) + 1
  {
    if callee.PropertyAccess? {
      EvalArgsFuel(h, args, st, fuel, more);
    } else {
      EvalExprFuel(h, callee, st, fuel, more);
      var c := EvalExpr(h, callee, st, fuel);
      if c.Produced? && c.v.Function? && |args| == |c.v.decl.params| {
        InvokeFuel(h, c.v.decl, args, c.st, fuel, more);
      }
    }
  }

  lemma {:induction false} InvokeFuel(h: Host, decl: FuncDecl, args: seq<Expr>, st: State, fuel: nat, more: nat)
    requires |args| == |decl.params|
    requires fuel <= more && !Invoke(h, decl, args, st, fuel).EvalOutOfFuel?
    ensures Invoke(h, decl, args, st, more) == Invoke(h, decl, args, st, fuel)
    decreases fuel, ExprsSize(args) + 1
  {
    BindArgsFuel(h, decl.params, args, Enter(st), fuel, more);
    var b := BindArgs(h, decl.params, args, Enter(st), fuel);
    if b.Collected? {
      assert fuel > 0;
      assert BindArgs(h, decl.params, args, Enter(st), more) == b;
      assert Invoke(h, decl, args, st, fuel) == CallResult(h, ExecBlock(h, decl.body, b.st, fuel - 1));
      InvokeBodyFuel(h, decl, args, st, fuel, more, b);
    }
  }

  /** InvokeFuel once the arguments are bound, the same with either fuel. */
  lemma {:induction false} InvokeBodyFuel(h: Host, decl: FuncDecl, args: seq<Expr>, st: State, fuel: nat, more: nat, b: Collected<()>)
    requires |args| == |decl.params|
    requires 0 < fuel <= more && b.Collected?
    requires BindArgs(h, decl.params, args, Enter(st), fuel) == b
    requires BindArgs(h, decl.params, args, Enter(st), more) == b
    requires !CallResult(h, ExecBlock(h, decl.body, b.st, fuel - 1)).EvalOutOfFuel?
    ensures Invoke(h, decl, args, st, more) == Invoke(h, decl, args, st, fuel)
    decreases fuel, ExprsSize(args) + 1, 0
  {
    ExecBlockFuel(h, decl.body, b.st, fuel - 1, more - 1);
  }

  lemma {:induction false} BindArgsFuel(h: Host, params: seq<Param>, args: seq<Expr>, st: State, fuel: nat, more: nat)
    requires |params| == |args|
    requires fuel <= more && !BindArgs(h, params, args, st, fuel).CollectOutOfFuel?
    ensures BindArgs(h, params, args, st, more) == BindArgs(h, params, args, st, fuel)
    decreases fuel, ExprsSize(args) + 1, 0
  {
    if |args| > 0 {
      EvalExprFuel(h, args[0], st, fuel, more);
      var a := EvalExpr(h, args[0], st, fuel);
      if a.Produced? {
        BindArgsFuel(h, params[1..], args[1..], Bind(a.st, params[0].name, a.v, false, false), fuel, more);
      }
    }
  }

  lemma {:induction false} ExecStmtFuel(h: Host, s: Stmt, st: State, fuel: nat, more: nat)
    requires fuel <= more && !ExecStmt(h, s, st, fuel).ExecOutOfFuel?
    ensures ExecStmt(h, s, st, more) == ExecStmt(h, s, st, fuel)
    decreases fuel, StmtSize(s)
  {
    match s
    case VarDeclaration(_, e) => EvalExprFuel(h, e, st, fuel, more);
    case MutDeclaration(_, e) => EvalExprFuel(h, e, st, fuel, more);
    case ConstDeclaration(_, e) => EvalExprFuel(h, e, st, fuel, more);
    case VarAssignment(_, e) => EvalExprFuel(h, e, st, fuel, more);
    case Print(es) => EvalArgsFuel(h, es, st, fuel, more);
    case Input(_, _) =>
    case Conditional(ifB, elifs, elseBody) =>
      EvalExprFuel(h, ifB.condition, st, fuel, more);
      var c := EvalExpr(h, ifB.condition, st, fuel);
      if c.Produced? {
        if c.v == Boolean(true) {
          ExecBlockFuel(h, ifB.body, c.st, fuel, more);
        } else {
          ExecBranchesFuel(h, elifs, elseBody, c.st, fuel, more);
        }
      }
    case Loop(l) =>
      if l.While? { ExecWhileFuel(h, l.condition, l.body, st, fuel, more); }
    case FuncDeclaration(_) =>
    case Return(e) => EvalExprFuel(h, e, st, fuel, more);
    case FuncCall(e) => EvalExprFuel(h, e, st, fuel, more);
    case Unsupported(_) =>
  }

  lemma {:induction false} ExecBranchesFuel(h: Host, elifs: seq<Branch>, elseBody: seq<Stmt>, st: State, fuel: nat, more: nat)
    requires fuel <= more && !ExecBranches(h, elifs, elseBody, st, fuel).ExecOutOfFuel?
    ensures ExecBranches(h, elifs, elseBody, st, more) == ExecBranches(h, elifs, elseBody, st, fuel)
    decreases fuel, BranchesSize(elifs) + BlockSize(elseBody) + 2
  {
    if |elifs| == 0 {
      ExecBlockFuel(h, elseBody, st, fuel, more);
    } else {
      EvalExprFuel(h, elifs[0].condition, st, fuel, more);
      var c := EvalExpr(h, elifs[0].condition, st, fuel);
      if c.Produced? {
        if c.v == Boolean(true) {
          ExecBlockFuel(h, elifs[0].body, c.st, fuel, more);
        } else {
          ExecBranchesFuel(h, elifs[1..], elseBody, c.st, fuel, more);
        }
      }
    }
  }

  lemma {:induction false} ExecWhileFuel(h: Host, cond: Expr, body: seq<Stmt>, st: State, fuel: nat, more: nat)
    requires fuel <= more && !ExecWhile(h, cond, body, st, fuel).ExecOutOfFuel?
    ensures ExecWhile(h, cond, body, st, more) == ExecWhile(h, cond, body, st, fuel)
    decreases fuel, ExprSize(cond) + BlockSize(body) + 1
  {
    EvalExprFuel(h, cond, st, fuel, more);
    var c := EvalExpr(h, cond, st, fuel);
    if c.Produced? && c.v == Boolean(true) {
      assert fuel > 0;
      ExecBlockFuel(h, body, Enter(c.st), fuel - 1, more - 1);
      var b := ExecBlock(h, body, Enter(c.st), fuel - 1);
      assert ExecBlock(h, body, Enter(c.st), more - 1) == b;
      if b.Normal? {
        assert ExecWhile(h, cond, body, st, fuel) == ExecWhile(h, cond, body, Exit(b.st), fuel - 1);
        WhileIterationFuel(h, cond, body, st, fuel, more, c.st, b.st);
      }
    }
  }

  /** The recursive step of ExecWhileFuel: after a normal iteration, the rest of the
      loop runs the same with more fuel. */
  lemma {:induction false} WhileIterationFuel(h: Host, cond: Expr, body: seq<Stmt>, st: State, fuel: nat, more: nat,
                                              entry: State, after: State)
    requires 0 < fuel <= more
    requires EvalExpr(h, cond, st, fuel) == Produced(Boolean(true), entry)
    requires EvalExpr(h, cond, st, more) == Produced(Boolean(true), entry)
    requires ExecBlock(h, body, Enter(entry), fuel - 1) == Normal(after)
    requires ExecBlock(h, body, Enter(entry), more - 1) == Normal(after)
    requires !ExecWhile(h, cond, body, Exit(after), fuel - 1).ExecOutOfFuel?
    ensures ExecWhile(h, cond, body, st, more) == ExecWhile(h, cond, body, st, fuel)
    decreases fuel, ExprSize(cond) + BlockSize(body) + 1, 0
  {
    assert ExecWhile(h, cond, body, st, fuel) == ExecWhile(h, cond, body, Exit(after), fuel - 1);
    assert ExecWhile(h, cond, body, st, more) == ExecWhile(h, cond, body, Exit(after), more - 1);
    ExecWhileFuel(h, cond, body, Exit(after), fuel - 1, more - 1);
  }

  lemma {:induction false} ExecBlockFuel(h: Host, ss: seq<Stmt>, st: State, fuel: nat, more: nat)
    requires fuel <= more && !ExecBlock(h, ss, st, fuel).ExecOutOfFuel?
    ensures ExecBlock(h, ss, st, more) == ExecBlock(h, ss, st, fuel)
    decreases fuel, BlockSize(ss) + 1
  {
    if |ss| > 0 {
      ExecStmtFuel(h, ss[0], st, fuel, more);
      var a := ExecStmt(h, ss[0], st, fuel);
      if a.Normal? { ExecBlockFuel(h, ss[1..], a.st, fuel, more); }
    }
  }

  /** A whole run: a result reached with some fuel is the result with any more fuel. */
  lemma RunFuel(h: Host, program: seq<Stmt>, stdin: seq<string>, fuel: nat, more: nat)
    requires fuel <= more && !Run(h, program, stdin, fuel).RunOutOfFuel?
    ensures Run(h, program, stdin, more) == Run(h, program, stdin, fuel)
  {
    ExecBlockFuel(h, program, State(Empty, [], stdin, 0), fuel, more);
  }
}
