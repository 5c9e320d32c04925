/** What the evaluator promises about bindings, calls and scopes, stated over the
    model of `interpreter.rs`. */
module EvaluatorFacts {
  import opened Base
  import opened Text
  import opened Syntax
  import opened Scopes
  import opened Operators
  import opened Evaluator
  import SnaskTypes

  predicate ScalarLiteral(lit: Literal)
  {
    lit.LNumber? || lit.LString? || lit.LBoolean?
  }

  /** The value a scalar literal evaluates to, in any state. */
  function ScalarValue(lit: Literal): Value
    requires ScalarLiteral(lit)
  {
    match lit
    case LNumber(n) => Number(n)
    case LString(s) => String(s)
    case LBoolean(b) => Boolean(b)
  }

  /** `let`, `mut` and `const` bind the evaluated value in the innermost scope with
      the flags (false, true), (true, true) and (false, false), and leave every other
      name as the evaluation of the value left it. */
  lemma DeclarationsBind(h: Host, name: string, e: Expr, st: State, fuel: nat, other: string)
    requires EvalExpr(h, e, st, fuel).Produced?
    ensures var p := EvalExpr(h, e, st, fuel);
      var r := ExecStmt(h, VarDeclaration(name, e), st, fuel);
      && r.Normal? && Lookup(r.st.scopes, name) == Some(Symbol(p.v, false, true))
      && (other != name ==> Lookup(r.st.scopes, other) == Lookup(p.st.scopes, other))
    ensures var p := EvalExpr(h, e, st, fuel);
      var r := ExecStmt(h, MutDeclaration(name, e), st, fuel);
      && r.Normal? && Lookup(r.st.scopes, name) == Some(Symbol(p.v, true, true))
      && (other != name ==> Lookup(r.st.scopes, other) == Lookup(p.st.scopes, other))
    ensures var p := EvalExpr(h, e, st, fuel);
      var r := ExecStmt(h, ConstDeclaration(name, e), st, fuel);
      && r.Normal? && Lookup(r.st.scopes, name) == Some(Symbol(p.v, false, false))
      && (other != name ==> Lookup(r.st.scopes, other) == Lookup(p.st.scopes, other))
  {
    var p := EvalExpr(h, e, st, fuel);
    DefineThenLookup(p.st.scopes, name, p.v, false, true, other);
    DefineThenLookup(p.st.scopes, name, p.v, true, true, other);
    DefineThenLookup(p.st.scopes, name, p.v, false, false, other);
  }

  /** Only a `mut` binding can be assigned: assigning right after `let` or `const`
      fails with the constant-reassignment error, after `mut` it replaces the value. */
  lemma OnlyMutIsReassignable(h: Host, name: string, e: Expr, lit: Literal, st: State, fuel: nat)
    requires ScalarLiteral(lit)
    requires EvalExpr(h, e, st, fuel).Produced?
    ensures var r := ExecBlock(h, [VarDeclaration(name, e), VarAssignment(name, Literal(lit))], st, fuel);
      r.Failed? && r.fault == ConstantReassignment(name)
    ensures var r := ExecBlock(h, [ConstDeclaration(name, e), VarAssignment(name, Literal(lit))], st, fuel);
      r.Failed? && r.fault == ConstantReassignment(name)
    ensures var r := ExecBlock(h, [MutDeclaration(name, e), VarAssignment(name, Literal(lit))], st, fuel);
      r.Normal? && Lookup(r.st.scopes, name) == Some(Symbol(ScalarValue(lit), true, true))
  {
    DeclareThenAssign(h, VarDeclaration(name, e), name, e, lit, st, fuel, false, true);
    DeclareThenAssign(h, ConstDeclaration(name, e), name, e, lit, st, fuel, false, false);
    DeclareThenAssign(h, MutDeclaration(name, e), name, e, lit, st, fuel, true, true);
  }

  /** One declaration form followed by an assignment to the declared name. */
  lemma DeclareThenAssign(h: Host, d: Stmt, name: string, e: Expr, lit: Literal, st: State, fuel: nat, re: bool, flag: bool)
    requires ScalarLiteral(lit)
    requires || (d == VarDeclaration(name, e) && !re && flag)
             || (d == MutDeclaration(name, e) && re && flag)
             || (d == ConstDeclaration(name, e) && !re && !flag)
    requires EvalExpr(h, e, st, fuel).Produced?
    ensures var r := ExecBlock(h, [d, VarAssignment(name, Literal(lit))], st, fuel);
      && (re ==> r.Normal? && Lookup(r.st.scopes, name) == Some(Symbol(ScalarValue(lit), true, true)))
      && (!re ==> r.Failed? && r.fault == ConstantReassignment(name))
  {
    var p := EvalExpr(h, e, st, fuel);
    var v := ScalarValue(lit);
    var assign := VarAssignment(name, Literal(lit));
    var b := Bind(p.st, name, p.v, re, flag);
    assert ExecStmt(h, d, st, fuel) == Normal(b);
    DefineThenLookup(p.st.scopes, name, p.v, re, flag, name);
    assert ExecBlock(h, [d, assign], st, fuel) == ExecBlock(h, [assign], b, fuel) by {
      assert [d, assign][1..] == [assign];
    }
    AssignSpec(b.scopes, name, v, name);
    assert EvalExpr(h, Literal(lit), b, fuel) == Produced(v, b);
    if re {
      var after := b.(scopes := Assign(b.scopes, name, v).value);
      assert ExecStmt(h, assign, b, fuel) == Normal(after);
      assert ExecBlock(h, [assign], b, fuel) == ExecBlock(h, [], after, fuel);
    } else {
      assert ExecStmt(h, assign, b, fuel) == Failed(ConstantReassignment(name), b);
    }
  }

  /** A one-element argument list evaluates as its element does. */
  lemma SingleArg(h: Host, e: Expr, st: State, fuel: nat)
    ensures var a := EvalExpr(h, e, st, fuel);
      && (a.Produced? ==> EvalArgs(h, [e], st, fuel) == Collected([a.v], a.st))
      && (a.Raised? ==> EvalArgs(h, [e], st, fuel) == CollectRaised(a.fault, a.st))
  {
    var args := [e];
    assert args[0] == e && args[1..] == [];
    var a := EvalExpr(h, e, st, fuel);
    if a.Produced? {
      assert EvalArgs(h, args[1..], a.st, fuel) == Collected([], a.st);
      assert [a.v] + [] == [a.v];
    }
  }

  /** `name.push(lit)` on a list binding appends the value in place and keeps the
      binding's flags, whatever they are. */
  lemma PushStep(h: Host, name: string, lit: Literal, st: State, fuel: nat)
    requires ScalarLiteral(lit)
    requires Lookup(st.scopes, name).Some? && Lookup(st.scopes, name).value.value.List?
    ensures var sym := Lookup(st.scopes, name).value;
      var r := ExecStmt(h, FuncCall(FunctionCall(PropertyAccess(Variable(name), "push"), [Literal(lit)])), st, fuel);
      && r.Normal?
      && Lookup(r.st.scopes, name) == Some(sym.(value := List(sym.value.items + [ScalarValue(lit)])))
  {
    var sym := Lookup(st.scopes, name).value;
    var v := ScalarValue(lit);
    assert EvalExpr(h, Literal(lit), st, fuel) == Produced(v, st);
    SingleArg(h, Literal(lit), st, fuel);
    var sym' := sym.(value := List(sym.value.items + [v]));
    var after := st.(scopes := Update(st.scopes, name, sym'));
    var callee := PropertyAccess(Variable(name), "push");
    assert CallMethod(Variable(name), "push", [v], st) == Produced(Nil, after);
    assert EvalCall(h, callee, [Literal(lit)], st, fuel) == Produced(Nil, after);
    assert ExecStmt(h, FuncCall(FunctionCall(callee, [Literal(lit)])), st, fuel) == Normal(after);
    UpdateThenLookup(st.scopes, name, sym', name);
  }

  /** `push` appends to a list bound by `const`: the binding's flags do not protect
      its contents. */
  lemma PushIgnoresConstness(h: Host, name: string, e: Expr, items: seq<Value>, lit: Literal, st: State, fuel: nat)
    requires ScalarLiteral(lit)
    requires EvalExpr(h, e, st, fuel).Produced? && EvalExpr(h, e, st, fuel).v == List(items)
    ensures var r := ExecBlock(h, [ConstDeclaration(name, e),
                                   FuncCall(FunctionCall(PropertyAccess(Variable(name), "push"), [Literal(lit)]))], st, fuel);
      r.Normal? && Lookup(r.st.scopes, name) == Some(Symbol(List(items + [ScalarValue(lit)]), false, false))
  {
    var p := EvalExpr(h, e, st, fuel);
    var push := FuncCall(FunctionCall(PropertyAccess(Variable(name), "push"), [Literal(lit)]));
    DeclarationsBind(h, name, e, st, fuel, name);
    var c := Bind(p.st, name, p.v, false, false);
    var block := [ConstDeclaration(name, e), push];
    assert block[0] == ConstDeclaration(name, e) && block[1..] == [push] && [push][1..] == [];
    assert ExecStmt(h, ConstDeclaration(name, e), st, fuel) == Normal(c);
    assert ExecBlock(h, block, st, fuel) == ExecBlock(h, [push], c, fuel);
    PushStep(h, name, lit, c, fuel);
    var r := ExecStmt(h, push, c, fuel);
    assert ExecBlock(h, [push], c, fuel) == ExecBlock(h, [], r.st, fuel);
  }

  /** The function `fun id(x) { return x }` hands back its argument only through text:
      the call yields the rendering of the argument decoded again, and leaves the
      scope stack exactly as it found it. */
  lemma IdentityCall(h: Host, f: string, fname: string, x: string, t: SnaskTypes.Type, lit: Literal, st: State, fuel: nat)
    requires ScalarLiteral(lit)
    requires Lookup(st.scopes, f).Some?
    requires Lookup(st.scopes, f).value.value == Function(FuncDecl(fname, [Param(x, t)], [Return(Variable(x))]))
    requires fuel >= 1
    ensures EvalExpr(h, FunctionCall(Variable(f), [Literal(lit)]), st, fuel)
            == Produced(DecodeReturn(h.parseFloat, Render(h.fmt, ScalarValue(lit))), st)
  {
    var decl := FuncDecl(fname, [Param(x, t)], [Return(Variable(x))]);
    var v := ScalarValue(lit);
    assert EvalExpr(h, Variable(f), st, fuel) == Produced(Function(decl), st);
    var st1 := Enter(st);
    var st2 := Bind(st1, x, v, false, false);
    assert BindArgs(h, decl.params, [Literal(lit)], st1, fuel) == Collected((), st2) by {
      assert decl.params[1..] == [] && [Literal(lit)][1..] == [];
    }
    ReturnParameter(h, x, v, st1, fuel - 1);
    assert Invoke(h, decl, [Literal(lit)], st, fuel) == Produced(DecodeReturn(h.parseFloat, Render(h.fmt, v)), Exit(st2));
    assert Exit(st2).scopes == st.scopes;
  }

  /** A body that returns its freshly bound parameter returns the bound value. */
  lemma ReturnParameter(h: Host, x: string, v: Value, st1: State, fuel: nat)
    ensures var st2 := Bind(st1, x, v, false, false);
      ExecBlock(h, [Return(Variable(x))], st2, fuel) == Returned(v, st2)
  {
    var st2 := Bind(st1, x, v, false, false);
    DefineThenLookup(st1.scopes, x, v, false, false, x);
    assert ExecStmt(h, Return(Variable(x)), st2, fuel) == Returned(v, st2);
  }

  /** Two consequences of the textual return: a number comes back intact exactly when
      the host reads its own rendering back, and a string argument that reads as a
      number comes back as that number. */
  lemma IdentityCallCoerces(h: Host, f: string, fname: string, x: string, t: SnaskTypes.Type, st: State, fuel: nat, n: real, s: string)
    requires Lookup(st.scopes, f).Some?
    requires Lookup(st.scopes, f).value.value == Function(FuncDecl(fname, [Param(x, t)], [Return(Variable(x))]))
    requires fuel >= 1
    requires h.parseFloat(h.fmt.number(n)) == Some(n)
    requires h.parseFloat(s).Some?
    ensures EvalExpr(h, FunctionCall(Variable(f), [Literal(LNumber(n))]), st, fuel) == Produced(Number(n), st)
    ensures EvalExpr(h, FunctionCall(Variable(f), [Literal(LString(s))]), st, fuel) == Produced(Number(h.parseFloat(s).value), st)
  {
    IdentityCall(h, f, fname, x, t, LNumber(n), st, fuel);
    IdentityCall(h, f, fname, x, t, LString(s), st, fuel);
  }

  /** A call with the wrong number of arguments fails before any scope is entered. */
  lemma ArityCheckedFirst(h: Host, callee: Expr, args: seq<Expr>, st: State, fuel: nat)
    requires !callee.PropertyAccess?
    requires EvalExpr(h, callee, st, fuel).Produced? && EvalExpr(h, callee, st, fuel).v.Function?
    requires |args| != |EvalExpr(h, callee, st, fuel).v.decl.params|
    ensures var c := EvalExpr(h, callee, st, fuel);
      EvalExpr(h, FunctionCall(callee, args), st, fuel)
      == Raised(WrongArgumentCount(c.v.decl.name, |c.v.decl.params|, |args|), c.st)
  {
  }

  /** The first `elif` whose condition is the literal `true` decides a conditional
      whose conditions are all boolean literals; with none, the `else` block runs. */
  function FirstTrue(bs: seq<Branch>, elseBody: seq<Stmt>): seq<Stmt>
  {
    if |bs| == 0 then elseBody
    else if bs[0].condition == Literal(LBoolean(true)) then bs[0].body
    else FirstTrue(bs[1..], elseBody)
  }

  predicate BooleanConditions(bs: seq<Branch>)
  {
    forall i :: 0 <= i < |bs| ==> bs[i].condition.Literal? && bs[i].condition.lit.LBoolean?
  }

  lemma {:induction false} BranchesPickFirstTrue(h: Host, bs: seq<Branch>, elseBody: seq<Stmt>, st: State, fuel: nat)
    requires BooleanConditions(bs)
    ensures ExecBranches(h, bs, elseBody, st, fuel) == ExecBlock(h, FirstTrue(bs, elseBody), st, fuel)
    decreases |bs|
  {
    if |bs| > 0 {
      assert bs[0].condition.Literal?;
      if bs[0].condition != Literal(LBoolean(true)) {
        assert EvalExpr(h, bs[0].condition, st, fuel) == Produced(Boolean(false), st);
        BranchesPickFirstTrue(h, bs[1..], elseBody, st, fuel);
      }
    }
  }

  /** `if`/`elif`/`else` with boolean-literal conditions runs exactly the first arm
      whose condition is true, or else the `else` block, with no scope of its own. */
  lemma ConditionalPicksFirstTrue(h: Host, ifB: Branch, elifs: seq<Branch>, elseBody: seq<Stmt>, st: State, fuel: nat)
    requires BooleanConditions([ifB] + elifs)
    ensures ExecStmt(h, Conditional(ifB, elifs, elseBody), st, fuel)
            == ExecBlock(h, FirstTrue([ifB] + elifs, elseBody), st, fuel)
  {
    assert ([ifB] + elifs)[0] == ifB && ([ifB] + elifs)[1..] == elifs;
    assert BooleanConditions(elifs) by {
      forall i | 0 <= i < |elifs| ensures elifs[i].condition.Literal? && elifs[i].condition.lit.LBoolean? {
        assert elifs[i] == ([ifB] + elifs)[i + 1];
      }
    }
    assert ifB.condition.Literal?;
    if ifB.condition != Literal(LBoolean(true)) {
      assert EvalExpr(h, ifB.condition, st, fuel) == Produced(Boolean(false), st);
      BranchesPickFirstTrue(h, elifs, elseBody, st, fuel);
    }
  }

  /** The state the conditions of bs leave when, evaluated in order, each produces a
      value other than `true`; none once one is `true`, fails or runs out of fuel. */
  function FallsThrough(h: Host, bs: seq<Branch>, st: State, fuel: nat): Option<State>
    decreases |bs|
  {
    if |bs| == 0 then Some(st)
    else
      var c := EvalExpr(h, bs[0].condition, st, fuel);
      if c.Produced? && c.v != Boolean(true) then FallsThrough(h, bs[1..], c.st, fuel) else None
  }

  /** A conditional is its arms tried in order, the `if` arm first, then the `elif`s. */
  lemma ConditionalIsBranches(h: Host, ifB: Branch, elifs: seq<Branch>, elseBody: seq<Stmt>, st: State, fuel: nat)
    ensures ExecStmt(h, Conditional(ifB, elifs, elseBody), st, fuel) == ExecBranches(h, [ifB] + elifs, elseBody, st, fuel)
  {
    assert ([ifB] + elifs)[0] == ifB && ([ifB] + elifs)[1..] == elifs;
  }

  /** Arms whose conditions fall through are passed over, the effects of evaluating
      their conditions kept. */
  lemma {:induction false} BranchesSkip(h: Host, bs: seq<Branch>, elseBody: seq<Stmt>, st: State, fuel: nat, i: nat)
    requires i <= |bs| && FallsThrough(h, bs[..i], st, fuel).Some?
    ensures ExecBranches(h, bs, elseBody, st, fuel)
            == ExecBranches(h, bs[i..], elseBody, FallsThrough(h, bs[..i], st, fuel).value, fuel)
    decreases i
  {
    if i == 0 {
      assert bs[..0] == [] && bs[0..] == bs;
    } else {
      var s1 := FallsThroughFirst(h, bs, st, fuel, i);
      assert bs[1..][i - 1..] == bs[i..];
      BranchesSkip(h, bs[1..], elseBody, s1, fuel, i - 1);
    }
  }

  /** The first arm of a prefix that falls through passes its condition's state on
      to the rest, both for the prefix and for the whole conditional. */
  lemma FallsThroughFirst(h: Host, bs: seq<Branch>, st: State, fuel: nat, i: nat) returns (s1: State)
    requires 0 < i <= |bs| && FallsThrough(h, bs[..i], st, fuel).Some?
    ensures FallsThrough(h, bs[1..][..i - 1], s1, fuel) == FallsThrough(h, bs[..i], st, fuel)
    ensures forall elseBody: seq<Stmt> {:trigger ExecBranches(h, bs, elseBody, st, fuel)} ::
      ExecBranches(h, bs, elseBody, st, fuel) == ExecBranches(h, bs[1..], elseBody, s1, fuel)
  {
    var pre := bs[..i];
    assert pre[0] == bs[0] && pre[1..] == bs[1..][..i - 1];
    var c := EvalExpr(h, bs[0].condition, st, fuel);
    assert c.Produced? && c.v != Boolean(true);
    s1 := c.st;
  }

  /** Once the conditions before it fall through, arm i decides: its body runs exactly
      when its condition evaluates to `true`, any other value passes on to the next
      arm, and a failing condition is the conditional's failure. */
  lemma ArmDecides(h: Host, bs: seq<Branch>, elseBody: seq<Stmt>, st: State, fuel: nat, i: nat)
    requires i < |bs| && FallsThrough(h, bs[..i], st, fuel).Some?
    ensures var s := FallsThrough(h, bs[..i], st, fuel).value;
      var c := EvalExpr(h, bs[i].condition, s, fuel);
      var r := ExecBranches(h, bs, elseBody, st, fuel);
      && (c.Produced? && c.v == Boolean(true) ==> r == ExecBlock(h, bs[i].body, c.st, fuel))
      && (c.Produced? && c.v != Boolean(true) ==> r == ExecBranches(h, bs[i + 1..], elseBody, c.st, fuel))
      && (c.Raised? ==> r == Failed(c.fault, c.st))
  {
    BranchesSkip(h, bs, elseBody, st, fuel, i);
    assert bs[i..][0] == bs[i] && bs[i..][1..] == bs[i + 1..];
  }

  /** When every condition falls through, the `else` block runs in the state they leave. */
  lemma ElseRuns(h: Host, bs: seq<Branch>, elseBody: seq<Stmt>, st: State, fuel: nat)
    requires FallsThrough(h, bs, st, fuel).Some?
    ensures ExecBranches(h, bs, elseBody, st, fuel) == ExecBlock(h, elseBody, FallsThrough(h, bs, st, fuel).value, fuel)
  {
    assert bs[..|bs|] == bs && bs[|bs|..] == [];
    BranchesSkip(h, bs, elseBody, st, fuel, |bs|);
  }

  /** A loop whose condition is not `true` on entry runs no iteration and enters no
      scope; a `while` over a non-boolean runs no iteration either. */
  lemma WhileFalseSkips(h: Host, cond: Expr, body: seq<Stmt>, st: State, fuel: nat)
    requires EvalExpr(h, cond, st, fuel).Produced? && EvalExpr(h, cond, st, fuel).v != Boolean(true)
    ensures ExecStmt(h, Loop(While(cond, body)), st, fuel) == Normal(EvalExpr(h, cond, st, fuel).st)
  {
  }

  /** Evaluating e never leaves the scope stack deeper or shallower than it found it. */
  ghost predicate BalancedExpr(h: Host, e: Expr)
  {
    forall s: State, f: nat :: EvalExpr(h, e, s, f).EvalOutOfFuel? || Depth(EvalExpr(h, e, s, f).st.scopes) == Depth(s.scopes)
  }

  /** Executing b never leaves the scope stack deeper or shallower than it found it. */
  ghost predicate BalancedBlock(h: Host, b: seq<Stmt>)
  {
    forall s: State, f: nat :: ExecBlock(h, b, s, f).ExecOutOfFuel? || Depth(ExecBlock(h, b, s, f).st.scopes) == Depth(s.scopes)
  }

  /** Each iteration's scope is left again, also when the body fails or returns, so a
      loop whose condition and body are balanced ends at the depth it started at. */
  lemma {:induction false} WhileRestoresDepth(h: Host, cond: Expr, body: seq<Stmt>, st: State, fuel: nat)
    requires BalancedExpr(h, cond) && BalancedBlock(h, body)
    ensures var r := ExecWhile(h, cond, body, st, fuel);
      r.ExecOutOfFuel? || Depth(r.st.scopes) == Depth(st.scopes)
    decreases fuel
  {
    var c := EvalExpr(h, cond, st, fuel);
    if c.Produced? && c.v == Boolean(true) && fuel > 0 {
      var b := ExecBlock(h, body, Enter(c.st), fuel - 1);
      if b.Normal? {
        WhileRestoresDepth(h, cond, body, Exit(b.st), fuel - 1);
      }
    }
  }

  /** The outcome of calling a function once its arguments are bound: a body that
      completes yields `nil`, a `return` yields its value read back from text, any
      other failure propagates unchanged; in each case the call's scope is left. */
  lemma CallOutcomes(h: Host, callee: Expr, args: seq<Expr>, st: State, fuel: nat)
    requires !callee.PropertyAccess? && fuel >= 1
    requires EvalExpr(h, callee, st, fuel).Produced? && EvalExpr(h, callee, st, fuel).v.Function?
    requires |args| == |EvalExpr(h, callee, st, fuel).v.decl.params|
    requires BindArgs(h, EvalExpr(h, callee, st, fuel).v.decl.params, args, Enter(EvalExpr(h, callee, st, fuel).st), fuel).Collected?
    ensures var c := EvalExpr(h, callee, st, fuel);
      var bound := BindArgs(h, c.v.decl.params, args, Enter(c.st), fuel).st;
      var body := ExecBlock(h, c.v.decl.body, bound, fuel - 1);
      var r := EvalExpr(h, FunctionCall(callee, args), st, fuel);
      && (body.Normal? ==> r == Produced(Nil, Exit(body.st)))
      && (body.Returned? ==> r == Produced(DecodeReturn(h.parseFloat, Render(h.fmt, body.v)), Exit(body.st)))
      && (body.Failed? ==> r == Raised(body.fault, Exit(body.st)))
  {
    var c := EvalExpr(h, callee, st, fuel);
    assert EvalExpr(h, FunctionCall(callee, args), st, fuel) == Invoke(h, c.v.decl, args, c.st, fuel);
  }

  /** A top-level `return` ends the run as a runtime error, keeping what was printed. */
  lemma TopLevelReturnFails(h: Host, e: Expr, rest: seq<Stmt>, stdin: seq<string>, fuel: nat)
    requires EvalExpr(h, e, State(Empty, [], stdin, 0), fuel).Produced?
    ensures Run(h, [Return(e)] + rest, stdin, fuel)
            == RuntimeError(EvalExpr(h, e, State(Empty, [], stdin, 0), fuel).st.output)
  {
    var p := EvalExpr(h, e, State(Empty, [], stdin, 0), fuel);
    assert ([Return(e)] + rest)[0] == Return(e);
    assert ExecStmt(h, Return(e), State(Empty, [], stdin, 0), fuel) == Returned(p.v, p.st);
  }

  /** `mut go = true; while go { let y = 1; go = false }; print go` */
  const LoopBody: seq<Stmt> := [VarDeclaration("y", Literal(LNumber(1.0))), VarAssignment("go", Literal(LBoolean(false)))]
  const LoopProgram: seq<Stmt> := [
    MutDeclaration("go", Literal(LBoolean(true))),
    Loop(While(Variable("go"), LoopBody)),
    Print([Variable("go")])]

  /** One pass of LoopBody inside the loop's scope: `y` is bound in that scope only,
      the assignment reaches the outer `go`, and leaving the scope keeps it. */
  lemma {:induction false} LoopBodyPass(h: Host, s1: State, fuel: nat)
    requires Lookup(s1.scopes, "go") == Some(Symbol(Boolean(true), true, true))
    ensures var r := ExecBlock(h, LoopBody, Enter(s1), fuel);
      && r.Normal?
      && Exit(r.st) == s1.(scopes := Update(s1.scopes, "go", Symbol(Boolean(false), true, true)))
  {
    var e1 := Enter(s1);
    var inner := map["y" := Symbol(Number(1.0), false, true)];
    var e2 := Bind(e1, "y", Number(1.0), false, true);
    LoopBodyDeclares(h, s1, fuel);
    AssignThroughInnerScope(s1.scopes, inner, "go", Boolean(false));
    var e3 := e2.(scopes := Assign(e2.scopes, "go", Boolean(false)).value);
    assert ExecStmt(h, LoopBody[1], e2, fuel) == Normal(e3);
    assert LoopBody[1..] == [LoopBody[1]] && LoopBody[1..][1..] == [];
    assert ExecBlock(h, LoopBody[1..], e2, fuel) == Normal(e3);
  }

  /** The first statement of LoopBody binds `y` in the loop's fresh scope. */
  lemma LoopBodyDeclares(h: Host, s1: State, fuel: nat)
    ensures var e2 := Bind(Enter(s1), "y", Number(1.0), false, true);
      && ExecStmt(h, LoopBody[0], Enter(s1), fuel) == Normal(e2)
      && e2.scopes == s1.scopes + [map["y" := Symbol(Number(1.0), false, true)]]
  {
    var e1 := Enter(s1);
    assert EvalExpr(h, Literal(LNumber(1.0)), e1, fuel) == Produced(Number(1.0), e1);
  }

  /** With `go` true, the loop of LoopProgram runs its body once and stops. */
  lemma LoopRunsOnce(h: Host, s1: State, fuel: nat)
    requires fuel >= 1
    requires Lookup(s1.scopes, "go") == Some(Symbol(Boolean(true), true, true))
    ensures ExecStmt(h, LoopProgram[1], s1, fuel)
      == Normal(s1.(scopes := Update(s1.scopes, "go", Symbol(Boolean(false), true, true))))
  {
    LoopBodyPass(h, s1, fuel - 1);
    var sym := Symbol(Boolean(false), true, true);
    var s2 := s1.(scopes := Update(s1.scopes, "go", sym));
    UpdateThenLookup(s1.scopes, "go", sym, "y");
    assert EvalExpr(h, Variable("go"), s1, fuel) == Produced(Boolean(true), s1);
    LoopStops(h, s2, fuel - 1);
  }

  /** With `go` false, the loop of LoopProgram stops without running its body. */
  lemma LoopStops(h: Host, s2: State, fuel: nat)
    requires Lookup(s2.scopes, "go") == Some(Symbol(Boolean(false), true, true))
    ensures ExecWhile(h, Variable("go"), LoopBody, s2, fuel) == Normal(s2)
  {
    assert EvalExpr(h, Variable("go"), s2, fuel) == Produced(Boolean(false), s2);
  }

  /** A binding made in a `while` body is gone after the loop, while an assignment
      to an outer `mut` made in the body persists: the program prints `false`, and
      printing `y` after the loop is an error. */
  lemma {:induction false} LoopScopeExample(h: Host, stdin: seq<string>, fuel: nat)
    requires fuel >= 1
    ensures Run(h, LoopProgram, stdin, fuel) == RunOk(["false"])
    ensures Run(h, LoopProgram + [Print([Variable("y")])], stdin, fuel) == RuntimeError(["false"])
  {
    var st0 := State(Empty, [], stdin, 0);
    var s1 := Bind(st0, "go", Boolean(true), true, true);
    assert ExecStmt(h, LoopProgram[0], st0, fuel) == Normal(s1);
    DefineThenLookup(st0.scopes, "go", Boolean(true), true, true, "y");
    assert Lookup(Empty, "y") == None;
    var sym := Symbol(Boolean(false), true, true);
    var s2 := s1.(scopes := Update(s1.scopes, "go", sym));
    LoopRunsOnce(h, s1, fuel);
    UpdateThenLookup(s1.scopes, "go", sym, "y");
    var s3 := s2.(output := ["false"]);
    PrintGoFalse(h, s2, fuel);
    var tail := LoopProgram[1..];
    assert tail[0] == LoopProgram[1] && tail[1..] == [LoopProgram[2]] && [LoopProgram[2]][1..] == [];
    assert ExecBlock(h, tail[1..], s2, fuel) == Normal(s3);
    assert ExecBlock(h, tail, s1, fuel) == Normal(s3);
    assert ExecBlock(h, LoopProgram, st0, fuel) == Normal(s3);

    var printY := Print([Variable("y")]);
    var longer := LoopProgram + [printY];
    assert longer[0] == LoopProgram[0] && longer[1..][0] == LoopProgram[1];
    assert longer[1..][1..] == [LoopProgram[2], printY] && [LoopProgram[2], printY][1..] == [printY];
    assert Lookup(s3.scopes, "y") == None;
    PrintUnboundFails(h, "y", s3, fuel);
    assert ExecBlock(h, [LoopProgram[2], printY], s2, fuel) == Failed(UndefinedVariable("y"), s3);
    assert ExecBlock(h, longer[1..], s1, fuel) == Failed(UndefinedVariable("y"), s3);
    assert ExecBlock(h, longer, st0, fuel) == Failed(UndefinedVariable("y"), s3);
  }
  /** The last statement of LoopProgram prints `false` once `go` is false. */
  lemma PrintGoFalse(h: Host, s2: State, fuel: nat)
    requires Lookup(s2.scopes, "go") == Some(Symbol(Boolean(false), true, true))
    requires s2.output == []
    ensures ExecStmt(h, LoopProgram[2], s2, fuel) == Normal(s2.(output := ["false"]))
  {
    assert EvalExpr(h, Variable("go"), s2, fuel) == Produced(Boolean(false), s2);
    SingleArg(h, Variable("go"), s2, fuel);
  }

  /** Printing a name that no scope binds fails with that name. */
  lemma PrintUnboundFails(h: Host, name: string, st: State, fuel: nat)
    requires Lookup(st.scopes, name) == None
    ensures ExecStmt(h, Print([Variable(name)]), st, fuel) == Failed(UndefinedVariable(name), st)
  {
    assert EvalExpr(h, Variable(name), st, fuel) == Raised(UndefinedVariable(name), st);
    SingleArg(h, Variable(name), st, fuel);
  }


  /** `fun f(a) {}; let z = [f(missing)]` */
  const LeakingCallee: FuncDecl := FuncDecl("f", [Param("a", SnaskTypes.Any)], [])
  const LeakProgram: seq<Stmt> := [
    FuncDeclaration(LeakingCallee),
    VarDeclaration("z", Literal(LList([FunctionCall(Variable("f"), [Variable("missing")])])))]

  /** A call whose argument fails has already entered its scope and does not leave
      it; the list literal turns the failure into `nil`, so the run goes on one scope
      deeper than it started, and `z` is bound in that leaked scope. */
  lemma {:induction false} ScopeLeakExample(h: Host, stdin: seq<string>, fuel: nat)
    ensures var r := ExecBlock(h, LeakProgram, State(Empty, [], stdin, 0), fuel);
      && r.Normal?
      && Depth(r.st.scopes) == 2
      && Lookup(r.st.scopes, "z") == Some(Symbol(List([Nil]), false, true))
  {
    var st0 := State(Empty, [], stdin, 0);
    var s1 := Bind(st0, "f", Function(LeakingCallee), false, false);
    assert ExecStmt(h, LeakProgram[0], st0, fuel) == Normal(s1);
    DefineThenLookup(st0.scopes, "f", Function(LeakingCallee), false, false, "missing");
    assert Lookup(Empty, "missing") == None;
    var e1 := Enter(s1);
    var call := FunctionCall(Variable("f"), [Variable("missing")]);
    LeakingCallRaises(h, s1, fuel);
    var items := [call];
    assert items[0] == call && items[1..] == [];
    assert EvalListItems(h, items[1..], e1, fuel) == Collected([], e1);
    assert [Nil] + [] == [Nil];
    assert EvalExpr(h, items[0], s1, fuel) == Raised(UndefinedVariable("missing"), e1);
    assert EvalListItems(h, items, s1, fuel) == Collected([Nil], e1);
    var s2 := Bind(e1, "z", List([Nil]), false, true);
    assert ExecStmt(h, LeakProgram[1], s1, fuel) == Normal(s2);
    DefineThenLookup(e1.scopes, "z", List([Nil]), false, true, "z");
    assert LeakProgram[1..] == [LeakProgram[1]] && LeakProgram[1..][1..] == [];
    assert ExecBlock(h, LeakProgram[1..], s1, fuel) == Normal(s2);
  }

  /** The call `f(missing)` fails on its argument after entering the call's scope. */
  lemma {:induction false} LeakingCallRaises(h: Host, s1: State, fuel: nat)
    requires Lookup(s1.scopes, "f") == Some(Symbol(Function(LeakingCallee), false, false))
    requires Lookup(s1.scopes, "missing") == None
    ensures EvalExpr(h, FunctionCall(Variable("f"), [Variable("missing")]), s1, fuel)
      == Raised(UndefinedVariable("missing"), Enter(s1))
  {
    var e1 := Enter(s1);
    EnterThenLookup(s1.scopes, "missing");
    var args := [Variable("missing")];
    assert args[0] == Variable("missing");
    assert EvalExpr(h, Variable("missing"), e1, fuel) == Raised(UndefinedVariable("missing"), e1);
    assert BindArgs(h, LeakingCallee.params, args, e1, fuel) == CollectRaised(UndefinedVariable("missing"), e1);
    assert EvalExpr(h, Variable("f"), s1, fuel) == Produced(Function(LeakingCallee), s1);
    assert Invoke(h, LeakingCallee, args, s1, fuel) == Raised(UndefinedVariable("missing"), e1);
  }
}
