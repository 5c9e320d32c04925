/** How `interpreter.rs` evaluates the sub-expressions of list literals, dict literals,
    method-call arguments and `print`, and what `push`, `set` and `input` change,
    stated over the evaluator model. */
module EvaluatorCollections {
  import opened Base
  import opened Text
  import opened Syntax
  import opened Scopes
  import opened Operators
  import opened Evaluator
  import SnaskTypes

  /** `ps` in front of the items of a collected sequence; other outcomes pass through. */
  function PrependItems(ps: seq<Value>, r: Collected<seq<Value>>): Collected<seq<Value>>
  {
    match r
    case Collected(vs, s) => Collected(ps + vs, s)
    case other => other
  }

  // ----- arguments: left to right, the first failure is the result -----

  /** Evaluating arguments is evaluating the first i of them and then the rest from
      the state they leave; a failure among the first i is the whole result. */
  lemma {:induction false} ArgsSplit(h: Host, es: seq<Expr>, st: State, fuel: nat, i: nat)
    requires i <= |es|
    ensures var p := EvalArgs(h, es[..i], st, fuel);
      EvalArgs(h, es, st, fuel) == (if p.Collected? then PrependItems(p.items, EvalArgs(h, es[i..], p.st, fuel)) else p)
    decreases i
  {
    if i == 0 {
      assert es[..0] == [] && es[0..] == es;
      var r := EvalArgs(h, es, st, fuel);
      if r.Collected? {
        assert [] + r.items == r.items;
      }
    } else {
      var pre := es[..i];
      assert pre[0] == es[0] && pre[1..] == es[1..][..i - 1];
      assert es[1..][i - 1..] == es[i..];
      var a := EvalExpr(h, es[0], st, fuel);
      if a.Produced? {
        ArgsSplit(h, es[1..], a.st, fuel, i - 1);
        var q := EvalArgs(h, es[1..][..i - 1], a.st, fuel);
        if q.Collected? {
          var rest := EvalArgs(h, es[i..], q.st, fuel);
          if rest.Collected? {
            assert [a.v] + (q.items + rest.items) == ([a.v] + q.items) + rest.items;
          }
        }
      }
    }
  }

  /** The first argument that fails decides the outcome: its fault and the state it
      left, with no later argument evaluated. */
  lemma ArgsFirstFailure(h: Host, es: seq<Expr>, st: State, fuel: nat, i: nat)
    requires i < |es|
    requires EvalArgs(h, es[..i], st, fuel).Collected?
    requires EvalExpr(h, es[i], EvalArgs(h, es[..i], st, fuel).st, fuel).Raised?
    ensures var a := EvalExpr(h, es[i], EvalArgs(h, es[..i], st, fuel).st, fuel);
      EvalArgs(h, es, st, fuel) == CollectRaised(a.fault, a.st)
  {
    ArgsSplit(h, es, st, fuel, i);
    assert es[i..][0] == es[i];
  }

  /** When all arguments succeed, item i is argument i's value, evaluated in the
      state the arguments before it left. */
  lemma ArgsItemAt(h: Host, es: seq<Expr>, st: State, fuel: nat, i: nat)
    requires i < |es|
    requires EvalArgs(h, es, st, fuel).Collected?
    ensures var r := EvalArgs(h, es, st, fuel);
      var p := EvalArgs(h, es[..i], st, fuel);
      && p.Collected? && p.items == r.items[..i]
      && EvalExpr(h, es[i], p.st, fuel).Produced?
      && r.items[i] == EvalExpr(h, es[i], p.st, fuel).v
  {
    ArgsSplit(h, es, st, fuel, i);
    var r := EvalArgs(h, es, st, fuel);
    var p := EvalArgs(h, es[..i], st, fuel);
    var rest := EvalArgs(h, es[i..], p.st, fuel);
    assert es[i..][0] == es[i];
    assert r.items == p.items + rest.items;
    assert rest.items[0] == EvalExpr(h, es[i], p.st, fuel).v;
  }

  /** Two arguments that each produce a value without changing the state. */
  lemma TwoProducedArgs(h: Host, es: seq<Expr>, x: Value, y: Value, st: State, fuel: nat)
    requires |es| == 2
    requires EvalExpr(h, es[0], st, fuel) == Produced(x, st)
    requires EvalExpr(h, es[1], st, fuel) == Produced(y, st)
    ensures EvalArgs(h, es, st, fuel) == Collected([x, y], st)
  {
    var tail := es[1..];
    assert tail[0] == es[1] && tail[1..] == [];
    assert EvalArgs(h, tail[1..], st, fuel) == Collected([], st);
    assert [y] + [] == [y];
    assert EvalArgs(h, tail, st, fuel) == Collected([y], st);
    assert [x] + [y] == [x, y];
  }

  // ----- list literals: a failing element becomes nil -----

  /** A list literal's elements are the first i, then the rest from the state they leave. */
  lemma {:induction false} ListSplit(h: Host, es: seq<Expr>, st: State, fuel: nat, i: nat)
    requires i <= |es|
    ensures var p := EvalListItems(h, es[..i], st, fuel);
      EvalListItems(h, es, st, fuel) == (if p.Collected? then PrependItems(p.items, EvalListItems(h, es[i..], p.st, fuel)) else p)
    decreases i
  {
    if i == 0 {
      assert es[..0] == [] && es[0..] == es;
      var r := EvalListItems(h, es, st, fuel);
      if r.Collected? {
        assert [] + r.items == r.items;
      }
    } else {
      var pre := es[..i];
      assert pre[0] == es[0] && pre[1..] == es[1..][..i - 1];
      assert es[1..][i - 1..] == es[i..];
      var a := EvalExpr(h, es[0], st, fuel);
      if !a.EvalOutOfFuel? {
        var v := if a.Produced? then a.v else Nil;
        ListSplit(h, es[1..], a.st, fuel, i - 1);
        var q := EvalListItems(h, es[1..][..i - 1], a.st, fuel);
        if q.Collected? {
          var rest := EvalListItems(h, es[i..], q.st, fuel);
          if rest.Collected? {
            assert [v] + (q.items + rest.items) == ([v] + q.items) + rest.items;
          }
        }
      }
    }
  }

  /** Element i of an evaluated list literal is the value of item i, evaluated in the
      state the items before it left, or `nil` when that evaluation fails; either
      way the evaluation goes on. */
  lemma ListItemAt(h: Host, es: seq<Expr>, st: State, fuel: nat, i: nat)
    requires i < |es|
    requires EvalExpr(h, Literal(LList(es)), st, fuel).Produced?
    ensures var r := EvalExpr(h, Literal(LList(es)), st, fuel);
      var p := EvalListItems(h, es[..i], st, fuel);
      && r.v.List? && |r.v.items| == |es|
      && p.Collected? && p.items == r.v.items[..i]
      && var a := EvalExpr(h, es[i], p.st, fuel);
      && !a.EvalOutOfFuel?
      && (a.Produced? ==> r.v.items[i] == a.v)
      && (a.Raised? ==> r.v.items[i] == Nil)
  {
    ListSplit(h, es, st, fuel, i);
    var r := EvalListItems(h, es, st, fuel);
    var p := EvalListItems(h, es[..i], st, fuel);
    var rest := EvalListItems(h, es[i..], p.st, fuel);
    assert es[i..][0] == es[i];
    assert r.items == p.items + rest.items;
  }

  /** A failing element does not stop the literal: `[missing, 1]` is `[nil, 1]` when
      `missing` is unbound. */
  lemma FailingItemBecomesNil(h: Host, name: string, n: real, st: State, fuel: nat)
    requires Lookup(st.scopes, name).None?
    ensures EvalExpr(h, Literal(LList([Variable(name), Literal(LNumber(n))])), st, fuel)
            == Produced(List([Nil, Number(n)]), st)
  {
    var es := [Variable(name), Literal(LNumber(n))];
    var tail := es[1..];
    assert tail[0] == Literal(LNumber(n)) && tail[1..] == [];
    assert EvalExpr(h, tail[0], st, fuel) == Produced(Number(n), st);
    assert EvalListItems(h, tail[1..], st, fuel) == Collected([], st);
    assert [Number(n)] + [] == [Number(n)];
    assert EvalListItems(h, tail, st, fuel) == Collected([Number(n)], st);
    assert EvalExpr(h, es[0], st, fuel) == Raised(UndefinedVariable(name), st);
    assert [Nil] + [Number(n)] == [Nil, Number(n)];
    assert EvalListItems(h, es, st, fuel) == Collected([Nil, Number(n)], st);
  }

  // ----- dict literals: a failing entry is dropped, a later key wins -----

  /** A dict literal's entries are the first i, then the rest from the map and state
      they leave. */
  lemma {:induction false} DictSplit(h: Host, es: seq<Entry>, acc: map<Value, Value>, st: State, fuel: nat, i: nat)
    requires i <= |es|
    ensures var p := EvalDictEntries(h, es[..i], acc, st, fuel);
      EvalDictEntries(h, es, acc, st, fuel) == (if p.Collected? then EvalDictEntries(h, es[i..], p.items, p.st, fuel) else p)
    decreases i
  {
    if i == 0 {
      assert es[..0] == [] && es[0..] == es;
    } else {
      var pre := es[..i];
      assert pre[0] == es[0] && pre[1..] == es[1..][..i - 1];
      assert es[1..][i - 1..] == es[i..];
      var k := EvalExpr(h, es[0].key, st, fuel);
      if !k.EvalOutOfFuel? {
        var v := EvalExpr(h, es[0].val, k.st, fuel);
        if !v.EvalOutOfFuel? {
          var acc' := if k.Produced? && v.Produced? then acc[k.v := v.v] else acc;
          DictSplit(h, es[1..], acc', v.st, fuel, i - 1);
        }
      }
    }
  }

  /** The last entry of a dict literal: when its key and value both evaluate, the key
      maps to that value whatever the earlier entries said; when either fails, the
      entry is dropped and the map is that of the entries before it. */
  lemma DictLastEntryWins(h: Host, es: seq<Entry>, e: Entry, st: State, fuel: nat)
    requires EvalDictEntries(h, es, map[], st, fuel).Collected?
    requires var p := EvalDictEntries(h, es, map[], st, fuel);
      !EvalExpr(h, e.key, p.st, fuel).EvalOutOfFuel?
      && !EvalExpr(h, e.val, EvalExpr(h, e.key, p.st, fuel).st, fuel).EvalOutOfFuel?
    ensures var p := EvalDictEntries(h, es, map[], st, fuel);
      var k := EvalExpr(h, e.key, p.st, fuel);
      var v := EvalExpr(h, e.val, k.st, fuel);
      var r := EvalExpr(h, Literal(LDict(es + [e])), st, fuel);
      && r.Produced? && r.st == v.st && r.v.Dict?
      && (k.Produced? && v.Produced? ==> r.v.entries == p.items[k.v := v.v] && r.v.entries[k.v] == v.v)
      && (!(k.Produced? && v.Produced?) ==> r.v.entries == p.items)
  {
    var all := es + [e];
    DictSplit(h, all, map[], st, fuel, |es|);
    assert all[..|es|] == es && all[|es|..] == [e];
    assert [e][0] == e && [e][1..] == [];
  }

  // ----- print -----

  /** `print` appends exactly one line, the renderings of its arguments joined by
      single spaces, after their effects; a failing argument prints nothing. */
  lemma PrintAppendsLine(h: Host, es: seq<Expr>, st: State, fuel: nat)
    ensures var a := EvalArgs(h, es, st, fuel);
      var r := ExecStmt(h, Print(es), st, fuel);
      && (a.Collected? ==>
            && r.Normal? && r.st.scopes == a.st.scopes && r.st.cursor == a.st.cursor
            && r.st.output == a.st.output + [Join(seq(|a.items|, i requires 0 <= i < |a.items| => Render(h.fmt, a.items[i])), " ")])
      && (a.CollectRaised? ==> r == Failed(a.fault, a.st))
  {
  }

  /** `print "a", "b"` prints the one line `a b`. */
  lemma PrintTwoStrings(h: Host, a: string, b: string, st: State, fuel: nat)
    ensures ExecStmt(h, Print([Literal(LString(a)), Literal(LString(b))]), st, fuel)
            == Normal(st.(output := st.output + [a + " " + b]))
  {
    var es := [Literal(LString(a)), Literal(LString(b))];
    assert EvalExpr(h, es[0], st, fuel) == Produced(String(a), st);
    assert EvalExpr(h, es[1], st, fuel) == Produced(String(b), st);
    TwoProducedArgs(h, es, String(a), String(b), st, fuel);
    var vals := [String(a), String(b)];
    var texts := seq(|vals|, i requires 0 <= i < |vals| => Render(h.fmt, vals[i]));
    assert texts == [a, b] && texts[1..] == [b];
    assert Join(texts, " ") == a + " " + b;
  }

  // ----- input -----

  /** `input` reads the next console line, or the empty line once input is exhausted,
      trims it and converts it by the declared type: on success the name is bound as
      a `mut` binding, on failure the line stays consumed and nothing is bound. */
  lemma InputConsumesLine(h: Host, name: string, t: SnaskTypes.Type, st: State, fuel: nat)
    ensures var line := if st.cursor < |st.stdin| then st.stdin[st.cursor] else "";
      var next := if st.cursor < |st.stdin| then st.cursor + 1 else st.cursor;
      var r := ExecStmt(h, Input(name, t), st, fuel);
      && (r.Normal? || r.Failed?)
      && r.st.cursor == next && r.st.output == st.output
      && (InputValue(h, t, TrimRust(line)).Ok? ==>
            r.Normal? && Lookup(r.st.scopes, name) == Some(Symbol(InputValue(h, t, TrimRust(line)).value, true, true)))
      && (InputValue(h, t, TrimRust(line)).Err? ==>
            r.Failed? && r.fault == InputValue(h, t, TrimRust(line)).error && r.st.scopes == st.scopes)
  {
    var line := if st.cursor < |st.stdin| then st.stdin[st.cursor] else "";
    var st1 := if st.cursor < |st.stdin| then st.(cursor := st.cursor + 1) else st;
    var iv := InputValue(h, t, TrimRust(line));
    if iv.Ok? {
      DefineThenLookup(st1.scopes, name, iv.value, true, true, name);
    }
  }

  /** A declared `float` reads the number the host's float parsing finds in the
      trimmed line, and a line it rejects is an invalid-input failure. */
  lemma InputFloatParses(h: Host, name: string, st: State, fuel: nat)
    requires st.cursor < |st.stdin|
    ensures var text := TrimRust(st.stdin[st.cursor]);
      var r := ExecStmt(h, Input(name, SnaskTypes.Float), st, fuel);
      && (h.parseFloat(text).Some? ==> r.Normal? && Lookup(r.st.scopes, name) == Some(Symbol(Number(h.parseFloat(text).value), true, true)))
      && (h.parseFloat(text).None? ==> r.Failed? && r.fault == InvalidInput(SnaskTypes.Float, text))
  {
    InputConsumesLine(h, name, SnaskTypes.Float, st, fuel);
  }

  // ----- push and set -----

  /** The methods of a variable bound to a collection: `push` with one argument on a
      list and `set` with two on a dict replace the binding's value in place, keeping
      its flags and every other name; anything else is the matching failure, with
      nothing changed. */
  lemma MethodCallEffects(name: string, property: string, vals: seq<Value>, st: State, other: string)
    ensures var r := CallMethod(Variable(name), property, vals, st);
      && (Lookup(st.scopes, name).None? ==> r == Raised(UndefinedVariable(name), st))
      && (Lookup(st.scopes, name).Some? ==>
            var sym := Lookup(st.scopes, name).value;
            && (sym.value.List? && property == "push" && |vals| == 1 ==>
                  && r.Produced? && r.v == Nil
                  && Lookup(r.st.scopes, name) == Some(sym.(value := List(sym.value.items + [vals[0]])))
                  && (other != name ==> Lookup(r.st.scopes, other) == Lookup(st.scopes, other)))
            && (sym.value.List? && property != "push" ==> r == Raised(NoListMethod(property), st))
            && (sym.value.List? && property == "push" && |vals| != 1 ==> r == Raised(PushArity(|vals|), st))
            && (sym.value.Dict? && property == "set" && |vals| == 2 ==>
                  && r.Produced? && r.v == Nil
                  && Lookup(r.st.scopes, name) == Some(sym.(value := Dict(sym.value.entries[vals[0] := vals[1]])))
                  && (other != name ==> Lookup(r.st.scopes, other) == Lookup(st.scopes, other)))
            && (sym.value.Dict? && property != "set" ==> r == Raised(NoDictMethod(property), st))
            && (sym.value.Dict? && property == "set" && |vals| != 2 ==> r == Raised(SetArity(|vals|), st))
            && (!sym.value.List? && !sym.value.Dict? ==> r == Raised(NotACollection(property), st)))
  {
    var found := Lookup(st.scopes, name);
    if found.Some? {
      var sym := found.value;
      if sym.value.List? && |vals| == 1 {
        UpdateThenLookup(st.scopes, name, sym.(value := List(sym.value.items + [vals[0]])), other);
      } else if sym.value.Dict? && |vals| == 2 {
        UpdateThenLookup(st.scopes, name, sym.(value := Dict(sym.value.entries[vals[0] := vals[1]])), other);
      }
    }
  }

  /** `name.set(k, v)` with literal key and value on a dict binding inserts the pair,
      replacing an earlier value under that key, whatever the binding's flags. */
  lemma SetStep(h: Host, name: string, k: Literal, v: Literal, st: State, fuel: nat)
    requires k.LNumber? || k.LString? || k.LBoolean?
    requires v.LNumber? || v.LString? || v.LBoolean?
    requires Lookup(st.scopes, name).Some? && Lookup(st.scopes, name).value.value.Dict?
    ensures var sym := Lookup(st.scopes, name).value;
      var kv := EvalExpr(h, Literal(k), st, fuel).v;
      var vv := EvalExpr(h, Literal(v), st, fuel).v;
      var r := ExecStmt(h, FuncCall(FunctionCall(PropertyAccess(Variable(name), "set"), [Literal(k), Literal(v)])), st, fuel);
      && r.Normal?
      && Lookup(r.st.scopes, name) == Some(sym.(value := Dict(sym.value.entries[kv := vv])))
      && r.st.output == st.output
  {
    var args := [Literal(k), Literal(v)];
    var kv := EvalExpr(h, Literal(k), st, fuel).v;
    var vv := EvalExpr(h, Literal(v), st, fuel).v;
    assert EvalExpr(h, args[0], st, fuel) == Produced(kv, st);
    assert EvalExpr(h, args[1], st, fuel) == Produced(vv, st);
    TwoProducedArgs(h, args, kv, vv, st, fuel);
    MethodCallEffects(name, "set", [kv, vv], st, name);
    MethodStatement(h, name, "set", args, [kv, vv], st, fuel);
  }

  /** A method call used as a statement completes with the method's effect once its
      arguments evaluate without effects. */
  lemma MethodStatement(h: Host, name: string, property: string, args: seq<Expr>, vals: seq<Value>, st: State, fuel: nat)
    requires EvalArgs(h, args, st, fuel) == Collected(vals, st)
    requires CallMethod(Variable(name), property, vals, st).Produced?
    ensures ExecStmt(h, FuncCall(FunctionCall(PropertyAccess(Variable(name), property), args)), st, fuel)
      == Normal(CallMethod(Variable(name), property, vals, st).st)
  {
    var callee := PropertyAccess(Variable(name), property);
    assert EvalCall(h, callee, args, st, fuel) == CallMethod(Variable(name), property, vals, st);
  }
}
