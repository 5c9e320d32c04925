/** The scope-stack symbol table the evaluator binds names in. Only the calls the
    evaluator makes are modelled: `define`, `get`, `get_mut`, `enter_scope`, `exit_scope`. */
module Scopes {
  import opened Base
  import opened Syntax

  /** A binding: its value, whether assignment may replace it, and the fourth `define`
      argument, whose meaning lies outside the evaluator and is only recorded. */
  datatype Symbol = Symbol(value: Value, reassignable: bool, flag: bool)

  type Frame = map<string, Symbol>

  /** Frames from outermost (index 0, the global scope) to innermost (last). */
  type Frames = fs: seq<Frame> | |fs| >= 1 witness [map[]]

  /** `SymbolTable::new()`: the global scope alone. */
  const Empty: Frames := [map[]]

  function Depth(t: Frames): nat
  {
    |t|
  }

  /** `enter_scope`: push an empty innermost frame. */
  function EnterScope(t: Frames): (r: Frames)
    ensures Depth(r) == Depth(t) + 1 && r[..|t|] == t && r[|t|] == map[]
  {
    t + [map[]]
  }

  /** `exit_scope`: pop the innermost frame; the global scope is never popped. */
  function ExitScope(t: Frames): (r: Frames)
    ensures |t| > 1 ==> r == t[..|t| - 1]
    ensures |t| == 1 ==> r == t
  {
    if |t| > 1 then t[..|t| - 1] else t
  }

  /** `define`: bind name in the innermost frame, replacing a binding there and
      shadowing any binding of the same name further out. */
  function Define(t: Frames, name: string, value: Value, reassignable: bool, flag: bool): (r: Frames)
    ensures Depth(r) == Depth(t)
    ensures r[..|t| - 1] == t[..|t| - 1]
    ensures r[|t| - 1] == t[|t| - 1][name := Symbol(value, reassignable, flag)]
  {
    t[|t| - 1 := t[|t| - 1][name := Symbol(value, reassignable, flag)]]
  }

  /** Index of the innermost frame binding name, searching frames [0, upto). */
  function FindFrame(t: seq<Frame>, name: string, upto: nat): (r: Option<nat>)
    requires upto <= |t|
    ensures r.Some? ==> r.value < upto && name in t[r.value]
    ensures r.Some? ==> forall j :: r.value < j < upto ==> name !in t[j]
    ensures r.None? ==> forall j :: 0 <= j < upto ==> name !in t[j]
  {
    if upto == 0 then None
    else if name in t[upto - 1] then Some(upto - 1)
    else FindFrame(t, name, upto - 1)
  }

  /** `get` (and `get_mut` for reading): the innermost binding of name. */
  function Lookup(t: Frames, name: string): (r: Option<Symbol>)
    ensures r.Some? <==> exists j :: 0 <= j < |t| && name in t[j]
  {
    match FindFrame(t, name, |t|)
    case Some(j) => Some(t[j][name])
    case None => None
  }

  /** Writing through `get_mut`: replace the innermost binding of name by s. */
  function Update(t: Frames, name: string, s: Symbol): (r: Frames)
    requires Lookup(t, name).Some?
    ensures Depth(r) == Depth(t)
  {
    var j := FindFrame(t, name, |t|).value;
    t[j := t[j][name := s]]
  }

  /** The failures of assignment. */
  datatype AssignFault = Unbound | NotReassignable

  /** The binding step of `execute_var_assignment`: an unbound name and a
      non-reassignable binding are refused; otherwise the value is replaced and the
      binding keeps its flags. */
  function Assign(t: Frames, name: string, value: Value): (r: Result<Frames, AssignFault>)
  {
    match Lookup(t, name)
    case None => Err(Unbound)
    case Some(s) =>
      if !s.reassignable then Err(NotReassignable)
      else Ok(Update(t, name, s.(value := value)))
  }

  /** After `define`, the name resolves to the new binding; every other name resolves
      as before. */
  lemma {:induction false} DefineThenLookup(t: Frames, name: string, value: Value, re: bool, flag: bool, other: string)
    ensures Lookup(Define(t, name, value, re, flag), name) == Some(Symbol(value, re, flag))
    ensures other != name ==> Lookup(Define(t, name, value, re, flag), other) == Lookup(t, other)
  {
    var r := Define(t, name, value, re, flag);
    assert name in r[|r| - 1];
    assert FindFrame(r, name, |r|) == Some(|r| - 1);
    if other != name {
      forall j | 0 <= j < |t| ensures (other in r[j]) == (other in t[j]) && (other in t[j] ==> r[j][other] == t[j][other]) {
        if j < |t| - 1 { assert r[j] == r[..|t| - 1][j]; }
      }
      FindFrameAgrees(t, r, other, |t|);
    }
  }

  /** Two stacks that bind a name identically in every frame resolve it identically. */
  lemma {:induction false} FindFrameAgrees(t: seq<Frame>, u: seq<Frame>, name: string, upto: nat)
    requires upto <= |t| == |u|
    requires forall j :: 0 <= j < |t| ==> (name in t[j]) == (name in u[j]) && (name in t[j] ==> t[j][name] == u[j][name])
    ensures FindFrame(t, name, upto) == FindFrame(u, name, upto)
    decreases upto
  {
    if upto > 0 && name !in t[upto - 1] {
      FindFrameAgrees(t, u, name, upto - 1);
    }
  }

  /** Assignment fails exactly for an unbound name or a non-reassignable binding, and
      then nothing changes; otherwise the name now resolves to the new value with the
      old flags, and every other name resolves as before. */
  lemma {:induction false} AssignSpec(t: Frames, name: string, value: Value, other: string)
    ensures Lookup(t, name).None? ==> Assign(t, name, value) == Err(Unbound)
    ensures Lookup(t, name).Some? && !Lookup(t, name).value.reassignable ==>
      Assign(t, name, value) == Err(NotReassignable)
    ensures Lookup(t, name).Some? && Lookup(t, name).value.reassignable ==>
      && Assign(t, name, value).Ok?
      && Lookup(Assign(t, name, value).value, name) == Some(Lookup(t, name).value.(value := value))
      && (other != name ==> Lookup(Assign(t, name, value).value, other) == Lookup(t, other))
      && Depth(Assign(t, name, value).value) == Depth(t)
  {
    var s := Lookup(t, name);
    if s.Some? && s.value.reassignable {
      var r := Update(t, name, s.value.(value := value));
      UpdateThenLookup(t, name, s.value.(value := value), other);
    }
  }

  /** Writing a binding through `get_mut` changes what that name resolves to and nothing else. */
  lemma {:induction false} UpdateThenLookup(t: Frames, name: string, s: Symbol, other: string)
    requires Lookup(t, name).Some?
    ensures Lookup(Update(t, name, s), name) == Some(s)
    ensures other != name ==> Lookup(Update(t, name, s), other) == Lookup(t, other)
  {
    var j := FindFrame(t, name, |t|).value;
    var r := Update(t, name, s);
    forall k | 0 <= k < |t| ensures (name in t[k]) == (name in r[k]) {
    }
    FindFrameSameShape(t, r, name, |t|);
    if other != name {
      forall k | 0 <= k < |t| ensures (other in t[k]) == (other in r[k]) && (other in t[k] ==> t[k][other] == r[k][other]) {
      }
      FindFrameAgrees(t, r, other, |t|);
    }
  }

  /** The frame found for a name depends only on which frames bind it. */
  lemma {:induction false} FindFrameSameShape(t: seq<Frame>, u: seq<Frame>, name: string, upto: nat)
    requires upto <= |t| == |u|
    requires forall j :: 0 <= j < |t| ==> (name in t[j]) == (name in u[j])
    ensures FindFrame(t, name, upto) == FindFrame(u, name, upto)
    decreases upto
  {
    if upto > 0 && name !in t[upto - 1] {
      FindFrameSameShape(t, u, name, upto - 1);
    }
  }

  /** A frame pushed and popped again leaves the table as it was. */
  lemma EnterExit(t: Frames)
    ensures ExitScope(EnterScope(t)) == t
  {
  }

  /** The frame found for a name among the first upto frames depends on those frames only. */
  lemma {:induction false} FindFramePrefix(t: seq<Frame>, u: seq<Frame>, name: string, upto: nat)
    requires upto <= |t| && upto <= |u| && t[..upto] == u[..upto]
    ensures FindFrame(t, name, upto) == FindFrame(u, name, upto)
    decreases upto
  {
    if upto > 0 {
      assert t[upto - 1] == t[..upto][upto - 1] == u[..upto][upto - 1] == u[upto - 1];
      assert t[..upto - 1] == t[..upto][..upto - 1];
      assert u[..upto - 1] == u[..upto][..upto - 1];
      FindFramePrefix(t, u, name, upto - 1);
    }
  }

  /** A freshly entered scope hides nothing: every name resolves as before. */
  lemma EnterThenLookup(t: Frames, name: string)
    ensures Lookup(EnterScope(t), name) == Lookup(t, name)
  {
    var u := EnterScope(t);
    FindFramePrefix(t, u, name, |t|);
  }

  /** Inside a scope entered on top of t, in which only other names were defined,
      assigning an outer reassignable name writes through to the outer binding, and
      leaving the scope keeps that write while discarding the inner bindings. */
  lemma {:induction false} AssignThroughInnerScope(t: Frames, inner: Frame, name: string, value: Value)
    requires name !in inner
    requires Lookup(t, name).Some? && Lookup(t, name).value.reassignable
    ensures var u := t + [inner];
      && Assign(u, name, value).Ok?
      && ExitScope(Assign(u, name, value).value) == Update(t, name, Lookup(t, name).value.(value := value))
  {
    var u: Frames := t + [inner];
    assert u[..|t|] == t;
    FindFramePrefix(t, u, name, |t|);
    assert FindFrame(u, name, |u|) == FindFrame(t, name, |t|);
    var j := FindFrame(t, name, |t|).value;
    assert Lookup(u, name) == Lookup(t, name);
    var s' := Lookup(t, name).value.(value := value);
    assert Update(u, name, s')[..|t|] == Update(t, name, s');
  }
}
