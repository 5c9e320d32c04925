/** The evaluator's value-level rules (`interpreter.rs`): binary and unary operators
    with their type dispatch, index access, and the text decoding a returned value
    goes through at the call boundary. */
module Operators {
  import opened Base
  import opened Text
  import opened Syntax
  import SnaskTypes

  /** The distinguishable runtime failures of the evaluator, one per error message it builds. */
  datatype Fault =
    | UndefinedVariable(name: string)          // "Variável '{name}' não encontrada."
    | AssignToUndefined(name: string)          // "... não encontrada para atribuição."
    | ConstantReassignment(name: string)       // "... não pode ser reatribuída (é constante)."
    | NegateNonNumber(operand: Value)
    | UnsupportedOperands(op: BinaryOp, left: Value, right: Value)
    | DivisionByZero                           // "Erro de tempo de execução: Divisão por zero."
    | CompareNonNumbers(left: Value, right: Value)
    | IndexOutOfBounds(size: nat, index: nat)  // "... Tamanho: {size}, Índice: {index}"
    | NonNumericIndex(badIndex: Value)
    | MissingKey(key: Value)
    | NotIndexable(target: Value)
    | PropertyOutsideCall
    | NotCallable(value: Value)
    | WrongArgumentCount(callee: string, expected: nat, found: nat)
    | PushArity(found: nat)
    | SetArity(found: nat)
    | NoListMethod(property: string)
    | NoDictMethod(property: string)
    | NotACollection(property: string)
    | ComplexMethodTarget
    | StatementNotImplemented(kind: string)
    | LoopNotImplemented(form: string)
    | InvalidInput(wanted: SnaskTypes.Type, text: string)
    | InputTypeNotSupported(t: SnaskTypes.Type)

  /** `usize::MAX` on a 64-bit target. */
  const UsizeMax: nat := 0xFFFF_FFFF_FFFF_FFFF

  /** Rust's saturating `f64 as usize`: toward zero, negatives to 0, too large to `usize::MAX`. */
  function ToUsize(x: real): (i: nat)
    ensures i <= UsizeMax
    ensures x < 0.0 ==> i == 0
    ensures 0.0 <= x < UsizeMax as real ==> i as real <= x < i as real + 1.0
    ensures x >= UsizeMax as real ==> i == UsizeMax
  {
    if x < 0.0 then 0
    else if x >= UsizeMax as real then UsizeMax
    else x.Floor
  }

  /** Negation is an involution on numbers. */
  lemma NegateTwice(x: real)
    ensures Negate(Number(x)).Ok? && Negate(Negate(Number(x)).value) == Ok(Number(x))
  {
  }

  /** `-x`. */
  function Negate(v: Value): (res: Result<Value, Fault>)
    ensures res.Ok? <==> v.Number?
    ensures res.Ok? ==> res.value == Number(-v.n)
    ensures res.Err? ==> res.error == NegateNonNumber(v)
  {
    if v.Number? then Ok(Number(-v.n)) else Err(NegateNonNumber(v))
  }

  /** `add_values`: numeric sum, string concatenation, or a string joined with the
      rendering of any other value, on whichever side the string is. */
  function AddValues(fmt: Fmt, l: Value, r: Value): (res: Result<Value, Fault>)
    ensures res.Err? <==> !(l.Number? && r.Number?) && !l.String? && !r.String?
    ensures res.Err? ==> res.error == UnsupportedOperands(Add, l, r)
    ensures l.Number? && r.Number? ==> res == Ok(Number(l.n + r.n))
    ensures l.String? ==> res == Ok(String(l.s + Render(fmt, r)))
    ensures r.String? ==> res == Ok(String(Render(fmt, l) + r.s))
  {
    match (l, r)
    case (Number(a), Number(b)) => Ok(Number(a + b))
    case (String(a), String(b)) => Ok(String(a + b))
    case (String(a), b) => Ok(String(a + Render(fmt, b)))
    case (a, String(b)) => Ok(String(Render(fmt, a) + b))
    case _ => Err(UnsupportedOperands(Add, l, r))
  }

  /** `subtract_values`. */
  function SubtractValues(l: Value, r: Value): (res: Result<Value, Fault>)
    ensures res.Ok? <==> l.Number? && r.Number?
    ensures l.Number? && r.Number? ==> res == Ok(Number(l.n - r.n))
    ensures res.Err? ==> res.error == UnsupportedOperands(Subtract, l, r)
  {
    match (l, r)
    case (Number(a), Number(b)) => Ok(Number(a - b))
    case _ => Err(UnsupportedOperands(Subtract, l, r))
  }

  /** `multiply_values`. */
  function MultiplyValues(l: Value, r: Value): (res: Result<Value, Fault>)
    ensures res.Ok? <==> l.Number? && r.Number?
    ensures l.Number? && r.Number? ==> res == Ok(Number(l.n * r.n))
    ensures res.Err? ==> res.error == UnsupportedOperands(Multiply, l, r)
  {
    if l.Number? && r.Number? then Ok(Number(l.n * r.n))
    else Err(UnsupportedOperands(Multiply, l, r))
  }

  /** `divide_values`: a zero divisor is its own failure, never a number. */
  function DivideValues(l: Value, r: Value): (res: Result<Value, Fault>)
    ensures res.Ok? <==> l.Number? && r.Number? && r.n != 0.0
    ensures res.Ok? ==> res == Ok(Number(l.n / r.n))
    ensures l.Number? && r.Number? && r.n == 0.0 ==> res == Err(DivisionByZero)
    ensures !(l.Number? && r.Number?) ==> res == Err(UnsupportedOperands(Divide, l, r))
  {
    match (l, r)
    case (Number(a), Number(b)) =>
      if b == 0.0 then Err(DivisionByZero) else Ok(Number(a / b))
    case _ => Err(UnsupportedOperands(Divide, l, r))
  }

  predicate IsComparison(op: BinaryOp)
  {
    op.GreaterThan? || op.LessThan? || op.GreaterThanOrEquals? || op.LessThanOrEquals?
  }

  /** The four closures `evaluate_binary_expression` hands to `compare_values`. */
  function Comparator(op: BinaryOp, a: real, b: real): bool
    requires IsComparison(op)
  {
    match op
    case GreaterThan => a > b
    case LessThan => a < b
    case GreaterThanOrEquals => a >= b
    case LessThanOrEquals => a <= b
  }

  /** `compare_values`: two numbers or a failure. */
  function CompareValues(op: BinaryOp, l: Value, r: Value): (res: Result<Value, Fault>)
    requires IsComparison(op)
    ensures res.Ok? <==> l.Number? && r.Number?
    ensures res.Ok? ==> res.value.Boolean?
    ensures res.Ok? && op.GreaterThan? ==> (res.value.b <==> l.n > r.n)
    ensures res.Ok? && op.LessThan? ==> (res.value.b <==> l.n < r.n)
    ensures res.Ok? && op.GreaterThanOrEquals? ==> (res.value.b <==> l.n >= r.n)
    ensures res.Ok? && op.LessThanOrEquals? ==> (res.value.b <==> l.n <= r.n)
    ensures res.Err? ==> res.error == CompareNonNumbers(l, r)
  {
    match (l, r)
    case (Number(a), Number(b)) => Ok(Boolean(Comparator(op, a, b)))
    case _ => Err(CompareNonNumbers(l, r))
  }

  /** `evaluate_binary_expression` once both operands are evaluated. */
  function ApplyBinary(fmt: Fmt, op: BinaryOp, l: Value, r: Value): (res: Result<Value, Fault>)
    ensures op.Equals? ==> res == Ok(Boolean(l == r))
    ensures op.NotEquals? ==> res == Ok(Boolean(l != r))
  {
    match op
    case Add => AddValues(fmt, l, r)
    case Subtract => SubtractValues(l, r)
    case Multiply => MultiplyValues(l, r)
    case Divide => DivideValues(l, r)
    case Equals => Ok(Boolean(l == r))
    case NotEquals => Ok(Boolean(l != r))
    case _ => CompareValues(op, l, r)
  }

  /** `evaluate_index_access` once target and index are evaluated. */
  function IndexValue(target: Value, index: Value): (res: Result<Value, Fault>)
    ensures target.List? && index.Number? && ToUsize(index.n) < |target.items| ==>
      res == Ok(target.items[ToUsize(index.n)])
    ensures target.List? && index.Number? && ToUsize(index.n) >= |target.items| ==>
      res == Err(IndexOutOfBounds(|target.items|, ToUsize(index.n)))
    ensures target.List? && !index.Number? ==> res == Err(NonNumericIndex(index))
    ensures target.Dict? ==> res == (if index in target.entries then Ok(target.entries[index]) else Err(MissingKey(index)))
    ensures !target.List? && !target.Dict? ==> res == Err(NotIndexable(target))
  {
    match target
    case List(items) =>
      if index.Number? then
        var i := ToUsize(index.n);
        if i < |items| then Ok(items[i]) else Err(IndexOutOfBounds(|items|, i))
      else Err(NonNumericIndex(index))
    case Dict(m) =>
      if index in m then Ok(m[index]) else Err(MissingKey(index))
    case _ => Err(NotIndexable(target))
  }

  /** The call site's decoding of `"RETURN_VALUE:" + text` after the prefix is stripped:
      a number if `f64` parsing accepts it, then `true`/`false`, then `nil`, else a string. */
  function DecodeReturn(parseFloat: string -> Option<real>, text: string): (v: Value)
    ensures v.Number? <==> parseFloat(text).Some?
    ensures v.Number? ==> v.n == parseFloat(text).value
    ensures v.Boolean? <==> parseFloat(text).None? && (text == "true" || text == "false")
    ensures v.Boolean? ==> (v.b <==> text == "true")
    ensures v.Nil? <==> parseFloat(text).None? && text == "nil"
    ensures v.String? ==> v.s == text
    ensures !v.List? && !v.Dict? && !v.Function?
  {
    match parseFloat(text)
    case Some(n) => Number(n)
    case None =>
      if text == "true" then Boolean(true)
      else if text == "false" then Boolean(false)
      else if text == "nil" then Nil
      else String(text)
  }

  // ----- properties -----

  /** Dividing by zero never yields a number, whatever the dividend. */
  lemma DivisionByZeroNeverNumber(l: Value)
    ensures DivideValues(l, Number(0.0)).Err?
    ensures l.Number? ==> DivideValues(l, Number(0.0)) == Err(DivisionByZero)
  {
  }

  /** `==` and `!=` never fail and are each other's negation; ordering comparisons
      fail exactly when an operand is not a number. */
  lemma EqualityTotal(fmt: Fmt, l: Value, r: Value)
    ensures ApplyBinary(fmt, Equals, l, r).Ok? && ApplyBinary(fmt, NotEquals, l, r).Ok?
    ensures ApplyBinary(fmt, Equals, l, r).value.b == !ApplyBinary(fmt, NotEquals, l, r).value.b
    ensures ApplyBinary(fmt, Equals, l, l) == Ok(Boolean(true))
  {
  }

  /** Only `+` accepts a non-number operand, and only when the other side or this one is a string. */
  lemma OnlyAddCoerces(fmt: Fmt, op: BinaryOp, l: Value, r: Value)
    requires !op.Equals? && !op.NotEquals?
    requires !l.Number? || !r.Number?
    ensures ApplyBinary(fmt, op, l, r).Ok? <==> op.Add? && (l.String? || r.String?)
  {
  }

  /** `x` indexed at a negative number reads the first element: `as usize` saturates. */
  lemma NegativeIndexReadsFirst(items: seq<Value>, x: real)
    requires x < 0.0 && |items| > 0
    ensures IndexValue(List(items), Number(x)) == Ok(items[0])
  {
  }

  /** A fractional index reads the element at its integer part. */
  lemma FractionalIndexTruncates(items: seq<Value>, k: nat, frac: real)
    requires k < |items| && k < UsizeMax && 0.0 <= frac < 1.0
    ensures IndexValue(List(items), Number(k as real + frac)) == Ok(items[k])
  {
    assert (k as real + frac).Floor == k;
  }

  /** The boolean and nil renderings come back as the same value when `f64` parsing rejects them. */
  lemma DecodeRoundTripsScalars(fmt: Fmt, parseFloat: string -> Option<real>, v: Value)
    requires v.Boolean? || v.Nil?
    requires parseFloat("true").None? && parseFloat("false").None? && parseFloat("nil").None?
    ensures DecodeReturn(parseFloat, Render(fmt, v)) == v
  {
  }

  /** A returned number survives when parsing inverts `Display`. */
  lemma DecodeRoundTripsNumbers(fmt: Fmt, parseFloat: string -> Option<real>, n: real)
    requires parseFloat(fmt.number(n)) == Some(n)
    ensures DecodeReturn(parseFloat, Render(fmt, Number(n))) == Number(n)
  {
  }

  /** The encoding is lossy: the string "true" comes back as the boolean true, and a
      list comes back as the string of its rendering. */
  lemma DecodeIsLossy(fmt: Fmt, parseFloat: string -> Option<real>, items: seq<Value>)
    requires parseFloat("true").None?
    requires parseFloat(Render(fmt, List(items))).None?
    ensures DecodeReturn(parseFloat, Render(fmt, String("true"))) == Boolean(true) != String("true")
    ensures DecodeReturn(parseFloat, Render(fmt, List(items))) == String(Render(fmt, List(items)))
  {
    var text := Render(fmt, List(items));
    assert text[0] == '[';
    assert text != "true" && text != "false" && text != "nil";
  }

  /** A returned string survives exactly when it is none of the reserved spellings. */
  lemma DecodeStringRoundTrip(fmt: Fmt, parseFloat: string -> Option<real>, s: string)
    ensures DecodeReturn(parseFloat, Render(fmt, String(s))) == String(s) <==>
      parseFloat(s).None? && s != "true" && s != "false" && s != "nil"
  {
  }
}
