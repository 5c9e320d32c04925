/** The static type keywords of Snask (`types.rs`). */
module SnaskTypes {
  import opened Base

  datatype Type =
    | Int
    | Float
    | String
    | Bool
    | List
    | Dict
    | Void
    | Any
    | Function(params: seq<Type>, ret: Type)

  /** The unit error of `Type::from_str`. */
  datatype TypeParseError = TypeParseError

  /** `Type::is_numeric`. */
  predicate IsNumeric(t: Type)
  {
    t.Int? || t.Float?
  }

  /** The eight accepted keywords, in the order `from_str` tests them. */
  const Keywords: seq<string> := ["int", "float", "str", "bool", "list", "dict", "void", "any"]

  /** The type each keyword of `Keywords` denotes (same position). */
  const KeywordTypes: seq<Type> := [Int, Float, String, Bool, List, Dict, Void, Any]

  /** `Type::from_str`: an exact keyword match, anything else is a parse error. */
  function FromStr(s: string): (r: Result<Type, TypeParseError>)
    ensures r.Ok? <==> s in Keywords
    ensures r.Ok? ==> !r.value.Function?
    ensures forall i :: 0 <= i < |Keywords| && s == Keywords[i] ==> r == Ok(KeywordTypes[i])
  {
    match s
    case "int" => Ok(Int)
    case "float" => Ok(Float)
    case "str" => Ok(String)
    case "bool" => Ok(Bool)
    case "list" => Ok(List)
    case "dict" => Ok(Dict)
    case "void" => Ok(Void)
    case "any" => Ok(Any)
    case _ => Err(TypeParseError)
  }

  /** `is_numeric` holds exactly for the two number types. */
  lemma IsNumericExactly(t: Type)
    ensures IsNumeric(t) <==> t == Int || t == Float
  {
  }

  /** Parsing is injective on accepted keywords. */
  lemma FromStrInjective(a: string, b: string)
    requires FromStr(a).Ok? && FromStr(b).Ok?
    ensures FromStr(a) == FromStr(b) ==> a == b
  {
  }

  /** Of the parsed types only `int` and `float` are numeric. */
  lemma FromStrNumeric(s: string)
    requires FromStr(s).Ok?
    ensures IsNumeric(FromStr(s).value) <==> s == "int" || s == "float"
  {
  }
}
