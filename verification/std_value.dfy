/** The value type the native library modules exchange with scripts. Its defining
    file, `value.rs`, is not part of this model; its variants are the ones the
    library modules construct and match on. */
module StdValue {
  import opened Base

  datatype SValue =
    | Number(n: real)
    | String(s: string)
    | Boolean(b: bool)
    | List(items: seq<SValue>)
    | Dict(entries: map<SValue, SValue>)
    | Nil
    /** A script function; the library only checks that a handler is one. */
    | Function(name: string)
    /** A closure of a library module, named by the key it is registered under. */
    | NativeFunction(name: string)

  /** A string used as a dictionary key. */
  function Key(s: string): SValue
  {
    String(s)
  }

  /** A library call's result (a value, or the error text the script sees) and the
      module's shared state after it. */
  datatype Outcome<S> = Outcome(result: Result<SValue, string>, store: S)

  /** Password hashing: `hash` may fail; `verify` reads a failure as a mismatch. */
  datatype Hasher = Hasher(hash: string -> Option<string>, verify: (string, string) -> bool)

  /** The hasher accepts a password against its own hash. */
  predicate Accepts(c: Hasher, password: string)
  {
    c.hash(password).Some? ==> c.verify(password, c.hash(password).value)
  }

  /** Successive `HashMap::insert`s of the pairs, in order. */
  function InsertAll<K, V>(m: map<K, V>, pairs: seq<(K, V)>): (r: map<K, V>)
    ensures r.Keys == m.Keys + KeysOf(pairs)
    ensures forall i :: 0 <= i < |pairs| && LastOf(pairs, i) ==> r[pairs[i].0] == pairs[i].1
    ensures forall k :: k in m && k !in KeysOf(pairs) ==> r[k] == m[k]
    decreases |pairs|
  {
    if |pairs| == 0 then m
    else
      var rest := pairs[1..];
      var r := InsertAll(m[pairs[0].0 := pairs[0].1], rest);
      assert forall i :: 1 <= i < |pairs| ==> pairs[i] == rest[i - 1];
      assert KeysOf(pairs) == {pairs[0].0} + KeysOf(rest) by {
        forall k | k in KeysOf(pairs) ensures k in {pairs[0].0} + KeysOf(rest) {
          var i :| 0 <= i < |pairs| && pairs[i].0 == k;
          if i > 0 { assert rest[i - 1].0 == k; }
        }
        forall k | k in KeysOf(rest) ensures k in KeysOf(pairs) {
          var i :| 0 <= i < |rest| && rest[i].0 == k;
          assert pairs[i + 1].0 == k;
        }
      }
      forall i | 0 <= i < |pairs| && LastOf(pairs, i) ensures r[pairs[i].0] == pairs[i].1 {
        if i > 0 {
          assert LastOf(rest, i - 1);
        } else {
          assert pairs[0].0 !in KeysOf(rest);
        }
      }
      forall k | k in m && k !in KeysOf(pairs) ensures r[k] == m[k] {
        assert k != pairs[0].0;
        assert k !in KeysOf(rest);
      }
      r
  }

  /** The keys the pairs mention. */
  function KeysOf<K, V>(pairs: seq<(K, V)>): set<K>
  {
    set i | 0 <= i < |pairs| :: pairs[i].0
  }

  /** Position i holds the last pair with its key. */
  predicate LastOf<K(==), V>(pairs: seq<(K, V)>, i: nat)
    requires i < |pairs|
  {
    forall j :: i < j < |pairs| ==> pairs[j].0 != pairs[i].0
  }
}
