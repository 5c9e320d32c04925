/** Failure-carrying wrappers shared by every other module of the model. */
module Base {

  /** An optional value: Rust's `Option<T>`. */
  datatype Option<+T> = None | Some(value: T)

  /** A value or an error: Rust's `Result<T, E>`. */
  datatype Result<+T, +E> = Ok(value: T) | Err(error: E) {
    predicate IsFailure() { Err? }

    function PropagateFailure<U>(): Result<U, E>
      requires Err?
    {
      Err(error)
    }

    function Extract(): T
      requires Ok?
    {
      value
    }
  }

  /** order lists every key of keys exactly once: what a hash map's iteration yields. */
  ghost predicate Enumerates<K>(order: seq<K>, keys: set<K>)
  {
    && (forall i :: 0 <= i < |order| ==> order[i] in keys)
    && (forall k :: k in keys ==> k in order)
    && (forall i, j :: 0 <= i < j < |order| ==> order[i] != order[j])
  }

  /** The (key, value) pairs of m, visiting keys in the given order and skipping
      those m does not hold. */
  function EntriesOf<K, V>(m: map<K, V>, order: seq<K>): (es: seq<(K, V)>)
    ensures |es| <= |order|
    ensures forall i :: 0 <= i < |es| ==> es[i].0 in m && es[i].1 == m[es[i].0] && es[i].0 in order
    ensures forall k :: k in m && k in order ==> exists i :: 0 <= i < |es| && es[i].0 == k
    ensures (forall i :: 0 <= i < |order| ==> order[i] in m) ==>
              |es| == |order| && forall i :: 0 <= i < |es| ==> es[i].0 == order[i]
  {
    if |order| == 0 then []
    else
      var rest := EntriesOf(m, order[1..]);
      if order[0] in m then
        var es := [(order[0], m[order[0]])] + rest;
        assert forall k :: k in m && k in order[1..] ==> exists i :: 0 <= i < |es| && es[i].0 == k by {
          forall k | k in m && k in order[1..]
            ensures exists i :: 0 <= i < |es| && es[i].0 == k
          {
            var j :| 0 <= j < |rest| && rest[j].0 == k;
            assert es[j + 1].0 == k;
          }
        }
        assert es[0].0 == order[0];
        es
      else rest
  }
}
