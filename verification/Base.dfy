/** Result and option types shared by the model: a `Throw` stands for the
    source's thrown `TypeError` or returned error where its payload is not
    inspected by any caller. */
module Base {

  datatype Option<+T> = None | Some(value: T)

  datatype Result<+T> = Ok(value: T) | Throw

  /** The largest integer for which `Number.isSafeInteger` holds. */
  const MAX_SAFE_INTEGER: int := 9_007_199_254_740_991

  predicate NoDuplicates<T(==)>(s: seq<T>) {
    forall i, j :: 0 <= i < j < |s| ==> s[i] != s[j]
  }

  function KeysOf<T, K>(values: seq<T>, key: T -> K): (keys: seq<K>)
    ensures |keys| == |values| && forall i :: 0 <= i < |keys| ==> keys[i] == key(values[i])
  {
    seq(|values|, i requires 0 <= i < |values| => key(values[i]))
  }
}
