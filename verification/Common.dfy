/** Types shared by every part of the model. */
module Common {

  datatype Option<+T> = None | Some(value: T)

  /** A few lines of the program do something else than every one of their callers expects.
      `AsWritten` is what the line does; `Intended` is what its callers rely on.
      Operations that depend on such a line take the reading as a parameter, so that both are
      modelled by one definition and each theorem says for which reading it holds. */
  datatype Reading = AsWritten | Intended

  type Bytes = seq<bv8>

  function Concat(parts: seq<Bytes>): Bytes {
    if parts == [] then [] else parts[0] + Concat(parts[1..])
  }

  predicate Distinct<T(==)>(s: seq<T>) {
    forall i, j :: 0 <= i < j < |s| ==> s[i] != s[j]
  }

  lemma OneMore(n: int, size: int)
    ensures (n + 1) * size == n * size + size
  {
  }
}
