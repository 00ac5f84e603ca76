module Wrappers {
  datatype Option<+T> = None | Some(value: T)

  /** What a statement has done that was attempted in s, where the transition system allows `next`. */
  ghost predicate Performed<S(!new)>(s: S, next: Option<S>, ok: bool, s': S) {
    && (ok <==> next.Some?)
    && s' == if ok then next.value else s
  }

  /** A vector of n equal entries. */
  function Repeat<T>(n: nat, x: T): (r: seq<T>)
    ensures |r| == n
    ensures forall i | 0 <= i < n :: r[i] == x
  {
    seq(n, _ => x)
  }
}
