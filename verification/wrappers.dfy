/** The optional-value type used wherever the program returns `None`, finds no
    regular-expression match, or cannot start a child process. */
module Wrappers {

  datatype Option<+T> = None | Some(value: T)

  /** The first present entry of `hits` at or after `p`, with its index. */
  function FirstHit<T>(hits: seq<Option<T>>, p: nat): (r: Option<(nat, T)>)
    requires p <= |hits|
    ensures r.Some? ==> p <= r.value.0 < |hits| && hits[r.value.0] == Some(r.value.1)
    ensures r.Some? ==> forall q :: p <= q < r.value.0 ==> hits[q].None?
    ensures r.None? ==> forall q :: p <= q < |hits| ==> hits[q].None?
    decreases |hits| - p
  {
    if p == |hits| then None
    else
      match hits[p]
      case Some(x) => Some((p, x))
      case None => FirstHit(hits, p + 1)
  }

  /** The first present entry is the one reported. */
  lemma FirstHitAt<T>(hits: seq<Option<T>>, p: nat, x: T)
    requires p < |hits| && hits[p] == Some(x)
    requires forall q :: 0 <= q < p ==> hits[q].None?
    ensures FirstHit(hits, 0) == Some((p, x))
  {
  }
}
