/** The shape every converter page shares: a list of per-file entries that
    handlers rewrite either all at once or at one index, and batch runs
    that finish the entries one at a time in index order. */
module Batch {

  /** `list.map((x, index) => index === i ? f(x) : x)`: rewrites the entry
      at `i`, if there is one, and nothing else. */
  function MapAt<E>(s: seq<E>, i: int, f: E -> E): (r: seq<E>)
    ensures |r| == |s|
    ensures forall k :: 0 <= k < |s| && k != i ==> r[k] == s[k]
    ensures 0 <= i < |s| ==> r[i] == f(s[i])
  {
    if 0 <= i < |s| then s[i := f(s[i])] else s
  }

  /** `list.map(f)` */
  function MapAll<E>(s: seq<E>, f: E -> E): (r: seq<E>)
    ensures |r| == |s|
    ensures forall k :: 0 <= k < |s| ==> r[k] == f(s[k])
  {
    seq(|s|, k requires 0 <= k < |s| => f(s[k]))
  }

  /** The list once its first `k` entries have been finished by `finish`,
      one `MapAt` at a time, in index order. */
  function FinishInOrder<E>(s: seq<E>, k: nat, finish: E -> E): (r: seq<E>)
    requires k <= |s|
    ensures |r| == |s|
    ensures forall j :: 0 <= j < k ==> r[j] == finish(s[j])
    ensures forall j :: k <= j < |s| ==> r[j] == s[j]
  {
    if k == 0 then s else MapAt(FinishInOrder(s, k - 1, finish), k - 1, finish)
  }

  /** The value an entry reaches after the updates `us`, applied first to
      last. */
  function Replay<E, U>(e: E, us: seq<U>, apply: (E, U) -> E): E
  {
    if |us| == 0 then e else apply(Replay(e, us[..|us| - 1], apply), us[|us| - 1])
  }

  /** One more page update at index `i` (a `MapAt` applying `u`) extends the
      replay of that entry by `u` and leaves every other entry alone. */
  lemma ReplayStep<E, U>(s: seq<E>, i: int, us: seq<U>, u: U, apply: (E, U) -> E)
    ensures MapAt(MapAt(s, i, e => Replay(e, us, apply)), i, e => apply(e, u))
         == MapAt(s, i, e => Replay(e, us + [u], apply))
  {
    assert (us + [u])[..|us + [u]| - 1] == us;
  }
}
