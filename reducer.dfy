/** The candidate reducer: the size buckets worth hashing. */
module Reducer {

  import opened Base
  import opened Buckets

  /** Keep the buckets whose size is non-zero, lies in `[lo, hi)` and that
      hold more than one path; every other bucket is dropped whole. */
  function Reduce(m: Index, lo: u64, hi: u64): (r: Index)
    ensures forall s :: s in r <==> s in m && s != 0 && lo <= s < hi && |m[s]| > 1
    ensures forall s :: s in r ==> r[s] == m[s]
  {
    map s | s in m && s != 0 && lo <= s < hi && |m[s]| > 1 :: m[s]
  }

  /** Reducing drops buckets and never changes the paths of one it keeps,
      so a map holding each path once still does. */
  lemma ReduceExclusive(m: Index, lo: u64, hi: u64)
    requires Exclusive(m)
    ensures Exclusive(Reduce(m, lo, hi))
  {
  }
}
