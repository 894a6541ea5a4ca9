/** Thread names, and choosing some of a set of threads. */
module Threads {
  type Tid = nat

  lemma {:induction false} PickDistinct(threads: set<Tid>, n: nat) returns (ts: seq<Tid>)
    requires n <= |threads|
    ensures |ts| == n && (forall i :: 0 <= i < n ==> ts[i] in threads)
    ensures forall i, j :: 0 <= i < j < n ==> ts[i] != ts[j]
  {
    if n == 0 {
      ts := [];
    } else {
      var t :| t in threads;
      ts := PickDistinct(threads - {t}, n - 1);
      ts := ts + [t];
    }
  }
}
