/** Per-key coherence of a history: one order of the reads and writes of a key explains them all. */
module Coherence {
  import opened Stores
  import opened ConsistencyChecker

  /** The PUT at `w` is the one the GET at `r` returned. */
  ghost predicate ReadsFrom<K, V>(h: seq<Tx<K, V>>, w: nat, r: nat) {
    w < r < |h| && h[r].op.Get? && Writes(h[w], h[r].op.key) && Version(h[w].op.value, h[w].id) == h[r].op.read
  }

  lemma ReadsFromVersion<K(!new), V>(h: seq<Tx<K, V>>, w: nat, r: nat)
    requires UniqueIds(h) && Explained(h) && ReadsFrom(h, w, r)
    ensures Ver(h, w) == Ver(h, r)
  {
    var x := CarriedPosition(h, r);
    SameId(h, x, w);
  }

  lemma EveryReadHasOneSource<K(!new), V>(h: seq<Tx<K, V>>, r: nat) returns (w: nat)
    requires UniqueIds(h) && Explained(h) && r < |h| && h[r].op.Get?
    ensures ReadsFrom(h, w, r) && forall x: nat :: ReadsFrom(h, x, r) ==> x == w
  {
    assert ExplainedAt(h, r);
    w := PutAt(h[..r], h[r].op.key, h[r].op.number - 1);
    forall x: nat | ReadsFrom(h, x, r) ensures x == w {
      SameId(h, x, w);
    }
  }

  /** `before` is a total order of the transactions on `k` that extends every session's order and
      the history order of PUTs, and in which every GET returns the PUT immediately before it. */
  ghost predicate IsCoherent<K, V>(h: seq<Tx<K, V>>, k: K, before: (nat, nat) -> bool) {
    && (forall i: nat | i < |h| && h[i].op.key == k :: !before(i, i))
    && (forall i: nat, j: nat | i < j < |h| && h[i].op.key == k && h[j].op.key == k :: before(i, j) != before(j, i))
    && (forall i: nat, j: nat, l: nat | i < |h| && j < |h| && l < |h| && before(i, j) && before(j, l) :: before(i, l))
    && (forall i: nat, j: nat | SameSessionKey(h, i, j) && h[i].op.key == k :: before(i, j))
    && (forall i: nat, j: nat | i < j < |h| && Writes(h[i], k) && Writes(h[j], k) :: before(i, j))
    && (forall r: nat | r < |h| && h[r].op.Get? && h[r].op.key == k :: LastPutBefore(h, k, before, r))
  }

  ghost predicate LastPutBefore<K, V>(h: seq<Tx<K, V>>, k: K, before: (nat, nat) -> bool, r: nat)
    requires r < |h|
  {
    exists w: nat :: ReadsFrom(h, w, r) && before(w, r) &&
      forall x: nat :: x < |h| && Writes(h[x], k) && before(x, r) ==> x == w || before(x, w)
  }

  /** Version first, history position second. */
  ghost function ByVersion<K, V>(h: seq<Tx<K, V>>): (nat, nat) -> bool {
    (i: nat, j: nat) => i < |h| && j < |h| && (Ver(h, i) < Ver(h, j) || (Ver(h, i) == Ver(h, j) && i < j))
  }

  lemma CoherentOrderExists<K(!new), V>(h: seq<Tx<K, V>>, k: K)
    requires UniqueIds(h) && Explained(h) && SessionMonotone(h)
    ensures IsCoherent(h, k, ByVersion(h))
  {
    var before := ByVersion(h);
    forall i: nat, j: nat | i < j < |h| && Writes(h[i], k) && Writes(h[j], k) ensures before(i, j) {
      PutOrder(h, i, j, k);
    }
    forall r: nat | r < |h| && h[r].op.Get? && h[r].op.key == k ensures LastPutBefore(h, k, before, r) {
      var w := EveryReadHasOneSource(h, r);
      ReadsFromVersion(h, w, r);
      forall x: nat | x < |h| && Writes(h[x], k) && before(x, r) ensures x == w || before(x, w) {
        PutOrder(h, x, w, k);
      }
    }
  }
}
