/** The causal consistency check, which counts along the whole history, and the simple rule it
    amounts to: a candidate passes exactly when it is not older than what the session has seen. */
module ConsistencyChecker {
  import opened Stores

  /** The PUT a transaction makes its session depend on. */
  function Carried<K, V>(tx: Tx<K, V>): TxId {
    if tx.op.Put? then tx.id else tx.op.read.writer
  }

  function Dependent<K(==), V>(sh: seq<Tx<K, V>>, k: K): set<TxId> {
    set i | 0 <= i < |sh| && sh[i].op.key == k :: Carried(sh[i])
  }

  function Ids<K, V>(h: seq<Tx<K, V>>): set<TxId> {
    set i | 0 <= i < |h| :: h[i].id
  }

  ghost predicate CommittedBy<K, V>(h: seq<Tx<K, V>>, deps: set<TxId>, p: nat, id: TxId) {
    p < |h| && h[p].id == id && deps <= Ids(h[..p + 1])
  }

  /** Everything the session depends on for `k` is committed no later than transaction `id`. */
  ghost predicate Accepts<K, V>(st: Store<K, V>, s: Session, k: K, id: TxId) {
    var deps := Dependent(SessionHistory(st, s), k);
    deps == {} || exists p: nat :: CommittedBy(st.history, deps, p, id)
  }

  /** The check as a test of candidates' writers, for one reader and key. */
  ghost function Acceptor<K, V>(st: Store<K, V>, s: Session, k: K): TxId -> bool {
    id => Accepts(st, s, k, id)
  }

  /** First loop of the check: the PUTs of `k` this session has written or read. */
  method DependentTxs<K(==), V>(sh: seq<Tx<K, V>>, k: K) returns (dependentTxs: set<TxId>)
    ensures dependentTxs == Dependent(sh, k)
  {
    dependentTxs := {};
    for i := 0 to |sh|
      invariant dependentTxs == Dependent(sh[..i], k)
    {
      DependentStep(sh, i, k);
      if sh[i].op.Put? && sh[i].op.key == k {
        dependentTxs := dependentTxs + {sh[i].id};
      } else if sh[i].op.Get? && sh[i].op.key == k {
        dependentTxs := dependentTxs + {sh[i].op.read.writer};
      }
    }
    assert sh[..|sh|] == sh;
  }

  /** Second loop: count set members along the whole history until `id` is met. */
  method AllCommittedBy<K(==), V>(h: seq<Tx<K, V>>, deps: set<TxId>, id: TxId) returns (ok: bool)
    requires UniqueIds(h)
    ensures ok <==> exists p: nat :: CommittedBy(h, deps, p, id)
  {
    var committedCount := 0;
    for i := 0 to |h|
      invariant committedCount == |deps * Ids(h[..i])|
      invariant forall p :: 0 <= p < i ==> h[p].id != id
    {
      CountStep(h, i, deps);
      if h[i].id in deps {
        committedCount := committedCount + 1;
      }
      if h[i].id == id {
        CountedAll(deps, Ids(h[..i + 1]));
        forall p: nat | CommittedBy(h, deps, p, id) ensures p == i {
          SameId(h, p, i);
        }
        assert committedCount == |deps| <==> CommittedBy(h, deps, i, id);
        return committedCount == |deps|;
      }
    }
    return false;
  }

  method IsConsistent<K(==), V>(st: Store<K, V>, s: Session, k: K, id: TxId) returns (ok: bool)
    requires UniqueIds(st.history)
    ensures ok <==> Accepts(st, s, k, id)
  {
    var dependentTxs := DependentTxs(SessionHistory(st, s), k);
    if |dependentTxs| == 0 {
      return true;
    }
    ok := AllCommittedBy(st.history, dependentTxs, id);
  }

  lemma DependentStep<K, V>(sh: seq<Tx<K, V>>, i: nat, k: K)
    requires i < |sh|
    ensures Dependent(sh[..i + 1], k) == Dependent(sh[..i], k) + if sh[i].op.key == k then {Carried(sh[i])} else {}
  {
    forall x | x in Dependent(sh[..i], k) ensures x in Dependent(sh[..i + 1], k) {
      var j :| 0 <= j < i && sh[..i][j].op.key == k && Carried(sh[..i][j]) == x;
      assert sh[..i + 1][j] == sh[j];
    }
    if sh[i].op.key == k {
      assert sh[..i + 1][i] == sh[i];
    }
  }

  lemma NotSeenBefore<K, V>(h: seq<Tx<K, V>>, i: nat)
    requires i < |h| && UniqueIds(h)
    ensures h[i].id !in Ids(h[..i])
  {
    if h[i].id in Ids(h[..i]) {
      var j :| 0 <= j < i && h[..i][j].id == h[i].id;
      SameId(h, j, i);
      assert false;
    }
  }

  lemma IdsStep<K, V>(h: seq<Tx<K, V>>, i: nat)
    requires i < |h|
    ensures Ids(h[..i + 1]) == Ids(h[..i]) + {h[i].id}
  {
    assert h[..i + 1][i] == h[i];
    forall x | x in Ids(h[..i]) ensures x in Ids(h[..i + 1]) {
      var j :| 0 <= j < i && h[..i][j].id == x;
      assert h[..i + 1][j] == h[j];
    }
  }

  lemma CountStep<K, V>(h: seq<Tx<K, V>>, i: nat, deps: set<TxId>)
    requires i < |h| && UniqueIds(h)
    ensures |deps * Ids(h[..i + 1])| == |deps * Ids(h[..i])| + if h[i].id in deps then 1 else 0
  {
    IdsStep(h, i);
    NotSeenBefore(h, i);
    assert deps * Ids(h[..i + 1]) == deps * Ids(h[..i]) + if h[i].id in deps then {h[i].id} else {};
  }

  lemma CountedAll(deps: set<TxId>, seen: set<TxId>)
    ensures |deps * seen| == |deps| <==> deps <= seen
  {
    assert deps == deps * seen + (deps - seen);
    assert deps - seen == {} <==> deps <= seen;
  }

  // ---------------------------------------------------------------- the simple rule

  /** The version a transaction carries was written at the history position of that version. */
  lemma CarriedPosition<K(!new), V>(h: seq<Tx<K, V>>, i: nat) returns (w: nat)
    requires i < |h| && Explained(h)
    ensures w <= i && Writes(h[w], h[i].op.key) && h[w].id == Carried(h[i]) && Ver(h, w) == Ver(h, i)
  {
    if h[i].op.Put? {
      w := i;
    } else {
      assert ExplainedAt(h, i);
      w := PutAt(h[..i], h[i].op.key, h[i].op.number - 1);
      assert h[..i][..w] == h[..w];
    }
  }

  /** The check accepts a version exactly when its index is at or above the session's floor,
      so what it accepts is always a suffix of the key's version list. */
  lemma AcceptsIffAboveFloor<K(!new), V>(st: Store<K, V>, s: Session, k: K, n: nat)
    requires WellFormed(st) && n < |Versions(st, k)|
    ensures Accepts(st, s, k, Versions(st, k)[n].writer) <==> Floor(st.history, s, k) <= n
  {
    var h := st.history;
    assert Versions(st, k) == PutsOn(h, k);
    var w := PutAt(h, k, n);
    var deps := Dependent(SessionHistory(st, s), k);
    FloorIsLargest(h, s, k);
    if Floor(h, s, k) <= n {
      forall x | x in deps ensures x in Ids(h[..w + 1]) {
        var i := DependentPosition(st, s, k, x);
        var q := CarriedPosition(h, i);
        assert Touches(h, i, s, k);
        PutOrder(h, w, q, k);
        assert h[..w + 1][q] == h[q];
      }
      assert CommittedBy(h, deps, w, h[w].id);
    } else {
      var i: nat :| Touches(h, i, s, k) && Ver(h, i) == Floor(h, s, k);
      var q := CarriedPosition(h, i);
      PutOrder(h, w, q, k);
      DependentContains(st, s, k, i);
      forall p: nat ensures !CommittedBy(h, deps, p, h[w].id) {
        if CommittedBy(h, deps, p, h[w].id) {
          SameId(h, p, w);
          assert h[q].id in Ids(h[..w + 1]);
          var j :| 0 <= j < w + 1 && h[..w + 1][j].id == h[q].id;
          SameId(h, j, q);
          assert false;
        }
      }
    }
  }

  lemma DependentPosition<K(!new), V>(st: Store<K, V>, s: Session, k: K, x: TxId) returns (i: nat)
    requires WellFormed(st) && x in Dependent(SessionHistory(st, s), k)
    ensures Touches(st.history, i, s, k) && Carried(st.history[i]) == x
  {
    var sh := SessionHistory(st, s);
    var j :| 0 <= j < |sh| && sh[j].op.key == k && Carried(sh[j]) == x;
    assert sh == OfSession(st.history, s);
    OfSessionMember(st.history, s, sh[j]);
    i :| 0 <= i < |st.history| && st.history[i] == sh[j] && sh[j].session == s;
  }

  lemma DependentContains<K(!new), V>(st: Store<K, V>, s: Session, k: K, i: nat)
    requires WellFormed(st) && Touches(st.history, i, s, k)
    ensures Carried(st.history[i]) in Dependent(SessionHistory(st, s), k)
  {
    var sh := SessionHistory(st, s);
    assert sh == OfSession(st.history, s);
    OfSessionMember(st.history, s, st.history[i]);
    assert st.history[i] in sh;
  }
}
