/** The multi-version store as a value: one global history, a version list per key and a
    transaction list per session, with the two state changes a call can make under the lock. */
module Stores {

  type Session = int
  type TxId = int

  /** One stored version of a key: the value and the transaction that wrote it.
      A GET candidate carries exactly this pair. */
  datatype Version<V> = Version(value: V, writer: TxId)

  /** `number` is the 1-based version number recorded in a GET response. */
  datatype Op<K, V> =
    | Get(key: K, read: Version<V>, number: int)
    | Put(key: K, value: V)

  datatype Tx<K, V> = Tx(id: TxId, session: Session, op: Op<K, V>)

  datatype Store<K, V> = Store(
    kvMap: map<K, seq<Version<V>>>,
    history: seq<Tx<K, V>>,
    sessionOrder: map<Session, seq<Tx<K, V>>>)

  function Empty<K, V>(): Store<K, V> {
    Store(map[], [], map[])
  }

  function Versions<K, V>(st: Store<K, V>, k: K): seq<Version<V>> {
    if k in st.kvMap then st.kvMap[k] else []
  }

  function SessionHistory<K, V>(st: Store<K, V>, s: Session): seq<Tx<K, V>> {
    if s in st.sessionOrder then st.sessionOrder[s] else []
  }

  function CommitTx<K, V>(st: Store<K, V>, tx: Tx<K, V>): Store<K, V> {
    st.(history := st.history + [tx],
        sessionOrder := st.sessionOrder[tx.session := SessionHistory(st, tx.session) + [tx]])
  }

  /** The critical section of a PUT: append the version, then log the transaction. */
  function CommitPut<K, V>(st: Store<K, V>, id: TxId, s: Session, k: K, v: V): Store<K, V> {
    CommitTx(st.(kvMap := st.kvMap[k := Versions(st, k) + [Version(v, id)]]), Tx(id, s, Put(k, v)))
  }

  /** The critical section of a GET that was answered with version `n` (0-based) of `k`. */
  function CommitGet<K, V>(st: Store<K, V>, id: TxId, s: Session, k: K, n: nat): Store<K, V>
    requires n < |Versions(st, k)|
  {
    CommitTx(st, Tx(id, s, Get(k, Versions(st, k)[n], n + 1)))
  }

  /** The newest value of every key. */
  function Contents<K, V>(st: Store<K, V>): map<K, V> {
    map k | k in st.kvMap && st.kvMap[k] != [] :: st.kvMap[k][|st.kvMap[k]| - 1].value
  }

  // ---------------------------------------------------------------- projections of the history

  predicate Writes<K(==), V>(tx: Tx<K, V>, k: K) {
    tx.op.Put? && tx.op.key == k
  }

  function PutsOn<K(==), V>(h: seq<Tx<K, V>>, k: K): seq<Version<V>> {
    if h == [] then [] else
      var tx := h[|h| - 1];
      PutsOn(h[..|h| - 1], k) + if Writes(tx, k) then [Version(tx.op.value, tx.id)] else []
  }

  function OfSession<K, V>(h: seq<Tx<K, V>>, s: Session): seq<Tx<K, V>> {
    if h == [] then [] else
      OfSession(h[..|h| - 1], s) + if h[|h| - 1].session == s then [h[|h| - 1]] else []
  }

  ghost function KeysPut<K, V>(h: seq<Tx<K, V>>): set<K> {
    set i | 0 <= i < |h| && h[i].op.Put? :: h[i].op.key
  }

  /** The 0-based version of its key that transaction `i` wrote or read. */
  function Ver<K(==), V>(h: seq<Tx<K, V>>, i: nat): int
    requires i < |h|
  {
    if h[i].op.Put? then |PutsOn(h[..i], h[i].op.key)| else h[i].op.number - 1
  }

  // ---------------------------------------------------------------- invariants

  ghost predicate HasId<K, V>(h: seq<Tx<K, V>>, id: TxId) {
    exists i :: 0 <= i < |h| && h[i].id == id
  }

  ghost predicate DistinctIds<K, V>(h: seq<Tx<K, V>>, i: nat, j: nat) {
    i < j < |h| ==> h[i].id != h[j].id
  }

  ghost predicate UniqueIds<K, V>(h: seq<Tx<K, V>>) {
    forall i: nat, j: nat :: DistinctIds(h, i, j)
  }

  lemma SameId<K, V>(h: seq<Tx<K, V>>, i: nat, j: nat)
    requires UniqueIds(h) && i < |h| && j < |h| && h[i].id == h[j].id
    ensures i == j
  {
    assert DistinctIds(h, i, j) && DistinctIds(h, j, i);
  }

  /** Both indexes are the in-order projections of the one log. */
  ghost predicate IndexesAgree<K(!new), V>(st: Store<K, V>) {
    && (forall k :: Versions(st, k) == PutsOn(st.history, k))
    && (forall k :: k in st.kvMap ==> st.kvMap[k] != [])
    && (forall s :: SessionHistory(st, s) == OfSession(st.history, s))
  }

  /** The GET at `r` returned a version of its key that was already in the list when it committed. */
  ghost predicate ExplainedAt<K, V>(h: seq<Tx<K, V>>, r: nat) {
    r < |h| && h[r].op.Get? ==>
      var ps := PutsOn(h[..r], h[r].op.key);
      1 <= h[r].op.number <= |ps| && ps[h[r].op.number - 1] == h[r].op.read
  }

  ghost predicate Explained<K, V>(h: seq<Tx<K, V>>) {
    forall r: nat :: ExplainedAt(h, r)
  }

  ghost predicate SameSessionKey<K, V>(h: seq<Tx<K, V>>, i: nat, j: nat) {
    i < j < |h| && h[i].session == h[j].session && h[i].op.key == h[j].op.key
  }

  /** No session ever goes back to an older version of a key. */
  ghost predicate SessionMonotone<K, V>(h: seq<Tx<K, V>>) {
    forall i: nat, j: nat :: SameSessionKey(h, i, j) ==> Ver(h, i) <= Ver(h, j)
  }

  ghost predicate Indexed<K(!new), V>(st: Store<K, V>) {
    UniqueIds(st.history) && IndexesAgree(st)
  }

  ghost predicate WellFormed<K(!new), V>(st: Store<K, V>) {
    Indexed(st) && Explained(st.history)
  }

  ghost predicate SessionSafe<K(!new), V>(st: Store<K, V>) {
    WellFormed(st) && SessionMonotone(st.history)
  }

  // ---------------------------------------------------------------- projections: basic facts

  lemma Appended<K, V>(h: seq<Tx<K, V>>, tx: Tx<K, V>)
    ensures forall k :: PutsOn(h + [tx], k) == PutsOn(h, k) + if Writes(tx, k) then [Version(tx.op.value, tx.id)] else []
    ensures forall s :: OfSession(h + [tx], s) == OfSession(h, s) + if tx.session == s then [tx] else []
    ensures forall i: nat :: i < |h| ==> Ver(h + [tx], i) == Ver(h, i)
    ensures tx.op.Put? ==> Ver(h + [tx], |h|) == |PutsOn(h, tx.op.key)|
    ensures forall i :: 0 <= i <= |h| ==> (h + [tx])[..i] == h[..i]
  {
    assert (h + [tx])[..|h|] == h;
    forall i | 0 <= i <= |h| ensures (h + [tx])[..i] == h[..i] {}
  }

  /** The version list of a key only ever grows at its end. */
  lemma {:induction false} PutsOnPrefix<K, V>(h: seq<Tx<K, V>>, a: nat, b: nat, k: K)
    requires a <= b <= |h|
    ensures PutsOn(h[..a], k) <= PutsOn(h[..b], k)
    decreases b
  {
    if a < b {
      assert h[..b][..b - 1] == h[..b - 1];
      PutsOnPrefix(h, a, b - 1, k);
    }
  }

  /** A PUT sits in its key's version list at its own version index. */
  lemma {:induction false} PutVersion<K, V>(h: seq<Tx<K, V>>, w: nat, k: K)
    requires w < |h| && Writes(h[w], k)
    ensures 0 <= Ver(h, w) < |PutsOn(h, k)|
    ensures PutsOn(h, k)[Ver(h, w)] == Version(h[w].op.value, h[w].id)
  {
    assert h[..w + 1][..w] == h[..w] && h[..|h|] == h;
    PutsOnPrefix(h, w + 1, |h|, k);
  }

  /** Version indexes order the PUTs of a key exactly as the history does. */
  lemma PutOrder<K, V>(h: seq<Tx<K, V>>, w: nat, x: nat, k: K)
    requires w < |h| && x < |h| && Writes(h[w], k) && Writes(h[x], k)
    ensures Ver(h, w) < Ver(h, x) <==> w < x
    ensures Ver(h, w) == Ver(h, x) <==> w == x
  {
    var lo, hi := if w < x then w else x, if w < x then x else w;
    if lo < hi {
      assert h[..lo + 1][..lo] == h[..lo];
      PutsOnPrefix(h, lo + 1, hi, k);
    }
  }

  /** Every entry of a version list was put by one transaction of the history. */
  lemma {:induction false} PutAt<K, V>(h: seq<Tx<K, V>>, k: K, n: nat) returns (w: nat)
    requires n < |PutsOn(h, k)|
    ensures w < |h| && Writes(h[w], k) && Ver(h, w) == n
    ensures PutsOn(h, k)[n] == Version(h[w].op.value, h[w].id)
  {
    var front := h[..|h| - 1];
    if n < |PutsOn(front, k)| {
      w := PutAt(front, k, n);
      assert front[..w] == h[..w];
    } else {
      w := |h| - 1;
    }
  }

  lemma {:induction false} OfSessionMember<K, V>(h: seq<Tx<K, V>>, s: Session, tx: Tx<K, V>)
    ensures tx in OfSession(h, s) <==> exists i :: 0 <= i < |h| && h[i] == tx && tx.session == s
  {
    if h != [] {
      var front := h[..|h| - 1];
      OfSessionMember(front, s, tx);
      assert forall i :: 0 <= i < |front| ==> front[i] == h[i];
    }
  }

  /** Distinct keys ever put are exactly the keys of the store, so `get_size` counts them. */
  lemma {:induction false} SizeCountsKeysPut<K(!new), V>(st: Store<K, V>)
    requires IndexesAgree(st)
    ensures st.kvMap.Keys == KeysPut(st.history)
    ensures |st.kvMap| == |KeysPut(st.history)|
  {
    var h := st.history;
    forall k ensures k in st.kvMap <==> k in KeysPut(h) {
      if k in st.kvMap {
        assert Versions(st, k) == PutsOn(h, k);
        var w := PutAt(h, k, 0);
      }
      if k in KeysPut(h) {
        var i :| 0 <= i < |h| && h[i].op.Put? && h[i].op.key == k;
        PutVersion(h, i, k);
        assert Versions(st, k) == PutsOn(h, k);
      }
    }
  }

  // ---------------------------------------------------------------- what every commit keeps

  /** Logging one transaction keeps the indexes, given the version lists already account for it. */
  lemma CommitTxKeepsIndexed<K(!new), V>(h: seq<Tx<K, V>>, st: Store<K, V>, tx: Tx<K, V>)
    requires UniqueIds(h) && !HasId(h, tx.id) && st.history == h
    requires forall k :: k in st.kvMap ==> st.kvMap[k] != []
    requires forall k :: Versions(st, k) == PutsOn(h, k) + if Writes(tx, k) then [Version(tx.op.value, tx.id)] else []
    requires forall s :: SessionHistory(st, s) == OfSession(h, s)
    ensures Indexed(CommitTx(st, tx))
  {
    var st' := CommitTx(st, tx);
    Appended(h, tx);
    AppendKeepsUnique(h, tx);
    forall k ensures Versions(st', k) == PutsOn(st'.history, k) {
      assert Versions(st', k) == Versions(st, k);
    }
    forall s ensures SessionHistory(st', s) == OfSession(st'.history, s) {
      assert SessionHistory(st, s) == OfSession(h, s);
    }
  }

  lemma AppendKeepsUnique<K, V>(h: seq<Tx<K, V>>, tx: Tx<K, V>)
    requires UniqueIds(h) && !HasId(h, tx.id)
    ensures UniqueIds(h + [tx])
  {
    forall i: nat, j: nat ensures DistinctIds(h + [tx], i, j) {
      assert DistinctIds(h, i, j);
    }
  }

  lemma AppendKeepsExplained<K, V>(h: seq<Tx<K, V>>, tx: Tx<K, V>)
    requires Explained(h)
    requires tx.op.Get? ==> 1 <= tx.op.number <= |PutsOn(h, tx.op.key)|
                            && PutsOn(h, tx.op.key)[tx.op.number - 1] == tx.op.read
    ensures Explained(h + [tx])
  {
    forall r: nat ensures ExplainedAt(h + [tx], r) {
      if r < |h| {
        assert ExplainedAt(h, r);
        assert (h + [tx])[..r] == h[..r];
      } else if r == |h| {
        assert (h + [tx])[..r] == h;
      }
    }
  }

  lemma PutKeepsIndexed<K(!new), V>(st: Store<K, V>, id: TxId, s: Session, k: K, v: V)
    requires Indexed(st) && !HasId(st.history, id)
    ensures Indexed(CommitPut(st, id, s, k, v))
  {
    var tx := Tx(id, s, Put(k, v));
    var listed := st.(kvMap := st.kvMap[k := Versions(st, k) + [Version(v, id)]]);
    forall k' ensures Versions(listed, k') == PutsOn(st.history, k') + if Writes(tx, k') then [Version(v, id)] else [] {
      assert Versions(st, k') == PutsOn(st.history, k');
    }
    forall s' ensures SessionHistory(listed, s') == OfSession(st.history, s') {
      assert SessionHistory(st, s') == OfSession(st.history, s');
    }
    CommitTxKeepsIndexed(st.history, listed, tx);
  }

  lemma PutKeepsWellFormed<K(!new), V>(st: Store<K, V>, id: TxId, s: Session, k: K, v: V)
    requires Indexed(st) && !HasId(st.history, id)
    ensures Indexed(CommitPut(st, id, s, k, v))
    ensures Explained(st.history) ==> Explained(CommitPut(st, id, s, k, v).history)
  {
    PutKeepsIndexed(st, id, s, k, v);
    if Explained(st.history) {
      AppendKeepsExplained(st.history, Tx(id, s, Put(k, v)));
    }
  }

  lemma GetKeepsWellFormed<K(!new), V>(st: Store<K, V>, id: TxId, s: Session, k: K, n: nat)
    requires Indexed(st) && !HasId(st.history, id) && n < |Versions(st, k)|
    ensures Indexed(CommitGet(st, id, s, k, n))
    ensures Explained(st.history) ==> Explained(CommitGet(st, id, s, k, n).history)
  {
    var tx := Tx(id, s, Get(k, Versions(st, k)[n], n + 1));
    CommitTxKeepsIndexed(st.history, st, tx);
    if Explained(st.history) {
      assert Versions(st, k) == PutsOn(st.history, k);
      AppendKeepsExplained(st.history, tx);
    }
  }

  /** A PUT is always newer than anything its session has seen. */
  lemma PutKeepsSessionSafe<K(!new), V>(st: Store<K, V>, id: TxId, s: Session, k: K, v: V)
    requires SessionSafe(st) && !HasId(st.history, id)
    ensures SessionSafe(CommitPut(st, id, s, k, v))
  {
    var h, tx := st.history, Tx(id, s, Put(k, v));
    PutKeepsWellFormed(st, id, s, k, v);
    Appended(h, tx);
    forall i: nat, j: nat | SameSessionKey(h + [tx], i, j) ensures Ver(h + [tx], i) <= Ver(h + [tx], j) {
      if j < |h| {
        assert SameSessionKey(h, i, j);
      } else {
        VerInRange(h, i);
      }
    }
  }

  /** A GET answered at or above the session's floor keeps every session moving forward. */
  lemma GetKeepsSessionSafe<K(!new), V>(st: Store<K, V>, id: TxId, s: Session, k: K, n: nat)
    requires SessionSafe(st) && !HasId(st.history, id)
    requires Floor(st.history, s, k) <= n < |Versions(st, k)|
    ensures SessionSafe(CommitGet(st, id, s, k, n))
  {
    var h, tx := st.history, Tx(id, s, Get(k, Versions(st, k)[n], n + 1));
    GetKeepsWellFormed(st, id, s, k, n);
    Appended(h, tx);
    forall i: nat, j: nat | SameSessionKey(h + [tx], i, j) ensures Ver(h + [tx], i) <= Ver(h + [tx], j) {
      if j < |h| {
        assert SameSessionKey(h, i, j);
      } else {
        FloorIsLargest(h, s, k);
      }
    }
  }

  lemma VerInRange<K, V>(h: seq<Tx<K, V>>, i: nat)
    requires i < |h| && Explained(h)
    ensures 0 <= Ver(h, i) < |PutsOn(h, h[i].op.key)|
  {
    assert ExplainedAt(h, i);
    assert h[..|h|] == h;
    PutsOnPrefix(h, i, |h|, h[i].op.key);
    if h[i].op.Put? {
      PutVersion(h, i, h[i].op.key);
    }
  }

  // ---------------------------------------------------------------- the session's floor

  ghost predicate Touches<K, V>(h: seq<Tx<K, V>>, i: nat, s: Session, k: K) {
    i < |h| && h[i].session == s && h[i].op.key == k
  }

  /** The largest version index of `k` that session `s` has read or written; 0 when it has none. */
  function Floor<K(==), V>(h: seq<Tx<K, V>>, s: Session, k: K): int {
    if h == [] then 0 else
      var f := Floor(h[..|h| - 1], s, k);
      if h[|h| - 1].session == s && h[|h| - 1].op.key == k && f < Ver(h, |h| - 1) then Ver(h, |h| - 1) else f
  }

  lemma {:induction false} FloorIsLargest<K, V>(h: seq<Tx<K, V>>, s: Session, k: K)
    ensures 0 <= Floor(h, s, k)
    ensures forall i: nat :: Touches(h, i, s, k) ==> Ver(h, i) <= Floor(h, s, k)
    ensures Floor(h, s, k) == 0 || exists i: nat :: Touches(h, i, s, k) && Ver(h, i) == Floor(h, s, k)
  {
    if h != [] {
      var front := h[..|h| - 1];
      FloorIsLargest(front, s, k);
      assert h == front + [h[|h| - 1]];
      Appended(front, h[|h| - 1]);
      forall i: nat | Touches(h, i, s, k) ensures Ver(h, i) <= Floor(h, s, k) {
        if i < |front| {
          assert Touches(front, i, s, k);
        }
      }
      if Floor(h, s, k) != 0 {
        if Floor(h, s, k) == Floor(front, s, k) {
          var i: nat :| Touches(front, i, s, k) && Ver(front, i) == Floor(front, s, k);
          assert Touches(h, i, s, k);
        } else {
          assert Touches(h, |h| - 1, s, k);
        }
      }
    }
  }

  /** The newest version is never below any session's floor. */
  lemma NewestIsAboveFloor<K(!new), V>(st: Store<K, V>, s: Session, k: K)
    requires WellFormed(st) && k in st.kvMap
    ensures Floor(st.history, s, k) < |Versions(st, k)|
  {
    var h := st.history;
    FloorIsLargest(h, s, k);
    assert Versions(st, k) == PutsOn(h, k);
    if i: nat :| Touches(h, i, s, k) && Ver(h, i) == Floor(h, s, k) {
      VerInRange(h, i);
    }
  }

  // ---------------------------------------------------------------- contents

  lemma PutUpdatesContents<K, V>(st: Store<K, V>, id: TxId, s: Session, k: K, v: V)
    ensures Contents(CommitPut(st, id, s, k, v)) == Contents(st)[k := v]
  {}

  lemma GetKeepsContents<K, V>(st: Store<K, V>, id: TxId, s: Session, k: K, n: nat)
    requires n < |Versions(st, k)|
    ensures Contents(CommitGet(st, id, s, k, n)) == Contents(st)
    ensures CommitGet(st, id, s, k, n).kvMap == st.kvMap
  {}
}
