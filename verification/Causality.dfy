/** What the consistency check guarantees of causality, what it does not, and exactly when the two agree.
    Transactions are named by their history position; commit order is history order. */
module Causality {
  import opened Stores
  import opened ConsistencyChecker
  import opened ReadSelectors
  import opened Coherence
  import opened StoreRuns

  // ---------------------------------------------------------------- (wr U so)+

  ghost predicate SameSession<K, V>(h: seq<Tx<K, V>>, i: nat, j: nat) {
    i < j < |h| && h[i].session == h[j].session
  }

  /** A write-read edge or a session edge; with `keyed`, only session edges within one key. */
  ghost predicate Edge<K, V>(h: seq<Tx<K, V>>, i: nat, j: nat, keyed: bool) {
    ReadsFrom(h, i, j) || (SameSession(h, i, j) && (keyed ==> h[i].op.key == h[j].op.key))
  }

  ghost predicate IsPath<K, V>(h: seq<Tx<K, V>>, p: seq<nat>, keyed: bool) {
    |p| >= 2 && forall n :: 0 <= n < |p| - 1 ==> Edge(h, p[n], p[n + 1], keyed)
  }

  ghost predicate Reaches<K, V>(h: seq<Tx<K, V>>, i: nat, j: nat, keyed: bool) {
    exists p :: IsPath(h, p, keyed) && p[0] == i && p[|p| - 1] == j
  }

  ghost predicate ReachesOrIs<K, V>(h: seq<Tx<K, V>>, i: nat, j: nat, keyed: bool) {
    i == j || Reaches(h, i, j, keyed)
  }

  lemma ReachesThrough<K, V>(h: seq<Tx<K, V>>, i: nat, j: nat, l: nat, keyed: bool)
    requires ReachesOrIs(h, i, j, keyed) && Edge(h, j, l, keyed)
    ensures Reaches(h, i, l, keyed)
  {
    if i == j {
      assert IsPath(h, [i, l], keyed);
    } else {
      var p :| IsPath(h, p, keyed) && p[0] == i && p[|p| - 1] == j;
      var q := p + [l];
      forall n | 0 <= n < |q| - 1 ensures Edge(h, q[n], q[n + 1], keyed) {
        if n < |p| - 1 {
          assert q[n] == p[n] && q[n + 1] == p[n + 1];
        }
      }
      assert IsPath(h, q, keyed);
    }
  }

  lemma LastEdge<K, V>(h: seq<Tx<K, V>>, i: nat, l: nat, keyed: bool) returns (j: nat)
    requires Reaches(h, i, l, keyed)
    ensures ReachesOrIs(h, i, j, keyed) && Edge(h, j, l, keyed)
  {
    var p :| IsPath(h, p, keyed) && p[0] == i && p[|p| - 1] == l;
    j := p[|p| - 2];
    assert Edge(h, p[|p| - 2], p[|p| - 2 + 1], keyed);
    if |p| > 2 {
      var q := p[..|p| - 1];
      forall n | 0 <= n < |q| - 1 ensures Edge(h, q[n], q[n + 1], keyed) {
        assert q[n] == p[n] && q[n + 1] == p[n + 1];
      }
      assert IsPath(h, q, keyed);
    }
  }

  // ---------------------------------------------------------------- where the causal axiom holds

  lemma EdgeKeepsVersion<K(!new), V>(h: seq<Tx<K, V>>, i: nat, j: nat)
    requires UniqueIds(h) && Explained(h) && SessionMonotone(h) && Edge(h, i, j, true)
    ensures h[i].op.key == h[j].op.key && Ver(h, i) <= Ver(h, j)
  {
    if ReadsFrom(h, i, j) {
      ReadsFromVersion(h, i, j);
    } else {
      assert SameSessionKey(h, i, j);
    }
  }

  lemma {:induction false} PathKeepsVersion<K(!new), V>(h: seq<Tx<K, V>>, p: seq<nat>)
    requires UniqueIds(h) && Explained(h) && SessionMonotone(h) && IsPath(h, p, true)
    ensures p[0] < |h| && p[|p| - 1] < |h|
    ensures h[p[0]].op.key == h[p[|p| - 1]].op.key && Ver(h, p[0]) <= Ver(h, p[|p| - 1])
    decreases |p|
  {
    assert Edge(h, p[0], p[0 + 1], true);
    EdgeKeepsVersion(h, p[0], p[1]);
    if |p| > 2 {
      var q := p[1..];
      forall n | 0 <= n < |q| - 1 ensures Edge(h, q[n], q[n + 1], true) {
        assert q[n] == p[n + 1] && q[n + 1] == p[n + 1 + 1];
      }
      PathKeepsVersion(h, q);
    }
  }

  /** If `t1` writes the key that `t3` reads from `t2`, and `t1` reaches `t3` by write-read edges and
      session edges within one key, then `t1` is `t2` or is committed before it. */
  lemma KeyedCausalAxiom<K(!new), V>(h: seq<Tx<K, V>>, t1: nat, t2: nat, t3: nat)
    requires UniqueIds(h) && Explained(h) && SessionMonotone(h)
    requires Reaches(h, t1, t3, true) && t1 < |h| && h[t1].op.Put? && ReadsFrom(h, t2, t3)
    ensures t1 <= t2
  {
    var p :| IsPath(h, p, true) && p[0] == t1 && p[|p| - 1] == t3;
    PathKeepsVersion(h, p);
    ReadsFromVersion(h, t2, t3);
    PutOrder(h, t2, t1, h[t3].op.key);
  }

  /** The full axiom at one GET: no PUT of its key in its causal past is newer than what it read. */
  ghost predicate CausalAt<K, V>(h: seq<Tx<K, V>>, t3: nat) {
    forall t1: nat, t2: nat ::
      ReadsFrom(h, t2, t3) && t1 < |h| && Writes(h[t1], h[t3].op.key) && Reaches(h, t1, t3, false) ==> t1 <= t2
  }

  ghost predicate OneKeyPerSession<K, V>(h: seq<Tx<K, V>>) {
    forall i: nat, j: nat :: SameSession(h, i, j) ==> h[i].op.key == h[j].op.key
  }

  /** When every session keeps to one key, the full axiom holds of every GET. */
  lemma OneKeySessionsAreCausal<K(!new), V>(h: seq<Tx<K, V>>, t3: nat)
    requires UniqueIds(h) && Explained(h) && SessionMonotone(h) && OneKeyPerSession(h)
    ensures CausalAt(h, t3)
  {
    forall t1: nat, t2: nat |
      ReadsFrom(h, t2, t3) && t1 < |h| && Writes(h[t1], h[t3].op.key) && Reaches(h, t1, t3, false)
      ensures t1 <= t2
    {
      var p :| IsPath(h, p, false) && p[0] == t1 && p[|p| - 1] == t3;
      forall n | 0 <= n < |p| - 1 ensures Edge(h, p[n], p[n + 1], true) {
        assert Edge(h, p[n], p[n + 1], false);
      }
      assert IsPath(h, p, true);
      KeyedCausalAxiom(h, t1, t2, t3);
    }
  }

  // ---------------------------------------------------------------- the causal past, computed

  /** The last position of transaction `id`, or -1. */
  function PositionOf<K, V>(h: seq<Tx<K, V>>, id: TxId): int {
    if h == [] then -1 else if h[|h| - 1].id == id then |h| - 1 else PositionOf(h[..|h| - 1], id)
  }

  /** The last position of session `s`, or -1. */
  function LastOf<K, V>(h: seq<Tx<K, V>>, s: Session): int {
    if h == [] then -1 else if h[|h| - 1].session == s then |h| - 1 else LastOf(h[..|h| - 1], s)
  }

  lemma {:induction false} PositionOfIsPosition<K, V>(h: seq<Tx<K, V>>, id: TxId)
    ensures -1 <= PositionOf(h, id) < |h|
    ensures PositionOf(h, id) >= 0 ==> h[PositionOf(h, id)].id == id
    ensures forall i :: PositionOf(h, id) < i < |h| ==> h[i].id != id
  {
    if h != [] && h[|h| - 1].id != id {
      PositionOfIsPosition(h[..|h| - 1], id);
      assert forall i :: 0 <= i < |h| - 1 ==> h[..|h| - 1][i] == h[i];
    }
  }

  lemma {:induction false} LastOfIsLast<K, V>(h: seq<Tx<K, V>>, s: Session)
    ensures -1 <= LastOf(h, s) < |h|
    ensures LastOf(h, s) >= 0 ==> h[LastOf(h, s)].session == s
    ensures forall i :: LastOf(h, s) < i < |h| ==> h[i].session != s
  {
    if h != [] && h[|h| - 1].session != s {
      LastOfIsLast(h[..|h| - 1], s);
      assert forall i :: 0 <= i < |h| - 1 ==> h[..|h| - 1][i] == h[i];
    }
  }

  function Max(a: int, b: int): int {
    if a < b then b else a
  }

  /** The newest PUT of `k` that is transaction `i` or in its causal past, by position; -1 if none. */
  function Known<K(==), V>(h: seq<Tx<K, V>>, i: nat, k: K): int
    requires i < |h|
    decreases i
  {
    PositionBounds(h, i);
    var own := if Writes(h[i], k) then i as int else -1;
    var source := if h[i].op.Get? then PositionOf(h[..i], h[i].op.read.writer) else -1;
    var previous := LastOf(h[..i], h[i].session);
    Max(own, Max(if source >= 0 then Known(h, source, k) else -1, if previous >= 0 then Known(h, previous, k) else -1))
  }

  lemma PositionBounds<K, V>(h: seq<Tx<K, V>>, i: nat)
    requires i < |h|
    ensures h[i].op.Get? ==> -1 <= PositionOf(h[..i], h[i].op.read.writer) < i
    ensures -1 <= LastOf(h[..i], h[i].session) < i
  {
    LastOfIsLast(h[..i], h[i].session);
    if h[i].op.Get? {
      PositionOfIsPosition(h[..i], h[i].op.read.writer);
    }
  }

  lemma SourcePosition<K(!new), V>(h: seq<Tx<K, V>>, w: nat, r: nat)
    requires UniqueIds(h) && ReadsFrom(h, w, r)
    ensures PositionOf(h[..r], h[r].op.read.writer) == w
  {
    PositionOfIsPosition(h[..r], h[r].op.read.writer);
    assert h[..r][w] == h[w];
    var p := PositionOf(h[..r], h[r].op.read.writer);
    assert h[..r][p] == h[p];
    SameId(h, p, w);
  }

  /** `Known` names a PUT of the causal past ... */
  lemma {:induction false} KnownIsReached<K(!new), V>(h: seq<Tx<K, V>>, i: nat, k: K)
    requires UniqueIds(h) && Explained(h) && i < |h|
    ensures -1 <= Known(h, i, k) <= i
    ensures Known(h, i, k) >= 0 ==> Writes(h[Known(h, i, k)], k) && ReachesOrIs(h, Known(h, i, k), i, false)
    decreases i
  {
    PositionBounds(h, i);
    var previous := LastOf(h[..i], h[i].session);
    if h[i].op.Get? {
      var w := EveryReadHasOneSource(h, i);
      SourcePosition(h, w, i);
      KnownIsReached(h, w, k);
      if Known(h, w, k) >= 0 {
        ReachesThrough(h, Known(h, w, k), w, i, false);
      }
    }
    if previous >= 0 {
      LastOfIsLast(h[..i], h[i].session);
      assert SameSession(h, previous, i);
      KnownIsReached(h, previous, k);
      if Known(h, previous, k) >= 0 {
        ReachesThrough(h, Known(h, previous, k), previous, i, false);
      }
    }
  }

  /** ... and no PUT of the causal past is newer. */
  lemma {:induction false} KnownIsNewest<K(!new), V>(h: seq<Tx<K, V>>, i: nat, k: K, w: nat)
    requires UniqueIds(h) && Explained(h) && i < |h|
    requires w < |h| && Writes(h[w], k) && ReachesOrIs(h, w, i, false)
    ensures w <= Known(h, i, k)
    decreases i
  {
    PositionBounds(h, i);
    if w != i {
      var j := LastEdge(h, w, i, false);
      if ReadsFrom(h, j, i) {
        SourcePosition(h, j, i);
        KnownIsNewest(h, j, k, w);
      } else {
        LastOfIsLast(h[..i], h[i].session);
        var previous := LastOf(h[..i], h[i].session);
        assert h[..i][j] == h[j];
        if j < previous {
          assert SameSession(h, j, previous);
          ReachesThrough(h, w, j, previous, false);
        }
        KnownIsNewest(h, previous, k, w);
      }
    }
  }

  lemma {:induction false} KnownIsStable<K, V>(h: seq<Tx<K, V>>, tx: Tx<K, V>, i: nat, k: K)
    requires i < |h|
    ensures Known(h + [tx], i, k) == Known(h, i, k)
    decreases i
  {
    PositionBounds(h, i);
    assert (h + [tx])[..i] == h[..i];
    if h[i].op.Get? && PositionOf(h[..i], h[i].op.read.writer) >= 0 {
      KnownIsStable(h, tx, PositionOf(h[..i], h[i].op.read.writer), k);
    }
    if LastOf(h[..i], h[i].session) >= 0 {
      KnownIsStable(h, tx, LastOf(h[..i], h[i].session), k);
    }
  }

  // ---------------------------------------------------------------- the check against the full axiom

  /** The oldest version of `k` that full causality would still let session `s` read. */
  function CausalFloor<K(==), V>(h: seq<Tx<K, V>>, s: Session, k: K): int {
    LastOfIsLast(h, s);
    var last := LastOf(h, s);
    if last < 0 then 0 else
      var w := Known(h, last, k);
      if 0 <= w < |h| then Ver(h, w) else 0
  }

  /** Would answering session `s` with version `n` of `k` satisfy the full `(wr U so)+` axiom? */
  ghost predicate Permitted<K, V>(st: Store<K, V>, id: TxId, s: Session, k: K, n: nat)
    requires n < |Versions(st, k)|
  {
    CausalAt(CommitGet(st, id, s, k, n).history, |st.history|)
  }

  /** The axiom at a GET, decided by the newest PUT of its causal past. */
  lemma CausalAtIffKnown<K(!new), V>(h: seq<Tx<K, V>>, w: nat, r: nat)
    requires UniqueIds(h) && Explained(h) && ReadsFrom(h, w, r)
    ensures CausalAt(h, r) <==> Known(h, r, h[r].op.key) <= w
  {
    var k := h[r].op.key;
    KnownIsReached(h, r, k);
    if Known(h, r, k) <= w {
      forall t1: nat, t2: nat | ReadsFrom(h, t2, r) && t1 < |h| && Writes(h[t1], k) && Reaches(h, t1, r, false)
        ensures t1 <= t2
      {
        SourcePosition(h, t2, r);
        SourcePosition(h, w, r);
        KnownIsNewest(h, r, k, t1);
      }
    }
  }

  /** A PUT is the newest PUT of its key that it knows. */
  lemma PutKnowsItself<K(!new), V>(h: seq<Tx<K, V>>, w: nat, k: K)
    requires UniqueIds(h) && Explained(h) && w < |h| && Writes(h[w], k)
    ensures Known(h, w, k) == w
  {
    KnownIsReached(h, w, k);
    KnownIsNewest(h, w, k, w);
  }

  lemma KnownOfLastGet<K, V>(h: seq<Tx<K, V>>, tx: Tx<K, V>, w: nat, k: K)
    requires tx.op.Get? && w < |h| && PositionOf(h, tx.op.read.writer) == w
    requires Known(h + [tx], w, k) == w
    ensures var last := LastOf(h, tx.session);
            -1 <= last < |h| &&
            Known(h + [tx], |h|, k) == Max(w, if last >= 0 then Known(h, last, k) else -1)
  {
    assert (h + [tx])[..|h|] == h;
    LastOfIsLast(h, tx.session);
    if LastOf(h, tx.session) >= 0 {
      KnownIsStable(h, tx, LastOf(h, tx.session), k);
    }
  }

  /** What a GET that is answered with the PUT at `w` newly knows of its key. */
  lemma KnownAfterGet<K(!new), V>(h: seq<Tx<K, V>>, tx: Tx<K, V>, w: nat)
    requires UniqueIds(h + [tx]) && Explained(h + [tx]) && ReadsFrom(h + [tx], w, |h|)
    ensures var last := LastOf(h, tx.session);
            -1 <= last < |h| &&
            Known(h + [tx], |h|, tx.op.key) == Max(w, if last >= 0 then Known(h, last, tx.op.key) else -1)
  {
    assert (h + [tx])[..|h|] == h;
    SourcePosition(h + [tx], w, |h|);
    PutKnowsItself(h + [tx], w, tx.op.key);
    KnownOfLastGet(h, tx, w, tx.op.key);
  }

  lemma CausalFloorIsVersion<K(!new), V>(h: seq<Tx<K, V>>, s: Session, k: K, w: nat)
    requires UniqueIds(h) && Explained(h) && w < |h| && Writes(h[w], k)
    ensures var last := LastOf(h, s);
            -1 <= last < |h| &&
            (CausalFloor(h, s, k) <= Ver(h, w) <==> (if last >= 0 then Known(h, last, k) else -1) <= w)
  {
    LastOfIsLast(h, s);
    PutVersion(h, w, k);
    if LastOf(h, s) >= 0 {
      KnownIsReached(h, LastOf(h, s), k);
      if Known(h, LastOf(h, s), k) >= 0 {
        PutOrder(h, w, Known(h, LastOf(h, s), k), k);
      }
    }
  }

  lemma PermittedIffAboveCausalFloor<K(!new), V>(st: Store<K, V>, id: TxId, s: Session, k: K, n: nat)
    requires WellFormed(st) && !HasId(st.history, id) && n < |Versions(st, k)|
    ensures Permitted(st, id, s, k, n) <==> CausalFloor(st.history, s, k) <= n
  {
    var h := st.history;
    var tx := Tx(id, s, Get(k, Versions(st, k)[n], n + 1));
    GetKeepsWellFormed(st, id, s, k, n);
    assert Versions(st, k) == PutsOn(h, k);
    var w := PutAt(h, k, n);
    assert ReadsFrom(h + [tx], w, |h|);
    CausalAtIffKnown(h + [tx], w, |h|);
    KnownAfterGet(h, tx, w);
    CausalFloorIsVersion(h, s, k, w);
  }

  /** Whatever full causality permits, the check accepts. */
  lemma NothingPermittedIsLost<K(!new), V>(st: Store<K, V>, id: TxId, s: Session, k: K, n: nat)
    requires WellFormed(st) && !HasId(st.history, id) && n < |Versions(st, k)| && Permitted(st, id, s, k, n)
    ensures Accepts(st, s, k, Versions(st, k)[n].writer)
  {
    PermittedIffAboveCausalFloor(st, id, s, k, n);
    FloorBelowCausalFloor(st, s, k);
    AcceptsIffAboveFloor(st, s, k, n);
  }

  /** What a session has touched of a key is in its causal past. */
  lemma TouchedIsKnown<K(!new), V>(h: seq<Tx<K, V>>, s: Session, k: K, i: nat) returns (q: nat)
    requires UniqueIds(h) && Explained(h) && Touches(h, i, s, k)
    ensures 0 <= LastOf(h, s) < |h| && q < |h| && Writes(h[q], k) && Ver(h, q) == Ver(h, i)
    ensures q <= Known(h, LastOf(h, s), k)
  {
    LastOfIsLast(h, s);
    var last := LastOf(h, s);
    q := CarriedPosition(h, i);
    if h[i].op.Get? {
      var w := EveryReadHasOneSource(h, i);
      SameId(h, w, q);
      ReachesThrough(h, q, q, i, false);
    } else {
      SameId(h, q, i);
    }
    if i < last {
      assert SameSession(h, i, last);
      ReachesThrough(h, q, i, last, false);
    }
    KnownIsNewest(h, last, k, q);
  }

  lemma FloorBelowCausalFloor<K(!new), V>(st: Store<K, V>, s: Session, k: K)
    requires WellFormed(st)
    ensures 0 <= Floor(st.history, s, k) <= CausalFloor(st.history, s, k)
    ensures Versions(st, k) != [] ==> CausalFloor(st.history, s, k) < |Versions(st, k)|
  {
    var h := st.history;
    FloorIsLargest(h, s, k);
    LastOfIsLast(h, s);
    var last := LastOf(h, s);
    assert Versions(st, k) == PutsOn(h, k);
    if last >= 0 {
      KnownIsReached(h, last, k);
      if Known(h, last, k) >= 0 {
        PutVersion(h, Known(h, last, k), k);
      }
    }
    if Floor(h, s, k) > 0 {
      var i: nat :| Touches(h, i, s, k) && Ver(h, i) == Floor(h, s, k);
      var q := TouchedIsKnown(h, s, k, i);
      PutOrder(h, q, Known(h, last, k), k);
    }
  }

  /** The check decides full causality for a session and key exactly when the session's own floor is
      its causal floor; otherwise it accepts versions that causality forbids. */
  lemma CheckIsExactIff<K(!new), V>(st: Store<K, V>, id: TxId, s: Session, k: K)
    requires WellFormed(st) && !HasId(st.history, id) && k in st.kvMap
    ensures (forall n: nat :: n < |Versions(st, k)| ==>
               (Accepts(st, s, k, Versions(st, k)[n].writer) <==> Permitted(st, id, s, k, n)))
            <==> Floor(st.history, s, k) == CausalFloor(st.history, s, k)
  {
    FloorBelowCausalFloor(st, s, k);
    forall n: nat | n < |Versions(st, k)|
      ensures Accepts(st, s, k, Versions(st, k)[n].writer) <==> Floor(st.history, s, k) <= n
      ensures Permitted(st, id, s, k, n) <==> CausalFloor(st.history, s, k) <= n
    {
      AcceptsIffAboveFloor(st, s, k, n);
      PermittedIffAboveCausalFloor(st, id, s, k, n);
    }
    if Floor(st.history, s, k) < CausalFloor(st.history, s, k) {
      var n: nat := Floor(st.history, s, k);
      assert Accepts(st, s, k, Versions(st, k)[n].writer) && !Permitted(st, id, s, k, n);
    }
  }

  // ---------------------------------------------------------------- over whole runs

  /** Under any selector, a run in which every session keeps to one key is fully causal. */
  lemma OneKeyRunsAreCausal<K(!new), V(!new)>(run: seq<Sys<K, V>>, i: nat)
    requires IsRun(run) && i < |run| && OneKeyPerSession(run[i].store.history)
    ensures forall t3: nat :: CausalAt(run[i].store.history, t3)
  {
    RunIsSafe(run, i);
    forall t3: nat ensures CausalAt(run[i].store.history, t3) {
      OneKeySessionsAreCausal(run[i].store.history, t3);
    }
  }

  /** Session 3 puts x, session 2 overwrites x and then puts y. */
  lemma OverwriteThenSignal() returns (run: seq<Sys<char, int>>)
    ensures IsRun(run) && run[0].policy == Causal
    ensures var s := run[|run| - 1];
            && s.txCount == 3 && s.policy == Causal
            && s.store.kvMap == map['x' := [Version(0, 1), Version(1, 2)], 'y' := [Version(1, 3)]]
            && s.store.history == [Tx(1, 3, Put('x', 0)), Tx(2, 2, Put('x', 1)), Tx(3, 2, Put('y', 1))]
            && SessionHistory(s.store, 1) == []
  {
    run := [Sys(Empty(), Causal, 0, map[], [], [])];
    run := RunPut(run, 3, 'x', 0);
    assert [] + [Version(0, 1)] == [Version(0, 1)] && [] + [Version(1, 3)] == [Version(1, 3)];
    assert run[|run| - 1].store.kvMap == map['x' := [Version(0, 1)]];
    run := RunPut(run, 2, 'x', 1);
    assert [Version(0, 1)] + [Version(1, 2)] == [Version(0, 1), Version(1, 2)];
    assert run[|run| - 1].store.kvMap == map['x' := [Version(0, 1), Version(1, 2)]];
    run := RunPut(run, 2, 'y', 1);
  }

  /** Session 1 then reads y and is still given the overwritten x. */
  lemma SignalThenStaleRead() returns (run: seq<Sys<char, int>>)
    ensures IsRun(run) && run[0].policy == Causal
    ensures run[|run| - 1].store.history ==
            [Tx(1, 3, Put('x', 0)), Tx(2, 2, Put('x', 1)), Tx(3, 2, Put('y', 1)),
             Tx(4, 1, Get('y', Version(1, 3), 1)), Tx(5, 1, Get('x', Version(0, 1), 1))]
  {
    run := OverwriteThenSignal();
    assert Dependent(SessionHistory(run[|run| - 1].store, 1), 'y') == {};
    run := RunGet(run, 1, 'y', 0);
    assert SessionHistory(run[|run| - 1].store, 1) == [Tx(4, 1, Get('y', Version(1, 3), 1))];
    assert Dependent(SessionHistory(run[|run| - 1].store, 1), 'x') == {};
    run := RunGet(run, 1, 'x', 0);
  }

  /** So the causal store has runs that break the full axiom across keys. */
  lemma CrossKeyRunIsNotCausal() returns (run: seq<Sys<char, int>>)
    ensures IsRun(run) && run[0].policy == Causal
    ensures !CausalAt(run[|run| - 1].store.history, 4)
  {
    run := SignalThenStaleRead();
    var h := run[|run| - 1].store.history;
    assert Edge(h, 1, 2, false) && Edge(h, 2, 3, false) && Edge(h, 3, 4, false);
    assert IsPath(h, [1, 2, 3, 4], false);
    assert ReadsFrom(h, 0, 4) && Reaches(h, 1, 4, false);
  }
}
