/** The store as a step system over concurrent callers. A call is invoked (it gets its transaction
    id before any lock is taken), later commits in one step under the lock, and later returns. */
module StoreRuns {
  import opened Stores
  import opened ConsistencyChecker
  import opened ReadSelectors
  import opened Coherence

  datatype Request<K, V> = GetRequest(key: K) | PutRequest(key: K, value: V)
  datatype Reply<V> = Found(value: V, number: int) | NotFound | Done
  datatype Call<K, V> = Call(session: Session, request: Request<K, V>)
  datatype Phase<K, V> = Invoked(call: Call<K, V>) | Committed(call: Call<K, V>, reply: Reply<V>)

  /** What callers can observe. */
  datatype Event<K, V> = Invocation(id: TxId, call: Call<K, V>) | Return(id: TxId, reply: Reply<V>)

  /** One call with its reply, at the point where it took effect. */
  datatype Entry<K, V> = Entry(id: TxId, call: Call<K, V>, reply: Reply<V>)

  /** `events` is what the callers saw so far; `effects` lists the calls in the order in which they
      took effect, including the GETs that found no key and so left nothing in the history. */
  datatype Sys<K, V> = Sys(
    store: Store<K, V>,
    policy: Policy,
    txCount: int,
    calls: map<TxId, Phase<K, V>>,
    events: seq<Event<K, V>>,
    effects: seq<Entry<K, V>>)

  datatype Step<K, V> = Invoke(call: Call<K, V>) | Commit(id: TxId, n: nat) | GiveBack(id: TxId)

  ghost predicate Init<K, V>(s: Sys<K, V>) {
    s.store == Empty() && s.txCount == 0 && s.calls == map[] && s.events == [] && s.effects == []
  }

  function DoInvoke<K, V>(s: Sys<K, V>, call: Call<K, V>): Sys<K, V> {
    var id := s.txCount + 1;
    s.(txCount := id, calls := s.calls[id := Invoked(call)], events := s.events + [Invocation(id, call)])
  }

  function Finish<K, V>(s: Sys<K, V>, id: TxId, call: Call<K, V>, reply: Reply<V>): Sys<K, V> {
    s.(calls := s.calls[id := Committed(call, reply)], effects := s.effects + [Entry(id, call, reply)])
  }

  function DoPut<K, V>(s: Sys<K, V>, id: TxId, call: Call<K, V>): Sys<K, V>
    requires call.request.PutRequest?
  {
    Finish(s.(store := CommitPut(s.store, id, call.session, call.request.key, call.request.value)), id, call, Done)
  }

  function DoGet<K, V>(s: Sys<K, V>, id: TxId, call: Call<K, V>, n: nat): Sys<K, V>
    requires call.request.GetRequest? && n < |Versions(s.store, call.request.key)|
  {
    Finish(s.(store := CommitGet(s.store, id, call.session, call.request.key, n), policy := AfterRead(s.policy)),
           id, call, Found(Versions(s.store, call.request.key)[n].value, n + 1))
  }

  ghost predicate Takes<K, V>(s: Sys<K, V>, step: Step<K, V>, s': Sys<K, V>) {
    match step
    case Invoke(call) =>
      s' == DoInvoke(s, call)
    case Commit(id, n) =>
      id in s.calls && s.calls[id].Invoked? &&
      var call := s.calls[id].call;
      (match call.request
       case PutRequest(_, _) => s' == DoPut(s, id, call)
       case GetRequest(k) =>
         if k !in s.store.kvMap then s' == Finish(s, id, call, NotFound)
         else MayAnswer(s.policy, s.store, call.session, k, n) && s' == DoGet(s, id, call, n))
    case GiveBack(id) =>
      id in s.calls && s.calls[id].Committed? &&
      s' == s.(calls := s.calls - {id}, events := s.events + [Return(id, s.calls[id].reply)])
  }

  ghost predicate Next<K(!new), V(!new)>(s: Sys<K, V>, s': Sys<K, V>) {
    exists step :: Takes(s, step, s')
  }

  ghost predicate StepAt<K(!new), V(!new)>(run: seq<Sys<K, V>>, i: nat) {
    i + 1 < |run| && Next(run[i], run[i + 1])
  }

  ghost predicate IsRun<K(!new), V(!new)>(run: seq<Sys<K, V>>) {
    run != [] && Init(run[0]) && forall i: nat :: i + 1 < |run| ==> StepAt(run, i)
  }

  lemma StepOf<K(!new), V(!new)>(run: seq<Sys<K, V>>, i: nat) returns (step: Step<K, V>)
    requires IsRun(run) && i + 1 < |run|
    ensures Takes(run[i], step, run[i + 1])
  {
    assert StepAt(run, i);
    step :| Takes(run[i], step, run[i + 1]);
  }

  // ---------------------------------------------------------------- what every step keeps

  ghost predicate IdsAllocated<K, V>(s: Sys<K, V>) {
    && (forall i :: 0 <= i < |s.store.history| ==> s.store.history[i].id <= s.txCount)
    && (forall id :: id in s.calls ==> id <= s.txCount)
    && (forall id :: id in s.calls && s.calls[id].Invoked? ==> !HasId(s.store.history, id))
  }

  ghost predicate Safe<K(!new), V>(s: Sys<K, V>) {
    SessionSafe(s.store) && IdsAllocated(s)
  }

  lemma StepKeepsSessionSafe<K(!new), V>(s: Sys<K, V>, step: Step<K, V>, s': Sys<K, V>)
    requires Safe(s) && Takes(s, step, s')
    ensures SessionSafe(s'.store)
  {
    if step.Commit? {
      var id, call := step.id, s.calls[step.id].call;
      match call.request {
        case PutRequest(k, v) =>
          PutKeepsSessionSafe(s.store, id, call.session, k, v);
        case GetRequest(k) =>
          if k in s.store.kvMap {
            AnswersAboveFloor(s.policy, s.store, call.session, k, step.n);
            GetKeepsSessionSafe(s.store, id, call.session, k, step.n);
          }
      }
    }
  }

  /** A step logs nothing, or the one transaction it commits. */
  lemma StepExtendsHistory<K, V>(s: Sys<K, V>, step: Step<K, V>, s': Sys<K, V>)
    requires Takes(s, step, s')
    ensures s'.store.history == s.store.history ||
            (step.Commit? && |s'.store.history| == |s.store.history| + 1 && s.store.history <= s'.store.history
             && s'.store.history[|s.store.history|].id == step.id && s'.calls[step.id].Committed?)
  {}

  lemma StepKeepsIdsAllocated<K, V>(s: Sys<K, V>, step: Step<K, V>, s': Sys<K, V>)
    requires IdsAllocated(s) && Takes(s, step, s')
    ensures IdsAllocated(s')
  {
    StepExtendsHistory(s, step, s');
    var h, h' := s.store.history, s'.store.history;
    if h' != h {
      assert h' == h + [h'[|h|]];
    }
  }

  lemma StepKeepsSafe<K(!new), V>(s: Sys<K, V>, step: Step<K, V>, s': Sys<K, V>)
    requires Safe(s) && Takes(s, step, s')
    ensures Safe(s')
    ensures s.store.history <= s'.store.history
  {
    StepKeepsSessionSafe(s, step, s');
    StepKeepsIdsAllocated(s, step, s');
    StepExtendsHistory(s, step, s');
  }

  lemma {:induction false} RunIsSafe<K(!new), V(!new)>(run: seq<Sys<K, V>>, i: nat)
    requires IsRun(run) && i < |run|
    ensures Safe(run[i])
  {
    if i > 0 {
      RunIsSafe(run, i - 1);
      var step := StepOf(run, i - 1);
      StepKeepsSafe(run[i - 1], step, run[i]);
    }
  }

  lemma {:induction false} HistoryOnlyGrows<K(!new), V(!new)>(run: seq<Sys<K, V>>, i: nat, j: nat)
    requires IsRun(run) && i <= j < |run|
    ensures run[i].store.history <= run[j].store.history
  {
    if i < j {
      HistoryOnlyGrows(run, i, j - 1);
      RunIsSafe(run, j - 1);
      var step := StepOf(run, j - 1);
      StepKeepsSafe(run[j - 1], step, run[j]);
    }
  }

  /** The log is append-only over a whole run, so what (key, version number) denotes never changes. */
  lemma VersionsAreForEver<K(!new), V(!new)>(run: seq<Sys<K, V>>, i: nat, j: nat, k: K)
    requires IsRun(run) && i <= j < |run|
    ensures Versions(run[i].store, k) <= Versions(run[j].store, k)
  {
    RunIsSafe(run, i);
    RunIsSafe(run, j);
    HistoryOnlyGrows(run, i, j);
    var hi, hj := run[i].store.history, run[j].store.history;
    assert Versions(run[i].store, k) == PutsOn(hi, k);
    assert Versions(run[j].store, k) == PutsOn(hj, k);
    assert hj[..|hi|] == hi && hj[..|hj|] == hj;
    PutsOnPrefix(hj, |hi|, |hj|, k);
  }

  /** The version numbers a session is given for a key never decrease. */
  lemma SessionNumbersNeverDecrease<K(!new), V(!new)>(run: seq<Sys<K, V>>, i: nat, p: nat, q: nat)
    requires IsRun(run) && i < |run| && SameSessionKey(run[i].store.history, p, q)
    requires run[i].store.history[p].op.Get? && run[i].store.history[q].op.Get?
    ensures run[i].store.history[p].op.number <= run[i].store.history[q].op.number
  {
    RunIsSafe(run, i);
    var h := run[i].store.history;
    assert Ver(h, p) <= Ver(h, q);
  }

  /** No reachable state leaves an invoked GET without an answer: the consistency exception cannot occur. */
  lemma NoConsistencyException<K(!new), V(!new)>(run: seq<Sys<K, V>>, i: nat, id: TxId)
    requires IsRun(run) && i < |run|
    requires id in run[i].calls && run[i].calls[id].Invoked?
    ensures exists n: nat, s' :: Takes(run[i], Commit(id, n), s')
  {
    RunIsSafe(run, i);
    var s := run[i];
    var call := s.calls[id].call;
    if call.request.PutRequest? {
      assert Takes(s, Commit(id, 0), DoPut(s, id, call));
    } else if call.request.key !in s.store.kvMap {
      assert Takes(s, Commit(id, 0), Finish(s, id, call, NotFound));
    } else {
      GetIsNeverStuck(s.policy, s.store, call.session, call.request.key);
      var n := |Versions(s.store, call.request.key)| - 1;
      assert Takes(s, Commit(id, n), DoGet(s, id, call, n));
    }
  }

  // ---------------------------------------------------------------- per-key coherence

  /** Every run, under any of the selectors, is coherent on every key. */
  lemma RunsAreCoherent<K(!new), V(!new)>(run: seq<Sys<K, V>>, i: nat, k: K)
    requires IsRun(run) && i < |run|
    ensures exists before :: IsCoherent(run[i].store.history, k, before)
  {
    RunIsSafe(run, i);
    CoherentOrderExists(run[i].store.history, k);
  }

  // ---------------------------------------------------------------- the k-causal budget

  ghost predicate Stale<K, V>(h: seq<Tx<K, V>>, r: nat) {
    r < |h| && h[r].op.Get? && h[r].op.number != |PutsOn(h[..r], h[r].op.key)|
  }

  /** How many GETs were answered with a version that was not the newest at that moment. */
  ghost function StaleReads<K, V>(h: seq<Tx<K, V>>): nat {
    if h == [] then 0 else StaleReads(h[..|h| - 1]) + if Stale(h, |h| - 1) then 1 else 0
  }

  ghost function UsedIds(p: Policy): set<int>
    requires p.KCausal?
  {
    set x | x in p.readIds && x <= p.readCount
  }

  ghost predicate WithinBudget<K, V>(s: Sys<K, V>, ids: set<int>) {
    s.policy.KCausal? && s.policy.readIds == ids && StaleReads(s.store.history) <= |UsedIds(s.policy)|
  }

  lemma StaleReadsStep<K, V>(h: seq<Tx<K, V>>, tx: Tx<K, V>)
    ensures StaleReads(h + [tx]) ==
            StaleReads(h) + if tx.op.Get? && tx.op.number != |PutsOn(h, tx.op.key)| then 1 else 0
  {
    assert (h + [tx])[..|h|] == h;
  }

  lemma UsedIdsStep(p: Policy)
    requires p.KCausal?
    ensures |UsedIds(AfterRead(p))| == |UsedIds(p)| + if p.readCount + 1 in p.readIds then 1 else 0
  {
    assert UsedIds(AfterRead(p)) == UsedIds(p) + if p.readCount + 1 in p.readIds then {p.readCount + 1} else {};
  }

  lemma StepKeepsBudget<K(!new), V>(s: Sys<K, V>, step: Step<K, V>, s': Sys<K, V>, ids: set<int>)
    requires Safe(s) && WithinBudget(s, ids) && Takes(s, step, s')
    ensures WithinBudget(s', ids)
  {
    if step.Commit? {
      var id, call := step.id, s.calls[step.id].call;
      var h := s.store.history;
      match call.request {
        case PutRequest(k, v) =>
          StaleReadsStep(h, Tx(id, call.session, Put(k, v)));
        case GetRequest(k) =>
          if k in s.store.kvMap {
            assert Versions(s.store, k) == PutsOn(h, k);
            StaleReadsStep(h, Tx(id, call.session, Get(k, Versions(s.store, k)[step.n], step.n + 1)));
            UsedIdsStep(s.policy);
          }
      }
    }
  }

  /** A k-causal run of any length has at most as many stale GETs as read numbers were picked. */
  lemma {:induction false} KCausalBound<K(!new), V(!new)>(run: seq<Sys<K, V>>, i: nat, ids: set<int>)
    requires IsRun(run) && i < |run|
    requires run[0].policy == KCausal(0, ids)
    ensures WithinBudget(run[i], ids)
    ensures StaleReads(run[i].store.history) <= |ids|
  {
    if i > 0 {
      KCausalBound(run, i - 1, ids);
      RunIsSafe(run, i - 1);
      var step := StepOf(run, i - 1);
      StepKeepsBudget(run[i - 1], step, run[i], ids);
    }
    SubsetSize(UsedIds(run[i].policy), ids);
  }

  // ---------------------------------------------------------------- building runs

  lemma ExtendRun<K(!new), V(!new)>(run: seq<Sys<K, V>>, step: Step<K, V>, s': Sys<K, V>)
    requires IsRun(run) && Takes(run[|run| - 1], step, s')
    ensures IsRun(run + [s'])
  {
    var run' := run + [s'];
    forall i: nat | i + 1 < |run'| ensures StepAt(run', i) {
      if i + 1 < |run| {
        assert StepAt(run, i);
      }
    }
  }

  /** A PUT that is invoked and commits at once. */
  lemma RunPut<K(!new), V(!new)>(run: seq<Sys<K, V>>, s: Session, k: K, v: V) returns (run': seq<Sys<K, V>>)
    requires IsRun(run)
    ensures IsRun(run') && run <= run'
    ensures var a, b := run[|run| - 1], run'[|run'| - 1];
            && b.store == CommitPut(a.store, a.txCount + 1, s, k, v)
            && b.txCount == a.txCount + 1 && b.policy == a.policy
  {
    var a := run[|run| - 1];
    var call := Call(s, PutRequest(k, v));
    var invoked := DoInvoke(a, call);
    ExtendRun(run, Invoke(call), invoked);
    var done := DoPut(invoked, a.txCount + 1, call);
    assert Takes(invoked, Commit(a.txCount + 1, 0), done);
    ExtendRun(run + [invoked], Commit(a.txCount + 1, 0), done);
    run' := run + [invoked] + [done];
  }

  /** A GET that is invoked and commits at once with version `n`. */
  lemma RunGet<K(!new), V(!new)>(run: seq<Sys<K, V>>, s: Session, k: K, n: nat) returns (run': seq<Sys<K, V>>)
    requires IsRun(run)
    requires k in run[|run| - 1].store.kvMap && MayAnswer(run[|run| - 1].policy, run[|run| - 1].store, s, k, n)
    ensures IsRun(run') && run <= run'
    ensures var a, b := run[|run| - 1], run'[|run'| - 1];
            && b.store == CommitGet(a.store, a.txCount + 1, s, k, n)
            && b.txCount == a.txCount + 1 && b.policy == AfterRead(a.policy)
  {
    var a := run[|run| - 1];
    var call := Call(s, GetRequest(k));
    var invoked := DoInvoke(a, call);
    ExtendRun(run, Invoke(call), invoked);
    var done := DoGet(invoked, a.txCount + 1, call, n);
    assert Takes(invoked, Commit(a.txCount + 1, n), done);
    ExtendRun(run + [invoked], Commit(a.txCount + 1, n), done);
    run' := run + [invoked] + [done];
  }

  // ---------------------------------------------------------------- the budget can be used up

  /** Two versions of x are stored, and only sessions up to `last` have been active. */
  ghost predicate TwoVersions(s: Sys<char, int>, last: Session) {
    && |Versions(s.store, 'x')| == 2 && Versions(s.store, 'x') == PutsOn(s.store.history, 'x')
    && forall u :: u > last ==> SessionHistory(s.store, u) == []
  }

  lemma FreshSessionMayRead<K, V>(p: Policy, st: Store<K, V>, s: Session, k: K, n: nat)
    requires n < |Versions(st, k)| && SessionHistory(st, s) == []
    requires n == |Versions(st, k)| - 1 || p.Causal? || (p.KCausal? && p.readCount + 1 in p.readIds)
    ensures MayAnswer(p, st, s, k, n)
  {
    assert Dependent(SessionHistory(st, s), k) == {};
  }

  lemma TwoPuts(ids: set<int>) returns (run: seq<Sys<char, int>>)
    ensures IsRun(run) && run[0].policy == KCausal(0, ids)
    ensures run[|run| - 1].policy == KCausal(0, ids) && TwoVersions(run[|run| - 1], 1)
    ensures StaleReads(run[|run| - 1].store.history) == 0
  {
    run := [Sys(Empty(), KCausal(0, ids), 0, map[], [], [])];
    var h: seq<Tx<char, int>> := [];
    StaleReadsStep(h, Tx(1, 1, Put('x', 10)));
    run := RunPut(run, 1, 'x', 10);
    assert run[|run| - 1].store.history == [] + [Tx(1, 1, Put('x', 10))];
    StaleReadsStep(run[|run| - 1].store.history, Tx(2, 1, Put('x', 20)));
    Appended(h, Tx(1, 1, Put('x', 10)));
    Appended(run[|run| - 1].store.history, Tx(2, 1, Put('x', 20)));
    run := RunPut(run, 1, 'x', 20);
  }

  /** Every read by a new session: the older version whenever the read number was picked. */
  lemma {:induction false} ReadStaleWhenPicked(ids: set<int>, m: nat) returns (run: seq<Sys<char, int>>)
    requires forall x :: x in ids ==> x >= 1
    ensures IsRun(run) && run[0].policy == KCausal(0, ids)
    ensures run[|run| - 1].policy == KCausal(m, ids) && TwoVersions(run[|run| - 1], 1 + m)
    ensures StaleReads(run[|run| - 1].store.history) == |UsedIds(KCausal(m, ids))|
  {
    if m == 0 {
      run := TwoPuts(ids);
      assert UsedIds(KCausal(0, ids)) == {};
    } else {
      run := ReadStaleWhenPicked(ids, m - 1);
      run := ReadOnceMore(run, ids, m);
    }
  }

  lemma ReadOnceMore(run: seq<Sys<char, int>>, ids: set<int>, m: nat) returns (run': seq<Sys<char, int>>)
    requires IsRun(run) && run[0].policy == KCausal(0, ids) && m > 0
    requires run[|run| - 1].policy == KCausal(m - 1, ids) && TwoVersions(run[|run| - 1], m)
    requires StaleReads(run[|run| - 1].store.history) == |UsedIds(KCausal(m - 1, ids))|
    ensures IsRun(run') && run'[0].policy == KCausal(0, ids)
    ensures run'[|run'| - 1].policy == KCausal(m, ids) && TwoVersions(run'[|run'| - 1], 1 + m)
    ensures StaleReads(run'[|run'| - 1].store.history) == |UsedIds(KCausal(m, ids))|
  {
    var a := run[|run| - 1];
    var n: nat := if m in ids then 0 else 1;
    FreshSessionMayRead(a.policy, a.store, 1 + m, 'x', n);
    run' := RunGet(run, 1 + m, 'x', n);
    var tx := Tx(a.txCount + 1, 1 + m, Get('x', Versions(a.store, 'x')[n], n + 1));
    assert run'[|run'| - 1].store.history == a.store.history + [tx];
    StaleReadsStep(a.store.history, tx);
    Appended(a.store.history, tx);
    UsedIdsStep(KCausal(m - 1, ids));
    var st' := run'[|run'| - 1].store;
    forall u | u > 1 + m ensures SessionHistory(st', u) == [] {
      assert SessionHistory(a.store, u) == [];
    }
  }

  lemma {:induction false} UpperBound(ids: set<int>) returns (m: nat)
    ensures forall x :: x in ids ==> x <= m
    decreases |ids|
  {
    m := 0;
    if y :| y in ids {
      var rest := UpperBound(ids - {y});
      m := if y > rest then y else rest;
      forall x | x in ids ensures x <= m {
        assert x == y || x in ids - {y};
      }
    }
  }

  /** The bound is tight: for every set of picked read numbers some run has that many stale GETs. */
  lemma KCausalBoundIsReached(ids: set<int>) returns (run: seq<Sys<char, int>>)
    requires forall x :: x in ids ==> x >= 1
    ensures IsRun(run) && run[0].policy == KCausal(0, ids)
    ensures StaleReads(run[|run| - 1].store.history) == |ids|
  {
    var m := UpperBound(ids);
    run := ReadStaleWhenPicked(ids, m);
    assert UsedIds(KCausal(m, ids)) == ids;
  }
}
