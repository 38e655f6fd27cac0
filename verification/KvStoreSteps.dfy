/** The store object against the step system: what `Put` and `GetTx` promise of one call is an invocation
    followed by the commit of that call, policy and reply included. */
module KvStoreSteps {
  import opened Stores
  import opened ReadSelectors
  import opened StoreRuns
  import KvStores

  /** The object's state after a put, as `KvStore.Put` promises it. */
  lemma PutIsACall<K(!new), V>(sys: Sys<K, V>, s: Session, k: K, v: V, store: Store<K, V>) returns (mid: Sys<K, V>, end: Sys<K, V>)
    requires store == CommitPut(sys.store, sys.txCount + 1, s, k, v)
    ensures var id, call := sys.txCount + 1, Call(s, PutRequest(k, v));
            && Takes(sys, Invoke(call), mid) && Takes(mid, Commit(id, 0), end)
            && end.store == store && end.policy == sys.policy && end.txCount == id
            && end.calls == sys.calls[id := Committed(call, Done)]
            && end.effects == sys.effects + [Entry(id, call, Done)]
  {
    var id, call := sys.txCount + 1, Call(s, PutRequest(k, v));
    mid := DoInvoke(sys, call);
    end := DoPut(mid, id, call);
  }

  /** What a caller learns from the result of a get. */
  function ReplyTo<V>(r: KvStores.Result<(V, int)>): Reply<V> {
    if r.Ok? then Found(r.value.0, r.value.1) else NotFound
  }

  /** The object's state and result after a get on a well-formed store, as `KvStore.GetTx` promises them. */
  lemma GetIsACall<K(!new), V>(sys: Sys<K, V>, s: Session, k: K, r: KvStores.Result<(V, int)>, store: Store<K, V>, policy: Policy)
    returns (n: nat, mid: Sys<K, V>, end: Sys<K, V>)
    requires if k !in sys.store.kvMap then r.Err? && store == sys.store && policy == sys.policy
             else r.Ok? && policy == AfterRead(sys.policy) &&
                  var i := r.value.1 - 1;
                  && i >= 0 && MayAnswer(sys.policy, sys.store, s, k, i)
                  && r.value.0 == Versions(sys.store, k)[i].value
                  && store == CommitGet(sys.store, sys.txCount + 1, s, k, i)
    ensures var id, call := sys.txCount + 1, Call(s, GetRequest(k));
            && Takes(sys, Invoke(call), mid) && Takes(mid, Commit(id, n), end)
            && end.store == store && end.policy == policy && end.txCount == id
            && end.calls == sys.calls[id := Committed(call, ReplyTo(r))]
            && end.effects == sys.effects + [Entry(id, call, ReplyTo(r))]
  {
    var id, call := sys.txCount + 1, Call(s, GetRequest(k));
    mid := DoInvoke(sys, call);
    n := if r.Ok? then r.value.1 - 1 else 0;
    end := if r.Ok? then DoGet(mid, id, call, n) else Finish(mid, id, call, NotFound);
  }
}
