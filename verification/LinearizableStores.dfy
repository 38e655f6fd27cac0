/** A store with the linearizable selector, used by one operation at a time, behaves as a plain map:
    the applications below rest on these two contracts only. */
module LinearizableStores {
  import opened Stores
  import opened ReadSelectors
  import opened KvStores

  ghost predicate Ready<K(!new), V>(store: KvStore<K, V>)
    reads store
  {
    store.Valid() && WellFormed(store.View()) && store.selector == LinearizableSelector
  }

  /** The newest value of every key. */
  ghost function Now<K(!new), V>(store: KvStore<K, V>): map<K, V>
    reads store
  {
    Contents(store.View())
  }

  /** A get of a stored key logs that it read the newest version; any other get logs nothing. */
  ghost function AfterFetch<K, V>(st: Store<K, V>, id: TxId, s: Session, k: K): Store<K, V> {
    if Versions(st, k) == [] then st else CommitGet(st, id, s, k, |Versions(st, k)| - 1)
  }

  /** `get` with the key-not-found exception as a value. */
  method Fetch<K(==, !new), V>(store: KvStore<K, V>, k: K, s: Session) returns (r: Option<V>)
    requires Ready(store)
    modifies store
    ensures Ready(store) && Now(store) == old(Now(store))
    ensures r == if k in old(Now(store)) then Some(old(Now(store))[k]) else None
    ensures store.txCount == old(store.txCount) + 1
    ensures store.View() == AfterFetch(old(store.View()), store.txCount, s, k)
  {
    ghost var before := store.View();
    var got := store.GetTx(k, s, limit => 0);
    if got.Ok? {
      GetKeepsContents(before, store.txCount, s, k, got.value.1 - 1);
      return Some(got.value.0);
    }
    return None;
  }

  method Save<K(==, !new), V>(store: KvStore<K, V>, k: K, v: V, s: Session)
    requires Ready(store)
    modifies store
    ensures Ready(store) && Now(store) == old(Now(store))[k := v]
    ensures store.txCount == old(store.txCount) + 1
    ensures store.View() == CommitPut(old(store.View()), store.txCount, s, k, v)
  {
    ghost var before := store.View();
    store.Put(k, v, s);
    PutKeepsWellFormed(before, store.txCount, s, k, v);
    PutUpdatesContents(before, store.txCount, s, k, v);
  }

  /** Everything logged since is of session `s`. */
  ghost predicate LoggedBy<K, V>(h: seq<Tx<K, V>>, h': seq<Tx<K, V>>, s: Session) {
    h <= h' && forall i :: |h| <= i < |h'| ==> h'[i].session == s
  }

  /** `Fetch` and `Save` as the applications need them: the newest values, and on whose behalf. */
  method Read<K(==, !new), V>(store: KvStore<K, V>, k: K, s: Session) returns (r: Option<V>)
    requires Ready(store)
    modifies store
    ensures Ready(store) && Now(store) == old(Now(store))
    ensures r == if k in old(Now(store)) then Some(old(Now(store))[k]) else None
    ensures LoggedBy(old(store.history), store.history, s)
  {
    r := Fetch(store, k, s);
  }

  method Write<K(==, !new), V>(store: KvStore<K, V>, k: K, v: V, s: Session)
    requires Ready(store)
    modifies store
    ensures Ready(store) && Now(store) == old(Now(store))[k := v]
    ensures LoggedBy(old(store.history), store.history, s)
  {
    Save(store, k, v, s);
  }
}
