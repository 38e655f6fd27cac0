/** The key-value store object. Each method body is what runs between taking and releasing the
    store's lock; its contract says which value-level commit it performs. */
module KvStores {
  import opened Stores
  import opened ConsistencyChecker
  import opened ReadSelectors

  datatype Selector = CausalSelector | LinearizableSelector | KCausalSelection(state: KCausalSelector)
  {
    ghost function Objects(): set<object> {
      if KCausalSelection? then {state} else {}
    }

    ghost function Policy(): Policy
      reads Objects()
    {
      match this
      case CausalSelector => Causal
      case LinearizableSelector => Linearizable
      case KCausalSelection(state) => KCausal(state.readCount, state.kReadIds)
    }
  }

  datatype Error = KeyNotFound | Inconsistent

  datatype Result<T> = Ok(value: T) | Err(error: Error)

  lemma DistinctWriters<K(!new), V>(st: Store<K, V>, k: K)
    requires Indexed(st)
    ensures forall i, j :: 0 <= i < j < |Versions(st, k)| ==> Versions(st, k)[i].writer != Versions(st, k)[j].writer
  {
    assert Versions(st, k) == PutsOn(st.history, k);
    forall i, j | 0 <= i < j < |Versions(st, k)| ensures Versions(st, k)[i].writer != Versions(st, k)[j].writer {
      var w := PutAt(st.history, k, i);
      var x := PutAt(st.history, k, j);
      assert DistinctIds(st.history, w, x) && DistinctIds(st.history, x, w);
    }
  }

  /** The loop that turns the chosen candidate into a version number: one more for every candidate
      that is not the chosen one, until that one is met. */
  method VersionNumber<V>(candidates: seq<Version<V>>, chosen: Version<V>, ghost n: nat) returns (number: int)
    requires n < |candidates| && candidates[n] == chosen
    requires forall i, j :: 0 <= i < j < |candidates| ==> candidates[i].writer != candidates[j].writer
    ensures number == n + 1
  {
    var versionNumber := 1;
    number := 0;
    for i := 0 to |candidates|
      invariant versionNumber == if i <= n then i + 1 else i
      invariant n < i ==> number == n + 1
    {
      if candidates[i].writer != chosen.writer {
        versionNumber := versionNumber + 1;
      } else {
        number := versionNumber;
      }
    }
  }

  /** A stored key's GET either logs an answer the selector may give, with its value and version number,
      or finds that there is none and changes nothing. */
  ghost predicate Answered<K, V>(p: Policy, st: Store<K, V>, st': Store<K, V>, id: TxId, s: Session, k: K,
                                 r: Result<(V, int)>) {
    match r
    case Ok(answer) =>
      var n := answer.1 - 1;
      && n >= 0 && MayAnswer(p, st, s, k, n)
      && answer.0 == Versions(st, k)[n].value && st' == CommitGet(st, id, s, k, n)
    case Err(error) =>
      error == Inconsistent && st' == st && forall n: nat :: !MayAnswer(p, st, s, k, n)
  }

  ghost predicate IdsBelow<K, V>(h: seq<Tx<K, V>>, id: TxId) {
    forall i :: 0 <= i < |h| ==> h[i].id < id
  }

  lemma AnsweredKeepsIds<K, V>(p: Policy, st: Store<K, V>, st': Store<K, V>, id: TxId, s: Session, k: K,
                               r: Result<(V, int)>)
    requires IdsBelow(st.history, id) && Answered(p, st, st', id, s, k, r)
    ensures IdsBelow(st'.history, id + 1) && !HasId(st.history, id)
  {}

  lemma AnsweredKeepsStore<K(!new), V>(p: Policy, st: Store<K, V>, st': Store<K, V>, id: TxId, s: Session, k: K,
                                       r: Result<(V, int)>)
    requires Indexed(st) && !HasId(st.history, id) && k in st.kvMap && Answered(p, st, st', id, s, k, r)
    ensures Indexed(st')
    ensures Explained(st.history) ==> Explained(st'.history) && r.Ok?
  {
    if r.Ok? {
      GetKeepsWellFormed(st, id, s, k, r.value.1 - 1);
    } else {
      NoAnswerMeansMalformed(p, st, s, k);
    }
  }

  class KvStore<K(==, !new), V> {
    var kvMap: map<K, seq<Version<V>>>
    var history: seq<Tx<K, V>>
    var sessionOrder: map<Session, seq<Tx<K, V>>>
    var selector: Selector
    var txCount: int

    function View(): Store<K, V>
      reads this
    {
      Store(kvMap, history, sessionOrder)
    }

    ghost predicate Valid()
      reads this
    {
      Indexed(View()) && IdsBelow(history, txCount + 1)
    }

    constructor (selector: Selector)
      ensures Valid() && View() == Empty() && this.selector == selector && txCount == 0
    {
      kvMap, history, sessionOrder := map[], [], map[];
      this.selector := selector;
      txCount := 0;
    }

    function GetSize(): (n: nat)
      requires Valid()
      reads this
      ensures n == |KeysPut(history)|
    {
      SizeCountsKeysPut(View());
      |kvMap|
    }

    function GetHistory(): seq<Tx<K, V>>
      reads this
    {
      history
    }

    function GetSessionHistory(s: Session): (sh: seq<Tx<K, V>>)
      requires Valid()
      reads this
      ensures sh == OfSession(history, s)
    {
      assert SessionHistory(View(), s) == OfSession(history, s);
      if s in sessionOrder then sessionOrder[s] else []
    }

    method Commit(tx: Tx<K, V>)
      modifies this`history, this`sessionOrder
      ensures View() == CommitTx(old(View()), tx)
    {
      history := history + [tx];
      if tx.session !in sessionOrder {
        sessionOrder := sessionOrder[tx.session := [tx]];
        assert [] + [tx] == [tx];
      } else {
        sessionOrder := sessionOrder[tx.session := sessionOrder[tx.session] + [tx]];
      }
    }

    method Put(k: K, v: V, s: Session)
      requires Valid()
      modifies this`kvMap, this`history, this`sessionOrder, this`txCount
      ensures Valid() && txCount == old(txCount) + 1
      ensures !HasId(old(history), txCount)
      ensures View() == CommitPut(old(View()), txCount, s, k, v)
    {
      txCount := txCount + 1;
      PutKeepsIndexed(View(), txCount, s, k, v);
      if k !in kvMap {
        kvMap := kvMap[k := [Version(v, txCount)]];
        assert [] + [Version(v, txCount)] == [Version(v, txCount)];
      } else {
        kvMap := kvMap[k := kvMap[k] + [Version(v, txCount)]];
      }
      Commit(Tx(txCount, s, Op.Put(k, v)));
    }

    method Select(k: K, s: Session, candidates: seq<Version<V>>, rng: nat -> nat)
      returns (r: Option<Version<V>>, ghost n: nat)
      requires Indexed(View()) && candidates == Versions(View(), k)
      modifies selector.Objects()
      ensures selector.Policy() == AfterRead(old(selector.Policy()))
      ensures unchanged(this) && r == Answer(old(selector.Policy()), View(), s, k, rng)
      ensures if r.Some?
              then MayAnswer(old(selector.Policy()), View(), s, k, n) && r.value == candidates[n]
              else forall i: nat :: !MayAnswer(old(selector.Policy()), View(), s, k, i)
      ensures selector.CausalSelector? ==> r == Draw(candidates, rng, Acceptor(View(), s, k))
      ensures selector.LinearizableSelector? && candidates != [] ==> r == Some(candidates[|candidates| - 1])
      ensures selector.KCausalSelection? ==>
        && selector.state.readCount == old(selector.state.readCount) + 1
        && selector.state.kReadIds == old(selector.state.kReadIds)
        && if selector.state.readCount in selector.state.kReadIds
           then r == Draw(candidates, rng, Acceptor(View(), s, k))
           else candidates != [] ==> r == Some(candidates[|candidates| - 1])
    {
      var st := View();
      n := AnswerMayBeGiven(selector.Policy(), st, s, k, rng);
      match selector {
        case CausalSelector =>
          ghost var order, tested;
          r, order, tested := SelectCausal(st, s, k, candidates, rng);
        case LinearizableSelector =>
          r := SelectLinearizable(candidates);
        case KCausalSelection(state) =>
          r := state.Select(st, s, k, candidates, rng);
      }
    }

    /** Logs a GET that was answered with `chosen`, and finds out its version number. */
    method CommitAnswer(k: K, s: Session, chosen: Version<V>, ghost n: nat) returns (number: int)
      requires Indexed(View()) && !HasId(history, txCount)
      requires n < |Versions(View(), k)| && Versions(View(), k)[n] == chosen
      modifies this`history, this`sessionOrder
      ensures number == n + 1
      ensures View() == CommitGet(old(View()), txCount, s, k, n)
    {
      DistinctWriters(View(), k);
      number := VersionNumber(kvMap[k], chosen, n);
      Commit(Tx(txCount, s, Op.Get(k, chosen, number)));
    }

    /** A GET of a stored key, under the transaction id just taken. */
    method AnswerGet(k: K, s: Session, rng: nat -> nat) returns (r: Result<(V, int)>)
      requires Indexed(View()) && !HasId(history, txCount) && k in kvMap
      modifies this`history, this`sessionOrder, selector.Objects()
      ensures selector.Policy() == AfterRead(old(selector.Policy()))
      ensures Answered(old(selector.Policy()), old(View()), View(), txCount, s, k, r)
      ensures r.Ok? ==> Answer(old(selector.Policy()), old(View()), s, k, rng) == Some(Versions(old(View()), k)[r.value.1 - 1])
    {
      var chosen, n := Select(k, s, kvMap[k], rng);
      if chosen.None? {
        return Err(Inconsistent);
      }
      var number := CommitAnswer(k, s, chosen.value, n);
      return Ok((chosen.value.value, number));
    }

    /** The common part of every GET; answers with the value and its version number. */
    method GetTx(k: K, s: Session, rng: nat -> nat) returns (r: Result<(V, int)>)
      requires Valid()
      modifies this`history, this`sessionOrder, this`txCount, selector.Objects()
      ensures Valid() && txCount == old(txCount) + 1
      ensures !HasId(old(history), txCount)
      ensures k !in kvMap ==>
        r == Err(KeyNotFound) && View() == old(View()) && selector.Policy() == old(selector.Policy())
      ensures k in kvMap ==> selector.Policy() == AfterRead(old(selector.Policy()))
      ensures r.Ok? ==>
        var n := r.value.1 - 1;
        && n >= 0 && MayAnswer(old(selector.Policy()), old(View()), s, k, n)
        && r.value.0 == Versions(old(View()), k)[n].value
        && View() == CommitGet(old(View()), txCount, s, k, n)
        && Answer(old(selector.Policy()), old(View()), s, k, rng) == Some(Versions(old(View()), k)[n])
      ensures r == Err(Inconsistent) ==>
        View() == old(View()) && forall n: nat :: !MayAnswer(old(selector.Policy()), old(View()), s, k, n)
      ensures k in kvMap && old(WellFormed(View())) ==> r.Ok?
      ensures old(WellFormed(View())) ==> WellFormed(View())
    {
      txCount := txCount + 1;
      if k !in kvMap {
        r := Err(KeyNotFound);
      } else {
        r := AnswerGet(k, s, rng);
        AnsweredKeepsIds(old(selector.Policy()), old(View()), View(), txCount, s, k, r);
        AnsweredKeepsStore(old(selector.Policy()), old(View()), View(), txCount, s, k, r);
      }
    }
  }
}
