/** With the linearizable selector, every run is linearizable to a plain map of versioned cells. */
module Linearizability {
  import opened Stores
  import opened ReadSelectors
  import opened StoreRuns

  // ---------------------------------------------------------------- the sequential specification

  datatype Cell<V> = Cell(value: V, number: int)

  function MapAfter<K, V>(es: seq<Entry<K, V>>): map<K, Cell<V>> {
    if es == [] then map[] else
      var m := MapAfter(es[..|es| - 1]);
      match es[|es| - 1].call.request
      case PutRequest(k, v) => m[k := Cell(v, if k in m then m[k].number + 1 else 1)]
      case GetRequest(_) => m
  }

  /** The reply a plain map in state `m` gives to a request. */
  function ReplyOf<K, V>(m: map<K, Cell<V>>, request: Request<K, V>): Reply<V> {
    match request
    case PutRequest(_, _) => Done
    case GetRequest(k) => if k in m then Found(m[k].value, m[k].number) else NotFound
  }

  ghost predicate Sequential<K, V>(es: seq<Entry<K, V>>) {
    forall i :: 0 <= i < |es| ==> es[i].reply == ReplyOf(MapAfter(es[..i]), es[i].call.request)
  }

  // ---------------------------------------------------------------- linearizability of a trace

  ghost predicate OnceEach<K, V>(es: seq<Entry<K, V>>) {
    forall i, j :: 0 <= i < j < |es| ==> es[i].id != es[j].id
  }

  /** Call `id` took effect with this reply. */
  ghost predicate TookEffect<K, V>(es: seq<Entry<K, V>>, id: TxId, reply: Reply<V>) {
    exists i :: 0 <= i < |es| && es[i].id == id && es[i].reply == reply
  }

  ghost predicate WasInvoked<K, V>(events: seq<Event<K, V>>, id: TxId, call: Call<K, V>) {
    exists i :: 0 <= i < |events| && events[i] == Invocation(id, call)
  }

  ghost predicate RepliesMatch<K, V>(events: seq<Event<K, V>>, es: seq<Entry<K, V>>) {
    forall i :: 0 <= i < |events| && events[i].Return? ==> TookEffect(es, events[i].id, events[i].reply)
  }

  ghost predicate InvokedFirst<K, V>(events: seq<Event<K, V>>, es: seq<Entry<K, V>>) {
    forall i :: 0 <= i < |es| ==> WasInvoked(events, es[i].id, es[i].call)
  }

  /** Whenever both have taken effect, call `p` did so before call `q`. */
  ghost predicate Precedes<K, V>(es: seq<Entry<K, V>>, p: TxId, q: TxId) {
    forall x, y :: 0 <= x < |es| && 0 <= y < |es| && es[x].id == p && es[y].id == q ==> x < y
  }

  /** A call that returned before another was invoked also takes effect before it. */
  ghost predicate RealTime<K, V>(events: seq<Event<K, V>>, es: seq<Entry<K, V>>) {
    forall a, b | 0 <= a < b < |events| && events[a].Return? && events[b].Invocation? ::
      Precedes(es, events[a].id, events[b].id)
  }

  ghost predicate Linearizes<K, V>(events: seq<Event<K, V>>, es: seq<Entry<K, V>>) {
    Sequential(es) && OnceEach(es) && RepliesMatch(events, es) && InvokedFirst(events, es) && RealTime(events, es)
  }

  // ---------------------------------------------------------------- bookkeeping kept by every run

  ghost predicate HasEffect<K, V>(es: seq<Entry<K, V>>, id: TxId) {
    exists i :: 0 <= i < |es| && es[i].id == id
  }

  /** A call has taken effect exactly when it is past its commit. */
  ghost predicate CallsMatchEffects<K, V>(s: Sys<K, V>) {
    && OnceEach(s.effects)
    && (forall i :: 0 <= i < |s.effects| ==> s.effects[i].id <= s.txCount)
    && (forall id :: id in s.calls ==> id <= s.txCount)
    && (forall id :: id in s.calls && s.calls[id].Invoked? ==> !HasEffect(s.effects, id))
    && (forall id :: id in s.calls && s.calls[id].Committed? ==> TookEffect(s.effects, id, s.calls[id].reply))
  }

  ghost predicate CallsWereInvoked<K, V>(s: Sys<K, V>) {
    && (forall id :: id in s.calls ==> WasInvoked(s.events, id, s.calls[id].call))
    && InvokedFirst(s.events, s.effects)
  }

  ghost predicate Booked<K, V>(s: Sys<K, V>) {
    CallsMatchEffects(s) && CallsWereInvoked(s) && RepliesMatch(s.events, s.effects) && RealTime(s.events, s.effects)
  }

  lemma EffectsGrow<K, V>(es: seq<Entry<K, V>>, e: Entry<K, V>)
    ensures forall id, reply :: TookEffect(es, id, reply) ==> TookEffect(es + [e], id, reply)
    ensures TookEffect(es + [e], e.id, e.reply)
    ensures forall id :: HasEffect(es + [e], id) <==> HasEffect(es, id) || id == e.id
  {
    var es' := es + [e];
    assert es'[|es|] == e;
    forall id, reply | TookEffect(es, id, reply) ensures TookEffect(es', id, reply) {
      var i :| 0 <= i < |es| && es[i].id == id && es[i].reply == reply;
      assert es'[i] == es[i];
    }
    forall id | HasEffect(es, id) ensures HasEffect(es', id) {
      var i :| 0 <= i < |es| && es[i].id == id;
      assert es'[i] == es[i];
    }
  }

  lemma EventsGrow<K, V>(events: seq<Event<K, V>>, e: Event<K, V>)
    ensures forall id, call :: WasInvoked(events, id, call) ==> WasInvoked(events + [e], id, call)
    ensures e.Invocation? ==> WasInvoked(events + [e], e.id, e.call)
  {
    var events' := events + [e];
    assert events'[|events|] == e;
    forall id, call | WasInvoked(events, id, call) ensures WasInvoked(events', id, call) {
      var i :| 0 <= i < |events| && events[i] == Invocation(id, call);
      assert events'[i] == events[i];
    }
  }

  /** A new effect cannot come before one that is already there. */
  lemma NewEffectComesLast<K, V>(es: seq<Entry<K, V>>, e: Entry<K, V>, p: TxId, q: TxId)
    requires Precedes(es, p, q) && e.id != p
    ensures Precedes(es + [e], p, q)
  {}

  lemma FinishKeepsRealTime<K, V>(events: seq<Event<K, V>>, es: seq<Entry<K, V>>, e: Entry<K, V>)
    requires RealTime(events, es) && RepliesMatch(events, es) && !HasEffect(es, e.id)
    ensures RealTime(events, es + [e]) && RepliesMatch(events, es + [e])
  {
    EffectsGrow(es, e);
    forall a, b | 0 <= a < b < |events| && events[a].Return? && events[b].Invocation?
      ensures Precedes(es + [e], events[a].id, events[b].id)
    {
      assert TookEffect(es, events[a].id, events[a].reply);
      NewEffectComesLast(es, e, events[a].id, events[b].id);
    }
  }

  lemma FinishKeepsBooked<K, V>(s: Sys<K, V>, t: Sys<K, V>, id: TxId, reply: Reply<V>)
    requires Booked(s) && id in s.calls && s.calls[id].Invoked?
    requires t.calls == s.calls && t.events == s.events && t.effects == s.effects && t.txCount == s.txCount
    ensures Booked(Finish(t, id, s.calls[id].call, reply))
  {
    var e := Entry(id, s.calls[id].call, reply);
    var t' := Finish(t, id, s.calls[id].call, reply);
    EffectsGrow(s.effects, e);
    FinishKeepsRealTime(s.events, s.effects, e);
    assert OnceEach(t'.effects) by {
      assert forall i :: 0 <= i < |s.effects| ==> s.effects[i].id != id;
    }
    assert InvokedFirst(t'.events, t'.effects);
  }

  lemma InvokeKeepsBooked<K, V>(s: Sys<K, V>, call: Call<K, V>)
    requires Booked(s)
    ensures Booked(DoInvoke(s, call))
  {
    var e := Invocation(s.txCount + 1, call);
    var events' := s.events + [e];
    EventsGrow(s.events, e);
    forall a, b | 0 <= a < b < |events'| && events'[a].Return? && events'[b].Invocation?
      ensures Precedes(s.effects, events'[a].id, events'[b].id)
    {
      if b < |s.events| {
        assert Precedes(s.effects, s.events[a].id, s.events[b].id);
      }
    }
    assert RealTime(events', s.effects);
    assert RepliesMatch(events', s.effects);
    assert CallsMatchEffects(DoInvoke(s, call));
  }

  lemma ReturnKeepsRealTime<K, V>(events: seq<Event<K, V>>, es: seq<Entry<K, V>>, e: Event<K, V>)
    requires RealTime(events, es) && RepliesMatch(events, es) && e.Return? && TookEffect(es, e.id, e.reply)
    ensures RealTime(events + [e], es) && RepliesMatch(events + [e], es)
  {
    var events' := events + [e];
    forall a, b | 0 <= a < b < |events'| && events'[a].Return? && events'[b].Invocation?
      ensures Precedes(es, events'[a].id, events'[b].id)
    {
      assert events'[a] == events[a] && events'[b] == events[b];
    }
  }

  lemma GiveBackKeepsBooked<K, V>(s: Sys<K, V>, s': Sys<K, V>, id: TxId)
    requires Booked(s) && Takes(s, GiveBack(id), s')
    ensures Booked(s')
  {
    var e := Return(id, s.calls[id].reply);
    EventsGrow(s.events, e);
    ReturnKeepsRealTime(s.events, s.effects, e);
  }

  lemma CommitKeepsBooked<K, V>(s: Sys<K, V>, id: TxId, n: nat, s': Sys<K, V>)
    requires Booked(s) && Takes(s, Commit(id, n), s')
    ensures Booked(s')
  {
    var call := s.calls[id].call;
    match call.request {
      case PutRequest(k, v) =>
        FinishKeepsBooked(s, s.(store := CommitPut(s.store, id, call.session, k, v)), id, Done);
      case GetRequest(k) =>
        if k !in s.store.kvMap {
          FinishKeepsBooked(s, s, id, NotFound);
        } else {
          FinishKeepsBooked(s, s.(store := CommitGet(s.store, id, call.session, k, n), policy := AfterRead(s.policy)),
                            id, Found(Versions(s.store, k)[n].value, n + 1));
        }
    }
  }

  lemma StepKeepsBooked<K, V>(s: Sys<K, V>, step: Step<K, V>, s': Sys<K, V>)
    requires Booked(s) && Takes(s, step, s')
    ensures Booked(s')
  {
    match step {
      case Invoke(call) => InvokeKeepsBooked(s, call);
      case GiveBack(id) => GiveBackKeepsBooked(s, s', id);
      case Commit(id, n) => CommitKeepsBooked(s, id, n, s');
    }
  }

  // ---------------------------------------------------------------- the effects are a run of the map

  /** The newest version of every key, as the map specification sees it. */
  ghost function Cells<K, V>(st: Store<K, V>): map<K, Cell<V>>
    requires forall k :: k in st.kvMap ==> st.kvMap[k] != []
  {
    map k | k in st.kvMap :: Cell(st.kvMap[k][|st.kvMap[k]| - 1].value, |st.kvMap[k]|)
  }

  ghost predicate ActsAsMap<K, V>(s: Sys<K, V>) {
    && s.policy == Linearizable
    && (forall k :: k in s.store.kvMap ==> s.store.kvMap[k] != [])
    && MapAfter(s.effects) == Cells(s.store)
    && Sequential(s.effects)
  }

  lemma SequentialStep<K, V>(es: seq<Entry<K, V>>, e: Entry<K, V>)
    requires Sequential(es) && e.reply == ReplyOf(MapAfter(es), e.call.request)
    ensures Sequential(es + [e])
  {
    var es' := es + [e];
    forall i | 0 <= i < |es'| ensures es'[i].reply == ReplyOf(MapAfter(es'[..i]), es'[i].call.request) {
      assert es'[..i] == es[..i];
      assert es[..|es|] == es;
    }
  }

  lemma MapAppended<K, V>(es: seq<Entry<K, V>>, e: Entry<K, V>)
    ensures e.call.request.GetRequest? ==> MapAfter(es + [e]) == MapAfter(es)
    ensures e.call.request.PutRequest? ==>
      var k, m := e.call.request.key, MapAfter(es);
      MapAfter(es + [e]) == m[k := Cell(e.call.request.value, if k in m then m[k].number + 1 else 1)]
  {
    assert (es + [e])[..|es|] == es;
  }

  lemma CellsAfterPut<K, V>(st: Store<K, V>, id: TxId, s: Session, k: K, v: V)
    requires forall k' :: k' in st.kvMap ==> st.kvMap[k'] != []
    ensures forall k' :: k' in CommitPut(st, id, s, k, v).kvMap ==> CommitPut(st, id, s, k, v).kvMap[k'] != []
    ensures Cells(CommitPut(st, id, s, k, v)) ==
            Cells(st)[k := Cell(v, if k in Cells(st) then Cells(st)[k].number + 1 else 1)]
  {
    assert CommitPut(st, id, s, k, v).kvMap == st.kvMap[k := Versions(st, k) + [Version(v, id)]];
  }

  lemma PutActsAsMap<K, V>(s: Sys<K, V>, id: TxId, call: Call<K, V>)
    requires ActsAsMap(s) && call.request.PutRequest?
    ensures ActsAsMap(DoPut(s, id, call))
  {
    var e := Entry(id, call, Done);
    SequentialStep(s.effects, e);
    MapAppended(s.effects, e);
    CellsAfterPut(s.store, id, call.session, call.request.key, call.request.value);
  }

  lemma ReadActsAsMap<K, V>(s: Sys<K, V>, e: Entry<K, V>)
    requires ActsAsMap(s) && e.call.request.GetRequest?
    requires e.reply == ReplyOf(Cells(s.store), e.call.request)
    ensures Sequential(s.effects + [e]) && MapAfter(s.effects + [e]) == Cells(s.store)
  {
    SequentialStep(s.effects, e);
    MapAppended(s.effects, e);
  }

  lemma StepActsAsMap<K, V>(s: Sys<K, V>, step: Step<K, V>, s': Sys<K, V>)
    requires ActsAsMap(s) && Takes(s, step, s')
    ensures ActsAsMap(s')
  {
    if step.Commit? {
      var call := s.calls[step.id].call;
      match call.request {
        case PutRequest(_, _) => PutActsAsMap(s, step.id, call);
        case GetRequest(k) =>
          if k !in s.store.kvMap {
            ReadActsAsMap(s, Entry(step.id, call, NotFound));
          } else {
            ReadActsAsMap(s, Entry(step.id, call, Found(Versions(s.store, k)[step.n].value, step.n + 1)));
          }
      }
    }
  }

  lemma {:induction false} RunIsBooked<K(!new), V(!new)>(run: seq<Sys<K, V>>, i: nat)
    requires IsRun(run) && i < |run|
    ensures Booked(run[i])
  {
    if i > 0 {
      RunIsBooked(run, i - 1);
      var step := StepOf(run, i - 1);
      StepKeepsBooked(run[i - 1], step, run[i]);
    }
  }

  lemma {:induction false} RunActsAsMap<K(!new), V(!new)>(run: seq<Sys<K, V>>, i: nat)
    requires IsRun(run) && i < |run| && run[0].policy == Linearizable
    ensures ActsAsMap(run[i])
  {
    if i > 0 {
      RunActsAsMap(run, i - 1);
      var step := StepOf(run, i - 1);
      StepActsAsMap(run[i - 1], step, run[i]);
    }
  }

  /** Every run with the linearizable selector is linearizable, under every interleaving. */
  lemma RunsAreLinearizable<K(!new), V(!new)>(run: seq<Sys<K, V>>, i: nat)
    requires IsRun(run) && i < |run| && run[0].policy == Linearizable
    ensures Linearizes(run[i].events, run[i].effects)
  {
    RunIsBooked(run, i);
    RunActsAsMap(run, i);
  }

  // ---------------------------------------------------------------- the effects and the log

  function Logged<K, V>(es: seq<Entry<K, V>>): seq<Entry<K, V>> {
    if es == [] then [] else
      Logged(es[..|es| - 1]) + if es[|es| - 1].reply.NotFound? then [] else [es[|es| - 1]]
  }

  function EntryOf<K, V>(tx: Tx<K, V>): Entry<K, V> {
    match tx.op
    case Put(k, v) => Entry(tx.id, Call(tx.session, PutRequest(k, v)), Done)
    case Get(k, read, number) => Entry(tx.id, Call(tx.session, GetRequest(k)), Found(read.value, number))
  }

  function EntriesOf<K, V>(h: seq<Tx<K, V>>): seq<Entry<K, V>> {
    if h == [] then [] else EntriesOf(h[..|h| - 1]) + [EntryOf(h[|h| - 1])]
  }

  lemma LogAppended<K, V>(es: seq<Entry<K, V>>, e: Entry<K, V>)
    ensures Logged(es + [e]) == Logged(es) + if e.reply.NotFound? then [] else [e]
  {
    assert (es + [e])[..|es|] == es;
  }

  lemma HistoryAppended<K, V>(h: seq<Tx<K, V>>, tx: Tx<K, V>)
    ensures EntriesOf(h + [tx]) == EntriesOf(h) + [EntryOf(tx)]
  {
    assert (h + [tx])[..|h|] == h;
  }

  lemma PutIsLogged<K, V>(s: Sys<K, V>, id: TxId, call: Call<K, V>)
    requires Logged(s.effects) == EntriesOf(s.store.history) && call.request.PutRequest?
    ensures Logged(DoPut(s, id, call).effects) == EntriesOf(DoPut(s, id, call).store.history)
  {
    LogAppended(s.effects, Entry(id, call, Done));
    HistoryAppended(s.store.history, Tx(id, call.session, Put(call.request.key, call.request.value)));
  }

  lemma GetIsLogged<K, V>(s: Sys<K, V>, id: TxId, call: Call<K, V>, n: nat)
    requires Logged(s.effects) == EntriesOf(s.store.history)
    requires call.request.GetRequest? && n < |Versions(s.store, call.request.key)|
    ensures Logged(DoGet(s, id, call, n).effects) == EntriesOf(DoGet(s, id, call, n).store.history)
  {
    var read := Versions(s.store, call.request.key)[n];
    LogAppended(s.effects, Entry(id, call, Found(read.value, n + 1)));
    HistoryAppended(s.store.history, Tx(id, call.session, Get(call.request.key, read, n + 1)));
  }

  lemma StepLogsEffect<K, V>(s: Sys<K, V>, step: Step<K, V>, s': Sys<K, V>)
    requires Takes(s, step, s') && Logged(s.effects) == EntriesOf(s.store.history)
    ensures Logged(s'.effects) == EntriesOf(s'.store.history)
  {
    if step.Commit? {
      var call := s.calls[step.id].call;
      if call.request.PutRequest? {
        PutIsLogged(s, step.id, call);
      } else if call.request.key in s.store.kvMap {
        GetIsLogged(s, step.id, call, step.n);
      } else {
        LogAppended(s.effects, Entry(step.id, call, NotFound));
      }
    }
  }

  /** Without the not-found GETs, the effects are exactly the history, under any selector. */
  lemma {:induction false} EffectsAreTheHistory<K(!new), V(!new)>(run: seq<Sys<K, V>>, i: nat)
    requires IsRun(run) && i < |run|
    ensures Logged(run[i].effects) == EntriesOf(run[i].store.history)
  {
    if i > 0 {
      EffectsAreTheHistory(run, i - 1);
      var step := StepOf(run, i - 1);
      StepLogsEffect(run[i - 1], step, run[i]);
    }
  }

  lemma {:induction false} KeysOfMap<K, V>(es: seq<Entry<K, V>>, k: K)
    ensures k in MapAfter(es) <==> exists i :: 0 <= i < |es| && es[i].call.request.PutRequest? && es[i].call.request.key == k
  {
    if es != [] {
      var front := es[..|es| - 1];
      KeysOfMap(front, k);
      assert forall i :: 0 <= i < |front| ==> front[i] == es[i];
    }
  }

  /** A GET that found no key took effect before every PUT on that key. */
  lemma NotFoundComesFirst<K(!new), V(!new)>(run: seq<Sys<K, V>>, i: nat, x: nat, y: nat)
    requires IsRun(run) && i < |run| && run[0].policy == Linearizable
    requires x < |run[i].effects| && y < |run[i].effects|
    requires run[i].effects[x].reply.NotFound?
    requires run[i].effects[x].call.request.GetRequest? && run[i].effects[y].call.request.PutRequest?
    requires run[i].effects[x].call.request.key == run[i].effects[y].call.request.key
    ensures x < y
  {
    RunActsAsMap(run, i);
    var es := run[i].effects;
    KeysOfMap(es[..x], es[x].call.request.key);
    assert forall j :: 0 <= j < x ==> es[..x][j] == es[j];
  }
}
