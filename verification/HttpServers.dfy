/** The conditional POST of the HTTP server: compare the given ETag with the version a GET returns, then
    put, all under the server's mutex. Plain GET requests take no mutex and run at any time. */
module HttpServers {
  import opened Stores
  import opened ReadSelectors
  import opened KvStores

  // ---------------------------------------------------------------- version numbers as text

  function Digit(d: nat): char
    requires d < 10
  {
    "0123456789"[d]
  }

  /** Decimal digits of a version number, as the ETag carries them. */
  function Decimal(n: nat): (text: string)
    ensures text != []
  {
    if n < 10 then [Digit(n)] else Decimal(n / 10) + [Digit(n % 10)]
  }

  lemma {:induction false} DecimalIsInjective(m: nat, n: nat)
    requires Decimal(m) == Decimal(n)
    ensures m == n
    decreases m
  {
    var a, b := Decimal(m), Decimal(n);
    assert a[|a| - 1] == Digit(m % 10) && b[|b| - 1] == Digit(n % 10);
    if m >= 10 && n >= 10 {
      assert a[..|a| - 1] == Decimal(m / 10) && b[..|b| - 1] == Decimal(n / 10);
      DecimalIsInjective(m / 10, n / 10);
    }
  }

  /** The number a text of decimal digits stands for. */
  function Parsed(text: string): int {
    if text == [] then 0 else 10 * Parsed(text[..|text| - 1]) + (text[|text| - 1] as int - '0' as int)
  }

  /** Decimal digits without leading zeros: what the standard conversion of a number prints. */
  predicate IsStandardNumber(text: string) {
    && text != []
    && (forall i :: 0 <= i < |text| ==> '0' <= text[i] <= '9')
    && (text[0] == '0' ==> |text| == 1)
  }

  lemma DigitValue(d: nat)
    requires d < 10
    ensures '0' <= Digit(d) <= '9' && Digit(d) as int - '0' as int == d
  {}

  lemma {:induction false} DecimalIsStandard(n: nat)
    ensures IsStandardNumber(Decimal(n)) && Parsed(Decimal(n)) == n
    ensures Decimal(n)[0] == '0' ==> n == 0
  {
    DigitValue(n % 10);
    if n >= 10 {
      DecimalIsStandard(n / 10);
      assert Decimal(n)[..|Decimal(n)| - 1] == Decimal(n / 10);
    } else {
      assert [Digit(n)][..0] == [];
    }
  }

  lemma {:induction false} StandardIsDecimal(text: string)
    requires IsStandardNumber(text)
    ensures Parsed(text) >= 0 && (text[0] != '0' ==> Parsed(text) > 0)
    ensures Decimal(Parsed(text)) == text
  {
    var front, last := text[..|text| - 1], text[|text| - 1];
    var d := last as int - '0' as int;
    DigitValue(d);
    assert text == front + [last];
    if front != [] {
      StandardIsDecimal(front);
      assert (10 * Parsed(front) + d) / 10 == Parsed(front) && (10 * Parsed(front) + d) % 10 == d;
      assert Decimal(Parsed(text)) == Decimal(Parsed(front)) + [Digit(d)];
    }
  }

  /** A text is the decimal text of `n` exactly when it has digits only, no leading zero, and stands for `n`. */
  lemma DecimalIff(n: nat, text: string)
    ensures Decimal(n) == text <==> IsStandardNumber(text) && Parsed(text) == n
  {
    DecimalIsStandard(n);
    if IsStandardNumber(text) {
      StandardIsDecimal(text);
    }
  }

  // ---------------------------------------------------------------- the handler

  /** The version a POST compares with: 0 for an unknown key, else the number of what it read. */
  ghost predicate SeesVersion<K, V>(p: Policy, st: Store<K, V>, s: Session, k: K, version: int) {
    if k in st.kvMap then version >= 1 && MayAnswer(p, st, s, k, version - 1) else version == 0
  }

  ghost function AfterCheck<K, V>(st: Store<K, V>, id: TxId, s: Session, k: K, version: int): Store<K, V>
    requires 0 <= version <= |Versions(st, k)|
  {
    if version == 0 then st else CommitGet(st, id, s, k, version - 1)
  }

  /** Only a check that finds the key takes one read of the selector. */
  function PolicyAfterCheck<K, V>(p: Policy, st: Store<K, V>, k: K): Policy {
    if k in st.kvMap then AfterRead(p) else p
  }

  class HttpServer<V> {
    const store: KvStore<string, V>

    constructor (store: KvStore<string, V>)
      ensures this.store == store
    {
      this.store := store;
    }

    /** The version of `key` this session is given now; 0 when the GET throws. */
    method CurrentVersion(key: string, s: Session, rng: nat -> nat) returns (version: int)
      requires store.Valid() && WellFormed(store.View())
      modifies store, store.selector.Objects()
      ensures store.Valid() && WellFormed(store.View()) && store.selector == old(store.selector)
      ensures store.selector.Policy() == PolicyAfterCheck(old(store.selector.Policy()), old(store.View()), key)
      ensures SeesVersion(old(store.selector.Policy()), old(store.View()), s, key, version)
      ensures 0 <= version <= |Versions(old(store.View()), key)|
      ensures store.txCount == old(store.txCount) + 1
      ensures store.View() == AfterCheck(old(store.View()), store.txCount, s, key, version)
    {
      version := 0;
      var r := store.GetTx(key, s, rng);
      if r.Ok? {
        version := r.value.1;
      }
    }

    method Write(key: string, value: V, s: Session)
      requires store.Valid() && WellFormed(store.View())
      modifies store
      ensures store.Valid() && WellFormed(store.View()) && store.selector == old(store.selector)
      ensures store.selector.Policy() == old(store.selector.Policy())
      ensures store.txCount == old(store.txCount) + 1
      ensures store.View() == CommitPut(old(store.View()), store.txCount, s, key, value)
    {
      store.Put(key, value, s);
      PutKeepsWellFormed(old(store.View()), store.txCount, s, key, value);
    }

    /** `version` is the version the ETag was compared with. */
    method HandlePost(key: string, value: V, etag: Option<string>, s: Session, rng: nat -> nat)
      returns (success: bool, ghost version: int)
      requires store.Valid() && WellFormed(store.View())
      modifies store, store.selector.Objects()
      ensures store.Valid() && WellFormed(store.View()) && store.selector == old(store.selector)
      ensures store.selector.Policy() ==
              if etag.Some? then PolicyAfterCheck(old(store.selector.Policy()), old(store.View()), key)
              else old(store.selector.Policy())
      ensures store.txCount == old(store.txCount) + (if etag.Some? then 1 else 0) + (if success then 1 else 0)
      ensures etag.None? ==>
        success && store.View() == CommitPut(old(store.View()), store.txCount, s, key, value)
      ensures etag.Some? ==>
        && SeesVersion(old(store.selector.Policy()), old(store.View()), s, key, version)
        && 0 <= version <= |Versions(old(store.View()), key)|
        && (success <==> Decimal(version) == etag.value)
        && (success <==> IsStandardNumber(etag.value) && Parsed(etag.value) == version)
        && var checked := AfterCheck(old(store.View()), old(store.txCount) + 1, s, key, version);
           store.View() == if success then CommitPut(checked, store.txCount, s, key, value) else checked
    {
      version := 0;
      if etag.Some? {
        var current := CurrentVersion(key, s, rng);
        success, version := Decimal(current) == etag.value, current;
        DecimalIff(current, etag.value);
      } else {
        success := true;
      }
      if success {
        Write(key, value, s);
      }
    }
  }
}

/** All requests of the server, interleaved, and what holds of the ETags that matched. */
module HttpRuns {
  import opened Stores
  import opened ConsistencyChecker
  import opened ReadSelectors
  import opened HttpServers
  import KvStores

  /** A POST between its check and its put: it holds the mutex. */
  datatype Pending<V> = Pending(session: Session, key: string, value: V, etag: string, version: nat)

  /** A POST whose ETag matched; `version` is what the ETag named. */
  datatype Win = Win(session: Session, key: string, etag: string, version: nat)

  datatype Server<V> = Server(store: Store<string, V>, policy: Policy, mutex: Option<Pending<V>>, wins: seq<Win>)

  datatype Step<V> =
    | HandleGet(id: TxId, s: Session, key: string, n: nat)
    | Post(id: TxId, s: Session, key: string, value: V)
    | CheckETag(id: TxId, s: Session, key: string, value: V, etag: string, n: nat)
    | FinishPost(id: TxId)

  ghost predicate Takes<V>(v: Server<V>, step: Step<V>, v': Server<V>) {
    match step
    case HandleGet(id, s, key, n) =>
      if key !in v.store.kvMap then v' == v else
        && !HasId(v.store.history, id) && MayAnswer(v.policy, v.store, s, key, n)
        && v' == v.(store := CommitGet(v.store, id, s, key, n), policy := AfterRead(v.policy))
    case Post(id, s, key, value) =>
      && v.mutex == None && !HasId(v.store.history, id)
      && v' == v.(store := CommitPut(v.store, id, s, key, value))
    case CheckETag(id, s, key, value, etag, n) =>
      v.mutex == None &&
      if key !in v.store.kvMap then v' == v.(mutex := Some(Pending(s, key, value, etag, 0))) else
        && !HasId(v.store.history, id) && MayAnswer(v.policy, v.store, s, key, n)
        && v' == v.(store := CommitGet(v.store, id, s, key, n), policy := AfterRead(v.policy),
                    mutex := Some(Pending(s, key, value, etag, n + 1)))
    case FinishPost(id) =>
      v.mutex.Some? && var p := v.mutex.value;
      if Decimal(p.version) != p.etag then v' == v.(mutex := None) else
        && !HasId(v.store.history, id)
        && v' == v.(store := CommitPut(v.store, id, p.session, p.key, p.value), mutex := None,
                    wins := v.wins + [Win(p.session, p.key, p.etag, p.version)])
  }

  ghost predicate IsRun<V(!new)>(run: seq<Server<V>>) {
    && run != [] && run[0].store == Empty() && run[0].mutex == None && run[0].wins == []
    && forall i: nat :: i + 1 < |run| ==> StepAt(run, i)
  }

  ghost predicate Next<V(!new)>(v: Server<V>, v': Server<V>) {
    exists step :: Takes(v, step, v')
  }

  ghost predicate StepAt<V(!new)>(run: seq<Server<V>>, i: nat) {
    i + 1 < |run| && Next(run[i], run[i + 1])
  }

  /** What `HandlePost` promises of a POST with an ETag is a check followed by a finish, with no step between. */
  lemma HandledPostIsTwoSteps<V>(v: Server<V>, id: TxId, s: Session, key: string, value: V, etag: string,
                                 version: nat, v': Server<V>) returns (n: nat, mid: Server<V>)
    requires v.mutex == None && forall i :: 0 <= i < |v.store.history| ==> v.store.history[i].id < id
    requires SeesVersion(v.policy, v.store, s, key, version) && version <= |Versions(v.store, key)|
    requires var checked := AfterCheck(v.store, id, s, key, version);
             var success := Decimal(version) == etag;
             v' == Server(if success then CommitPut(checked, id + 1, s, key, value) else checked,
                          PolicyAfterCheck(v.policy, v.store, key), None,
                          v.wins + if success then [Win(s, key, etag, version)] else [])
    ensures Takes(v, CheckETag(id, s, key, value, etag, n), mid) && Takes(mid, FinishPost(id + 1), v')
  {
    n := if version == 0 then 0 else version - 1;
    mid := Server(AfterCheck(v.store, id, s, key, version), PolicyAfterCheck(v.policy, v.store, key),
                  Some(Pending(s, key, value, etag, version)), v.wins);
    assert v.wins + [] == v.wins;
  }

  /** What `HandlePost` promises of a POST without an ETag is one step. */
  lemma HandledPlainPostIsOneStep<V>(v: Server<V>, id: TxId, s: Session, key: string, value: V, v': Server<V>)
    requires v.mutex == None && forall i :: 0 <= i < |v.store.history| ==> v.store.history[i].id < id
    requires v' == Server(CommitPut(v.store, id, s, key, value), v.policy, None, v.wins)
    ensures Takes(v, Post(id, s, key, value), v')
  {}

  /** What `KvStore.GetTx` promises on a well-formed store is one GET step. */
  lemma HandledGetIsOneStep<V>(v: Server<V>, id: TxId, s: Session, key: string, r: KvStores.Result<(V, int)>, v': Server<V>)
    returns (n: nat)
    requires forall i :: 0 <= i < |v.store.history| ==> v.store.history[i].id < id
    requires if key !in v.store.kvMap then r.Err? && v' == v
             else r.Ok? &&
                  var i := r.value.1 - 1;
                  && i >= 0 && MayAnswer(v.policy, v.store, s, key, i)
                  && v' == Server(CommitGet(v.store, id, s, key, i), AfterRead(v.policy), v.mutex, v.wins)
    ensures Takes(v, HandleGet(id, s, key, n), v')
  {
    n := if r.Ok? then r.value.1 - 1 else 0;
  }

  // ---------------------------------------------------------------- what the wins of a run have in common

  ghost predicate SameSession(w: Win, x: Win) {
    w.session == x.session && w.key == x.key
  }

  /** A winner's session has since seen a newer version, and the winner's key exists. */
  ghost predicate WinsSeen<V>(v: Server<V>) {
    forall i :: 0 <= i < |v.wins| ==>
      var w := v.wins[i];
      w.etag == Decimal(w.version) && w.key in v.store.kvMap && w.version <= Floor(v.store.history, w.session, w.key)
  }

  ghost predicate WinsOrdered(wins: seq<Win>) {
    && (forall i, j :: 0 <= i < j < |wins| && SameSession(wins[i], wins[j]) ==> wins[i].version < wins[j].version)
    && (forall i, j :: 0 <= i < j < |wins| && wins[i].key == wins[j].key ==> wins[j].version > 0)
  }

  /** The POST that holds the mutex is ahead of all earlier winners of its session and key. */
  ghost predicate PendingAhead<V>(v: Server<V>) {
    v.mutex.Some? ==>
      var p := v.mutex.value;
      && p.version <= |Versions(v.store, p.key)|
      && (p.version == 0 ==> p.key !in v.store.kvMap)
      && (forall i :: 0 <= i < |v.wins| && v.wins[i].session == p.session && v.wins[i].key == p.key ==>
            v.wins[i].version < p.version)
  }

  ghost predicate Inv<V>(v: Server<V>) {
    SessionSafe(v.store) && WinsSeen(v) && WinsOrdered(v.wins) && PendingAhead(v)
  }

  lemma FloorGrows<K(!new), V>(h: seq<Tx<K, V>>, tx: Tx<K, V>, s: Session, k: K)
    ensures Floor(h, s, k) <= Floor(h + [tx], s, k)
    ensures tx.session == s && tx.op.key == k ==> Ver(h + [tx], |h|) <= Floor(h + [tx], s, k)
  {
    assert (h + [tx])[..|h|] == h;
  }

  lemma GetKeepsInv<V>(v: Server<V>, id: TxId, s: Session, key: string, n: nat)
    requires Inv(v) && !HasId(v.store.history, id) && MayAnswer(v.policy, v.store, s, key, n)
    ensures Inv(v.(store := CommitGet(v.store, id, s, key, n), policy := AfterRead(v.policy)))
    ensures Floor(v.store.history, s, key) <= n
  {
    var tx := Tx(id, s, Op.Get(key, Versions(v.store, key)[n], n + 1));
    AnswersAboveFloor(v.policy, v.store, s, key, n);
    GetKeepsSessionSafe(v.store, id, s, key, n);
    forall i | 0 <= i < |v.wins| {
      FloorGrows(v.store.history, tx, v.wins[i].session, v.wins[i].key);
    }
  }

  lemma PutKeepsWinsSeen<V>(v: Server<V>, id: TxId, s: Session, key: string, value: V)
    requires SessionSafe(v.store) && WinsSeen(v) && !HasId(v.store.history, id)
    ensures SessionSafe(CommitPut(v.store, id, s, key, value))
    ensures WinsSeen(v.(store := CommitPut(v.store, id, s, key, value)))
    ensures |Versions(v.store, key)| <= Floor(CommitPut(v.store, id, s, key, value).history, s, key)
  {
    var tx := Tx(id, s, Op.Put(key, value));
    PutKeepsSessionSafe(v.store, id, s, key, value);
    Appended(v.store.history, tx);
    assert Versions(v.store, key) == PutsOn(v.store.history, key);
    FloorGrows(v.store.history, tx, s, key);
    forall i | 0 <= i < |v.wins| {
      FloorGrows(v.store.history, tx, v.wins[i].session, v.wins[i].key);
    }
  }

  lemma WinKeepsOrder<V>(v: Server<V>, w: Win)
    requires WinsSeen(v) && WinsOrdered(v.wins) && PendingAhead(v) && v.mutex.Some?
    requires var p := v.mutex.value; w == Win(p.session, p.key, p.etag, p.version)
    ensures WinsOrdered(v.wins + [w])
  {
    forall i | 0 <= i < |v.wins| && v.wins[i].key == w.key ensures w.version > 0 {
      assert v.wins[i].key in v.store.kvMap;
    }
  }

  lemma WinIsSeen<V>(v: Server<V>, w: Win)
    requires WinsSeen(v) && w.etag == Decimal(w.version) && w.key in v.store.kvMap
    requires w.version <= Floor(v.store.history, w.session, w.key)
    ensures WinsSeen(v.(mutex := None, wins := v.wins + [w]))
  {}

  lemma FinishKeepsInv<V>(v: Server<V>, id: TxId, v': Server<V>)
    requires Inv(v) && v.mutex.Some? && Takes(v, FinishPost(id), v')
    ensures Inv(v')
  {
    var p := v.mutex.value;
    if Decimal(p.version) == p.etag {
      var w := Win(p.session, p.key, p.etag, p.version);
      PutKeepsWinsSeen(v, id, p.session, p.key, p.value);
      WinIsSeen(v.(store := CommitPut(v.store, id, p.session, p.key, p.value)), w);
      WinKeepsOrder(v, w);
    }
  }

  lemma StepKeepsInv<V>(v: Server<V>, step: Step<V>, v': Server<V>)
    requires Inv(v) && Takes(v, step, v')
    ensures Inv(v')
  {
    match step {
      case HandleGet(id, s, key, n) =>
        if key in v.store.kvMap {
          GetKeepsInv(v, id, s, key, n);
        }
      case Post(id, s, key, value) =>
        PutKeepsWinsSeen(v, id, s, key, value);
      case CheckETag(id, s, key, value, etag, n) =>
        if key in v.store.kvMap {
          GetKeepsInv(v, id, s, key, n);
        }
      case FinishPost(id) =>
        FinishKeepsInv(v, id, v');
    }
  }

  lemma {:induction false} RunKeepsInv<V(!new)>(run: seq<Server<V>>, i: nat)
    requires IsRun(run) && i < |run|
    ensures Inv(run[i])
  {
    if i > 0 {
      RunKeepsInv(run, i - 1);
      assert StepAt(run, i - 1);
      var step :| Takes(run[i - 1], step, run[i]);
      StepKeepsInv(run[i - 1], step, run[i]);
    }
  }

  /** Under any selector: a session wins with a given ETag on a key at most once, and ETag "0" wins at
      most once per key over all sessions. */
  lemma ETagsWinOnce<V(!new)>(run: seq<Server<V>>, n: nat, i: nat, j: nat)
    requires IsRun(run) && n < |run| && i < j < |run[n].wins| && run[n].wins[i].key == run[n].wins[j].key
    ensures run[n].wins[i].session == run[n].wins[j].session ==> run[n].wins[i].etag != run[n].wins[j].etag
    ensures run[n].wins[j].etag != "0"
  {
    RunKeepsInv(run, n);
    var w, x := run[n].wins[i], run[n].wins[j];
    if w.etag == x.etag {
      DecimalIsInjective(w.version, x.version);
      assert !SameSession(w, x);
    }
    if x.etag == "0" {
      DecimalIsInjective(x.version, 0);
    }
  }

  // ---------------------------------------------------------------- with the linearizable selector

  ghost predicate Linear<V>(v: Server<V>) {
    && v.policy == Linearizable
    && (forall i :: 0 <= i < |v.wins| ==> v.wins[i].version < |Versions(v.store, v.wins[i].key)|)
    && (v.mutex.Some? ==> v.mutex.value.version == |Versions(v.store, v.mutex.value.key)|)
    && (forall i, j :: 0 <= i < j < |v.wins| && v.wins[i].key == v.wins[j].key ==> v.wins[i].version < v.wins[j].version)
  }

  lemma FinishKeepsLinear<V>(v: Server<V>, id: TxId, v': Server<V>)
    requires Linear(v) && Takes(v, FinishPost(id), v')
    ensures Linear(v')
  {
    var p := v.mutex.value;
    if Decimal(p.version) == p.etag {
      forall i | 0 <= i < |v'.wins| ensures v'.wins[i].version < |Versions(v'.store, v'.wins[i].key)| {
        if i < |v.wins| {
          assert v'.wins[i] == v.wins[i];
        }
      }
    }
  }

  lemma StepKeepsLinear<V>(v: Server<V>, step: Step<V>, v': Server<V>)
    requires Linear(v) && Takes(v, step, v')
    ensures Linear(v')
  {
    match step {
      case HandleGet(_, _, _, _) =>
        assert v'.store.kvMap == v.store.kvMap;
      case Post(id, s, key, value) =>
        assert forall i :: 0 <= i < |v.wins| ==> v'.wins[i] == v.wins[i];
      case CheckETag(_, _, key, _, _, _) =>
        assert v'.store.kvMap == v.store.kvMap;
      case FinishPost(id) =>
        FinishKeepsLinear(v, id, v');
    }
  }

  lemma {:induction false} RunKeepsLinear<V(!new)>(run: seq<Server<V>>, i: nat)
    requires IsRun(run) && i < |run| && run[0].policy == Linearizable
    ensures Linear(run[i])
  {
    if i > 0 {
      RunKeepsLinear(run, i - 1);
      RunKeepsInv(run, i - 1);
      assert StepAt(run, i - 1);
      var step :| Takes(run[i - 1], step, run[i]);
      StepKeepsLinear(run[i - 1], step, run[i]);
    }
  }

  /** With the linearizable selector an ETag wins at most once per key over all sessions. */
  lemma LinearizableETagsWinOnce<V(!new)>(run: seq<Server<V>>, n: nat, i: nat, j: nat)
    requires IsRun(run) && n < |run| && run[0].policy == Linearizable
    requires i < j < |run[n].wins| && run[n].wins[i].key == run[n].wins[j].key
    ensures run[n].wins[i].etag != run[n].wins[j].etag
  {
    RunKeepsInv(run, n);
    RunKeepsLinear(run, n);
    var w, x := run[n].wins[i], run[n].wins[j];
    if w.etag == x.etag {
      DecimalIsInjective(w.version, x.version);
    }
  }

  // ---------------------------------------------------------------- the ETag against the latest version

  /** With the causal selector a session sees the versions above its floor. */
  lemma SeenIffAboveFloor<V>(st: Store<string, V>, s: Session, key: string, version: int)
    requires WellFormed(st) && key in st.kvMap
    ensures SeesVersion(Causal, st, s, key, version) <==> Floor(st.history, s, key) < version <= |Versions(st, key)|
  {
    FloorIsLargest(st.history, s, key);
    if 1 <= version <= |Versions(st, key)| {
      AcceptsIffAboveFloor(st, s, key, version - 1);
    }
  }

  /** With the causal selector, an ETag that matches is sure to name the latest version exactly when the
      session has already seen that version (or the key does not exist). */
  lemma MatchIsLatestIff<V>(st: Store<string, V>, s: Session, key: string)
    requires WellFormed(st)
    ensures (forall version :: SeesVersion(Causal, st, s, key, version) ==> version == |Versions(st, key)|)
            <==> key !in st.kvMap || Floor(st.history, s, key) == |Versions(st, key)| - 1
  {
    if key in st.kvMap {
      NewestIsAboveFloor(st, s, key);
      forall version ensures SeesVersion(Causal, st, s, key, version) <==>
                             Floor(st.history, s, key) < version <= |Versions(st, key)|
      {
        SeenIffAboveFloor(st, s, key, version);
      }
      assert SeesVersion(Causal, st, s, key, Floor(st.history, s, key) + 1);
    }
  }

  lemma Extend<V(!new)>(run: seq<Server<V>>, step: Step<V>, v': Server<V>)
    requires IsRun(run) && Takes(run[|run| - 1], step, v')
    ensures IsRun(run + [v'])
  {
    var run' := run + [v'];
    forall i: nat | i + 1 < |run'| ensures StepAt(run', i) {
      if i + 1 < |run| {
        assert StepAt(run, i);
      }
    }
  }

  /** A POST with an ETag, run without interruption, that matches version `n + 1`. */
  lemma WinningPost<V(!new)>(run: seq<Server<V>>, s: Session, key: string, value: V, n: nat, id: TxId)
    returns (run': seq<Server<V>>)
    requires IsRun(run)
    requires var v := run[|run| - 1];
             v.mutex == None && key in v.store.kvMap && MayAnswer(v.policy, v.store, s, key, n) && v.policy == Causal &&
             forall i :: 0 <= i < |v.store.history| ==> v.store.history[i].id < id
    ensures IsRun(run') && run <= run'
    ensures var v, v' := run[|run| - 1], run'[|run'| - 1];
            v'.wins == v.wins + [Win(s, key, Decimal(n + 1), n + 1)] && v'.mutex == None && v'.policy == Causal &&
            v'.store == CommitPut(CommitGet(v.store, id, s, key, n), id + 1, s, key, value)
  {
    var v := run[|run| - 1];
    var p := Pending(s, key, value, Decimal(n + 1), n + 1);
    var v1 := v.(store := CommitGet(v.store, id, s, key, n), mutex := Some(p));
    Extend(run, CheckETag(id, s, key, value, Decimal(n + 1), n), v1);
    var v2 := v1.(store := CommitPut(v1.store, id + 1, s, key, value), mutex := None,
                  wins := v1.wins + [Win(s, key, Decimal(n + 1), n + 1)]);
    Extend(run + [v1], FinishPost(id + 1), v2);
    run' := run + [v1] + [v2];
  }

  lemma StoreAfterFirstPost(st: Store<string, int>)
    requires st == CommitPut(Empty(), 1, 1, "k", 10)
    ensures st.kvMap == map["k" := [Version(10, 1)]] && st.history == [Tx(1, 1, Op.Put("k", 10))]
    ensures SessionHistory(st, 2) == [] && MayAnswer(Causal, st, 1, "k", 0)
  {
    assert [] + [Version(10, 1)] == [Version(10, 1)];
    StaleAnswerIsAllowed(st, 1);
  }

  lemma StoreAfterFirstWin(st: Store<string, int>, st': Store<string, int>)
    requires st.kvMap == map["k" := [Version(10, 1)]] && |st.history| == 1 && st.history[0].id == 1
    requires SessionHistory(st, 2) == []
    requires st' == CommitPut(CommitGet(st, 2, 1, "k", 0), 3, 1, "k", 20)
    ensures Versions(st', "k") == [Version(10, 1), Version(20, 3)] && "k" in st'.kvMap
    ensures forall i :: 0 <= i < |st'.history| ==> st'.history[i].id < 4
    ensures MayAnswer(Causal, st', 2, "k", 0)
  {
    assert SessionHistory(st', 2) == [];
    assert Dependent(SessionHistory(st', 2), "k") == {};
  }

  lemma FirstPost() returns (run: seq<Server<int>>)
    ensures IsRun(run) && run[0].policy == Causal
    ensures run[|run| - 1] == Server(CommitPut(Empty(), 1, 1, "k", 10), Causal, None, [])
  {
    var v0: Server<int> := Server(Empty(), Causal, None, []);
    var v1 := v0.(store := CommitPut(v0.store, 1, 1, "k", 10));
    Extend([v0], Post(1, 1, "k", 10), v1);
    run := [v0] + [v1];
  }

  /** Session 1 creates the key and then wins with ETag "1". */
  lemma FirstWin() returns (run: seq<Server<int>>)
    ensures IsRun(run) && run[0].policy == Causal
    ensures var v := run[|run| - 1];
            && v.wins == [Win(1, "k", Decimal(1), 1)] && v.mutex == None && v.policy == Causal
            && "k" in v.store.kvMap && MayAnswer(Causal, v.store, 2, "k", 0)
            && forall i :: 0 <= i < |v.store.history| ==> v.store.history[i].id < 4
  {
    run := FirstPost();
    var st := run[|run| - 1].store;
    StoreAfterFirstPost(st);
    run := WinningPost(run, 1, "k", 20, 0, 2);
    StoreAfterFirstWin(st, run[|run| - 1].store);
  }

  /** So with the causal selector two sessions can both win with ETag "1" on one key: the second POST
      silently overwrites a version its session has not seen. */
  lemma StaleETagCanWin() returns (run: seq<Server<int>>)
    ensures IsRun(run) && run[0].policy == Causal
    ensures var wins := run[|run| - 1].wins;
            |wins| == 2 && wins[0].key == wins[1].key && wins[0].etag == wins[1].etag == "1"
  {
    run := FirstWin();
    run := WinningPost(run, 2, "k", 30, 0, 4);
    assert Decimal(1) == "1";
  }

  lemma EmptyIsWellFormed<K(!new), V>()
    ensures WellFormed(Stores.Empty<K, V>())
  {}

  lemma StaleAnswerIsAllowed(st: Store<string, int>, id: TxId)
    requires st == CommitPut(Empty(), id, 1, "k", 10)
    ensures MayAnswer(Causal, st, 1, "k", 0)
  {
    EmptyIsWellFormed<string, int>();
    PutKeepsWellFormed(Stores.Empty<string, int>(), id, 1, "k", 10);
    GetIsNeverStuck(Causal, st, 1, "k");
  }
}
