/** The Treiber stack over the store: every get and put is its own step, and only `update_head` holds
    a mutex across its get and put. This module has the steps and what holds under any read selector. */
module TreiberSteps {
  import opened Stores
  import opened ReadSelectors

  const NIL := -1
  const HEAD := 0

  /** `next` of the entry at `HEAD` is the id of the top node. */
  datatype Node = Node(val: int, next: int)

  /** Where a thread is inside `push` or `pop`. */
  datatype Pc =
    | Idle
    | PushSized(val: int, id: int)                        // chose its node id, node not stored yet
    | PushLoop(val: int, id: int)                         // at the top of the retry loop
    | PushRead(val: int, id: int, cur: int)               // read the head
    | PushReady(val: int, id: int, cur: int)              // linked its node to that head
    | PushLocked(val: int, id: int, cur: int, head: int)  // inside update_head, after its get
    | PopLoop
    | PopRead(cur: int)
    | PopReady(cur: int, node: Node)
    | PopLocked(cur: int, node: Node, head: int)

  /** What a step means to the caller of the stack. */
  datatype Label = Tau | Pushed(val: int) | Popped(val: int) | PoppedNothing | Raised

  datatype Sys = Sys(store: Store<int, Node>, pcs: map<Session, Pc>, mutex: Option<Session>)

  /** A thread's choice: what to call, or the transaction id and version of its next store operation. */
  datatype Move = StartPush(val: int) | StartPop | Advance(id: TxId, n: nat)

  function To(s: Sys, t: Session, st: Store<int, Node>, pc: Pc, mutex: Option<Session>): Sys {
    Sys(st, s.pcs[t := pc], mutex)
  }

  function NewNodeId(s: Sys, t: Session): int {
    |s.store.kvMap| * 10 + t
  }

  /** May a get of `k` be answered with version `n`? With `newest`, only with the last one. */
  predicate Answers(newest: bool, st: Store<int, Node>, k: int, n: nat) {
    n < |Versions(st, k)| && (newest ==> n == |Versions(st, k)| - 1)
  }

  ghost predicate CanPut(s: Sys, mv: Move) {
    mv.Advance? && !HasId(s.store.history, mv.id)
  }

  ghost predicate CanGet(newest: bool, s: Sys, mv: Move, k: int) {
    CanPut(s, mv) && Answers(newest, s.store, k, mv.n)
  }

  function PutNode(s: Sys, mv: Move, session: Session, k: int, node: Node): Store<int, Node>
    requires mv.Advance?
  {
    CommitPut(s.store, mv.id, session, k, node)
  }

  function GetNode(s: Sys, mv: Move, session: Session, k: int): Store<int, Node>
    requires mv.Advance? && mv.n < |Versions(s.store, k)|
  {
    CommitGet(s.store, mv.id, session, k, mv.n)
  }

  function Value(s: Sys, mv: Move, k: int): Node
    requires mv.Advance? && mv.n < |Versions(s.store, k)|
  {
    Versions(s.store, k)[mv.n].value
  }

  // ---------------------------------------------------------------- the steps of one thread

  ghost predicate PushStep(newest: bool, s: Sys, t: Session, mv: Move, s': Sys, l: Label)
    requires t in s.pcs
  {
    match s.pcs[t]
    case PushSized(val, id) =>
      // the node writes use the default session
      CanPut(s, mv) && l == Tau && s' == To(s, t, PutNode(s, mv, 1, id, Node(val, NIL)), PushLoop(val, id), s.mutex)
    case PushLoop(val, id) =>
      l == Tau &&
      if HEAD in s.store.kvMap
      then CanGet(newest, s, mv, HEAD)
           && s' == To(s, t, GetNode(s, mv, t, HEAD), PushRead(val, id, Value(s, mv, HEAD).next), s.mutex)
      else s' == To(s, t, s.store, PushReady(val, id, NIL), s.mutex)
    case PushRead(val, id, cur) =>
      CanPut(s, mv) && l == Tau && s' == To(s, t, PutNode(s, mv, 1, id, Node(val, cur)), PushReady(val, id, cur), s.mutex)
    case PushReady(val, id, cur) =>
      l == Tau && s.mutex == None &&
      if HEAD in s.store.kvMap
      then CanGet(newest, s, mv, HEAD)
           && s' == To(s, t, GetNode(s, mv, t, HEAD), PushLocked(val, id, cur, Value(s, mv, HEAD).next), Some(t))
      else s' == To(s, t, s.store, PushLocked(val, id, cur, NIL), Some(t))
    case PushLocked(val, id, cur, head) =>
      if head == cur
      then CanPut(s, mv) && l == Pushed(val) && s' == To(s, t, PutNode(s, mv, t, HEAD, Node(0, id)), Idle, None)
      else l == Tau && s' == To(s, t, s.store, PushLoop(val, id), None)
    case _ => false
  }

  ghost predicate PopStep(newest: bool, s: Sys, t: Session, mv: Move, s': Sys, l: Label)
    requires t in s.pcs
  {
    match s.pcs[t]
    case PopLoop =>
      if HEAD in s.store.kvMap
      then CanGet(newest, s, mv, HEAD) &&
           var cur := Value(s, mv, HEAD).next;
           if cur == NIL
           then l == PoppedNothing && s' == To(s, t, GetNode(s, mv, t, HEAD), Idle, s.mutex)
           else l == Tau && s' == To(s, t, GetNode(s, mv, t, HEAD), PopRead(cur), s.mutex)
      else l == Raised && s' == To(s, t, s.store, Idle, s.mutex)
    case PopRead(cur) =>
      if cur in s.store.kvMap
      then CanGet(newest, s, mv, cur) && l == Tau
           && s' == To(s, t, GetNode(s, mv, t, cur), PopReady(cur, Value(s, mv, cur)), s.mutex)
      else l == PoppedNothing && s' == To(s, t, s.store, Idle, s.mutex)
    case PopReady(cur, node) =>
      l == Tau && s.mutex == None &&
      if HEAD in s.store.kvMap
      then CanGet(newest, s, mv, HEAD)
           && s' == To(s, t, GetNode(s, mv, t, HEAD), PopLocked(cur, node, Value(s, mv, HEAD).next), Some(t))
      else s' == To(s, t, s.store, PopLocked(cur, node, NIL), Some(t))
    case PopLocked(cur, node, head) =>
      if head == cur
      then CanPut(s, mv) && l == Popped(node.val) && s' == To(s, t, PutNode(s, mv, t, HEAD, Node(0, node.next)), Idle, None)
      else l == Tau && s' == To(s, t, s.store, PopLoop, None)
    case _ => false
  }

  ghost predicate Step(newest: bool, s: Sys, t: Session, mv: Move, s': Sys, l: Label) {
    t in s.pcs &&
    if s.pcs[t].Idle? then
      l == Tau &&
      match mv
      case StartPush(val) => s' == To(s, t, s.store, PushSized(val, NewNodeId(s, t)), s.mutex)
      case StartPop => s' == To(s, t, s.store, PopLoop, s.mutex)
      case Advance(_, _) => false
    else
      PushStep(newest, s, t, mv, s', l) || PopStep(newest, s, t, mv, s', l)
  }

  /** Node ids of two sessions can meet exactly when the session ids agree in their last digit. */
  lemma NodeIdsCollideIff(t: Session, u: Session)
    requires t >= 0 && u >= 0
    ensures (exists n: int, m: int :: n >= 1 && m >= 1 && n * 10 + t == m * 10 + u) <==> t % 10 == u % 10
  {
    if t % 10 == u % 10 {
      assert (u / 10 + 1) * 10 + t == (t / 10 + 1) * 10 + u;
    }
  }

  /** One thread per session, and no two sessions with the same last digit (as with ids 1 to 9). */
  ghost predicate GoodSessions(ts: set<Session>) {
    (forall t :: t in ts ==> t >= 0) &&
    forall t, u :: t in ts && u in ts && t != u ==> t % 10 != u % 10
  }

  ghost predicate Init(s: Sys) {
    && s.store == CommitPut(Empty(), 0, 1, HEAD, Node(0, NIL))
    && GoodSessions(s.pcs.Keys)
    && (forall t :: t in s.pcs ==> s.pcs[t] == Idle)
    && s.mutex == None
  }

  // ---------------------------------------------------------------- node ids, under any selector

  predicate Pushing(pc: Pc) {
    pc.PushSized? || pc.PushLoop? || pc.PushRead? || pc.PushReady? || pc.PushLocked?
  }

  /** The node is stored and no push still works on it. */
  ghost predicate Published(s: Sys, k: int) {
    k in s.store.kvMap && k != HEAD && forall t :: t in s.pcs && Pushing(s.pcs[t]) ==> s.pcs[t].id != k
  }

  ghost predicate SameDigit(k: int, t: Session) {
    k != HEAD && k % 10 == t % 10
  }

  /** Stored ids with a session's last digit come from sizes below the current one. */
  ghost predicate KeysBounded(ks: set<int>, ts: set<Session>) {
    && HEAD in ks
    && (forall k :: k in ks ==> k >= 0)
    && (forall k, t :: k in ks && t in ts && SameDigit(k, t) ==> k - t < 10 * |ks|)
  }

  /** The id a push works on is its session's own: unused before the first put, stored after it. */
  ghost predicate OwnsId(ks: set<int>, t: Session, pc: Pc) {
    Pushing(pc) ==>
      pc.id > 0 && SameDigit(pc.id, t) &&
      if pc.PushSized?
      then pc.id - t <= 10 * |ks| && forall k :: k in ks && SameDigit(k, t) ==> k < pc.id
      else pc.id in ks
  }

  ghost predicate IdsInOrder(s: Sys) {
    && GoodSessions(s.pcs.Keys)
    && KeysBounded(s.store.kvMap.Keys, s.pcs.Keys)
    && forall t :: t in s.pcs ==> OwnsId(s.store.kvMap.Keys, t, s.pcs[t])
  }

  /** Every pointer stored or held by a thread is NIL or the key of a stored node. */
  ghost predicate Points(ks: set<int>, p: int) {
    p == NIL || (p in ks && p != HEAD)
  }

  ghost predicate PcPoints(ks: set<int>, pc: Pc) {
    && (pc.PushRead? || pc.PushReady? || pc.PushLocked? || pc.PopRead? || pc.PopReady? || pc.PopLocked? ==> Points(ks, pc.cur))
    && (pc.PopRead? ==> pc.cur != NIL)
    && (pc.PushLocked? || pc.PopLocked? ==> Points(ks, pc.head))
    && (pc.PopReady? || pc.PopLocked? ==> Points(ks, pc.node.next))
  }

  ghost predicate PointersStored(s: Sys) {
    && (forall k, n: nat :: k in s.store.kvMap && n < |Versions(s.store, k)| ==>
          Points(s.store.kvMap.Keys, Versions(s.store, k)[n].value.next))
    && (forall t :: t in s.pcs ==> PcPoints(s.store.kvMap.Keys, s.pcs[t]))
  }

  ghost predicate Sound(s: Sys) {
    WellFormed(s.store) && IdsInOrder(s) && PointersStored(s)
  }

  /** A new push id is unused, and nobody else can use it before this thread does. */
  lemma NewIdIsFresh(s: Sys, t: Session, val: int)
    requires IdsInOrder(s) && t in s.pcs
    ensures NewNodeId(s, t) !in s.store.kvMap && NewNodeId(s, t) > 0
    ensures OwnsId(s.store.kvMap.Keys, t, PushSized(val, NewNodeId(s, t)))
  {
    var ks := s.store.kvMap.Keys;
    assert |s.store.kvMap| == |ks|;
    assert |ks| >= 1 by { assert ks == {HEAD} + (ks - {HEAD}); }
    forall k | k in ks && SameDigit(k, t) ensures k < NewNodeId(s, t) {}
    assert (|ks| * 10 + t) % 10 == t % 10;
  }

  lemma OthersKeepIds(ks: set<int>, id: int, t: Session, u: Session, pc: Pc)
    requires OwnsId(ks, u, pc) && t >= 0 && u >= 0 && t % 10 != u % 10 && SameDigit(id, t)
    ensures OwnsId(ks + {id}, u, pc)
  {
    assert |ks| <= |ks + {id}| by { assert id !in ks ==> |ks + {id}| == |ks| + 1; assert id in ks ==> ks + {id} == ks; }
    forall k | k in ks + {id} && SameDigit(k, u) ensures k in ks {}
  }

  /** Writing one's own node keeps every session's ids in order. */
  lemma NodePutKeepsIds(s: Sys, t: Session, ks': set<int>, pc: Pc)
    requires IdsInOrder(s) && t in s.pcs && Pushing(s.pcs[t]) && Pushing(pc) && !pc.PushSized? && pc.id == s.pcs[t].id
    requires ks' == s.store.kvMap.Keys + {pc.id}
    ensures KeysBounded(ks', s.pcs.Keys)
    ensures OwnsId(ks', t, pc)
    ensures forall u :: u in s.pcs && u != t ==> OwnsId(ks', u, s.pcs[u])
  {
    var ks := s.store.kvMap.Keys;
    assert OwnsId(ks, t, s.pcs[t]);
    assert pc.id !in ks ==> |ks'| == |ks| + 1;
    assert pc.id in ks ==> ks' == ks;
    forall k, u | k in ks' && u in s.pcs.Keys && SameDigit(k, u) ensures k - u < 10 * |ks'| {
      if k == pc.id && k !in ks {
        assert t % 10 == u % 10;
        assert u == t;
      }
    }
    forall u | u in s.pcs && u != t ensures OwnsId(ks', u, s.pcs[u]) {
      OthersKeepIds(ks, pc.id, t, u, s.pcs[u]);
    }
  }

  // ---------------------------------------------------------------- the shape of a step

  /** Everything a step does to the store: nothing, a get, or one fresh put. */
  datatype Effect = Unchanged | Read(k: int) | Wrote(session: Session, k: int, node: Node)

  ghost predicate HasEffect(s: Sys, mv: Move, s': Sys, e: Effect) {
    match e
    case Unchanged => s'.store == s.store
    case Read(k) => CanPut(s, mv) && mv.n < |Versions(s.store, k)| && exists session :: s'.store == GetNode(s, mv, session, k)
    case Wrote(session, k, node) => CanPut(s, mv) && s'.store == PutNode(s, mv, session, k, node)
  }

  /** A step moves one thread, and writes at most its own node or the head. */
  ghost predicate IsLocal(s: Sys, t: Session, mv: Move, s': Sys, e: Effect) {
    && t in s.pcs && t in s'.pcs && s'.pcs == s.pcs[t := s'.pcs[t]] && HasEffect(s, mv, s', e)
    && var pc, pc' := s.pcs[t], s'.pcs[t];
       && (Pushing(pc) && Pushing(pc') ==> pc'.id == pc.id)
       && (Pushing(pc') && !Pushing(pc) ==> pc.Idle? && pc'.PushSized? && pc'.id == NewNodeId(s, t) && e.Unchanged?)
       && (e.Wrote? && e.k != HEAD ==> Pushing(pc) && Pushing(pc') && !pc'.PushSized? && e.k == pc.id)
       && (Pushing(pc) && Pushing(pc') && pc.PushSized? ==> e.Wrote? && e.k == pc.id)
       && (Pushing(pc) && pc'.PushSized? ==> false)
       && (Pushing(pc) && !Pushing(pc') ==> pc.PushLocked? && pc'.Idle? && e.Wrote? && e.k == HEAD)
  }

  function EffectOf(s: Sys, t: Session): Effect
    requires t in s.pcs
  {
    var onHead := if HEAD in s.store.kvMap then Read(HEAD) else Unchanged;
    match s.pcs[t]
    case Idle => Unchanged
    case PushSized(val, id) => Wrote(1, id, Node(val, NIL))
    case PushLoop(_, _) => onHead
    case PushRead(val, id, cur) => Wrote(1, id, Node(val, cur))
    case PushReady(_, _, _) => onHead
    case PushLocked(_, id, cur, head) => if head == cur then Wrote(t, HEAD, Node(0, id)) else Unchanged
    case PopLoop => onHead
    case PopRead(cur) => if cur in s.store.kvMap then Read(cur) else Unchanged
    case PopReady(_, _) => onHead
    case PopLocked(cur, node, head) => if head == cur then Wrote(t, HEAD, Node(0, node.next)) else Unchanged
  }

  lemma PushStepIsLocal(newest: bool, s: Sys, t: Session, mv: Move, s': Sys, l: Label)
    requires IdsInOrder(s) && t in s.pcs && PushStep(newest, s, t, mv, s', l)
    ensures IsLocal(s, t, mv, s', EffectOf(s, t))
  {
    assert OwnsId(s.store.kvMap.Keys, t, s.pcs[t]);
  }

  lemma PopStepIsLocal(newest: bool, s: Sys, t: Session, mv: Move, s': Sys, l: Label)
    requires t in s.pcs && PopStep(newest, s, t, mv, s', l)
    ensures IsLocal(s, t, mv, s', EffectOf(s, t))
  {}

  lemma StepIsLocal(newest: bool, s: Sys, t: Session, mv: Move, s': Sys, l: Label)
    requires IdsInOrder(s) && Step(newest, s, t, mv, s', l)
    ensures IsLocal(s, t, mv, s', EffectOf(s, t))
  {
    if !s.pcs[t].Idle? {
      if Pushing(s.pcs[t]) {
        PushStepIsLocal(newest, s, t, mv, s', l);
      } else {
        PopStepIsLocal(newest, s, t, mv, s', l);
      }
    }
  }

  // ---------------------------------------------------------------- every step keeps the store sound

  lemma StepKeepsStore(s: Sys, t: Session, mv: Move, s': Sys, e: Effect)
    requires WellFormed(s.store) && IsLocal(s, t, mv, s', e)
    ensures WellFormed(s'.store)
    ensures e.Wrote? ==> s'.store.kvMap == s.store.kvMap[e.k := Versions(s.store, e.k) + [Version(e.node, mv.id)]]
    ensures !e.Wrote? ==> s'.store.kvMap == s.store.kvMap
  {
    match e {
      case Unchanged =>
      case Read(k) =>
        var session :| s'.store == GetNode(s, mv, session, k);
        GetKeepsWellFormed(s.store, mv.id, session, k, mv.n);
      case Wrote(session, k, node) =>
        PutKeepsWellFormed(s.store, mv.id, session, k, node);
    }
  }

  lemma StepKeepsIds(s: Sys, t: Session, mv: Move, s': Sys, e: Effect)
    requires WellFormed(s.store) && IdsInOrder(s) && IsLocal(s, t, mv, s', e)
    ensures IdsInOrder(s')
  {
    StepKeepsStore(s, t, mv, s', e);
    var ks, ks' := s.store.kvMap.Keys, s'.store.kvMap.Keys;
    var pc, pc' := s.pcs[t], s'.pcs[t];
    assert s'.pcs.Keys == s.pcs.Keys;
    assert OwnsId(ks, t, pc);
    if e.Wrote? && e.k != HEAD {
      assert ks' == ks + {pc'.id};
      NodePutKeepsIds(s, t, ks', pc');
    } else {
      assert ks' == ks;
      if Pushing(pc') && !Pushing(pc) {
        NewIdIsFresh(s, t, pc'.val);
      }
    }
    forall u | u in s'.pcs ensures OwnsId(ks', u, s'.pcs[u]) {
      if u != t {
        assert s'.pcs[u] == s.pcs[u];
      }
    }
  }

  /** A published node is never rewritten and never becomes anybody's own node again. */
  lemma PublishedForEver(s: Sys, t: Session, mv: Move, s': Sys, e: Effect, k: int)
    requires WellFormed(s.store) && IdsInOrder(s) && IsLocal(s, t, mv, s', e) && Published(s, k)
    ensures Published(s', k) && Versions(s'.store, k) == Versions(s.store, k)
  {
    StepKeepsStore(s, t, mv, s', e);
    if Pushing(s'.pcs[t]) && !Pushing(s.pcs[t]) {
      NewIdIsFresh(s, t, s'.pcs[t].val);
    }
    forall u | u in s'.pcs && Pushing(s'.pcs[u]) ensures s'.pcs[u].id != k {
      if u != t {
        assert s'.pcs[u] == s.pcs[u];
      }
    }
  }

  // ---------------------------------------------------------------- head ids name stored nodes, under any selector

  lemma ReadPoints(s: Sys, mv: Move, k: int)
    requires PointersStored(s) && mv.Advance? && mv.n < |Versions(s.store, k)|
    ensures Points(s.store.kvMap.Keys, Value(s, mv, k).next)
  {}

  lemma PushKeepsPcPoints(newest: bool, s: Sys, t: Session, mv: Move, s': Sys, l: Label)
    requires IdsInOrder(s) && PointersStored(s) && t in s.pcs && PushStep(newest, s, t, mv, s', l)
    ensures PcPoints(s.store.kvMap.Keys, s'.pcs[t])
    ensures EffectOf(s, t).Wrote? ==> Points(s.store.kvMap.Keys + {EffectOf(s, t).k}, EffectOf(s, t).node.next)
  {
    var pc := s.pcs[t];
    assert PcPoints(s.store.kvMap.Keys, pc) && OwnsId(s.store.kvMap.Keys, t, pc);
    if (pc.PushLoop? || pc.PushReady?) && HEAD in s.store.kvMap {
      ReadPoints(s, mv, HEAD);
    }
  }

  lemma PopKeepsPcPoints(newest: bool, s: Sys, t: Session, mv: Move, s': Sys, l: Label)
    requires PointersStored(s) && t in s.pcs && PopStep(newest, s, t, mv, s', l)
    ensures PcPoints(s.store.kvMap.Keys, s'.pcs[t])
    ensures EffectOf(s, t).Wrote? ==> Points(s.store.kvMap.Keys + {EffectOf(s, t).k}, EffectOf(s, t).node.next)
  {
    var pc := s.pcs[t];
    assert PcPoints(s.store.kvMap.Keys, pc);
    if (pc.PopLoop? || pc.PopReady?) && HEAD in s.store.kvMap {
      ReadPoints(s, mv, HEAD);
    }
    if pc.PopRead? && pc.cur in s.store.kvMap {
      ReadPoints(s, mv, pc.cur);
    }
  }

  lemma StepKeepsPcPoints(newest: bool, s: Sys, t: Session, mv: Move, s': Sys, l: Label)
    requires IdsInOrder(s) && PointersStored(s) && Step(newest, s, t, mv, s', l)
    ensures PcPoints(s.store.kvMap.Keys, s'.pcs[t])
    ensures EffectOf(s, t).Wrote? ==> Points(s.store.kvMap.Keys + {EffectOf(s, t).k}, EffectOf(s, t).node.next)
  {
    if Pushing(s.pcs[t]) {
      PushKeepsPcPoints(newest, s, t, mv, s', l);
    } else if !s.pcs[t].Idle? {
      PopKeepsPcPoints(newest, s, t, mv, s', l);
    }
  }

  lemma StepKeepsStoredPointers(s: Sys, t: Session, mv: Move, s': Sys, e: Effect)
    requires Sound(s) && IsLocal(s, t, mv, s', e)
    requires e.Wrote? ==> Points(s.store.kvMap.Keys + {e.k}, e.node.next)
    ensures forall k, n: nat :: k in s'.store.kvMap && n < |Versions(s'.store, k)| ==>
              Points(s'.store.kvMap.Keys, Versions(s'.store, k)[n].value.next)
  {
    StepKeepsStore(s, t, mv, s', e);
    forall k, n: nat | k in s'.store.kvMap && n < |Versions(s'.store, k)|
      ensures Points(s'.store.kvMap.Keys, Versions(s'.store, k)[n].value.next)
    {
      if n < |Versions(s.store, k)| {
        assert k in s.store.kvMap;
        assert Versions(s'.store, k)[n] == Versions(s.store, k)[n];
      }
    }
  }

  lemma StepKeepsPointers(newest: bool, s: Sys, t: Session, mv: Move, s': Sys, l: Label)
    requires Sound(s) && Step(newest, s, t, mv, s', l)
    ensures PointersStored(s')
  {
    var e := EffectOf(s, t);
    StepIsLocal(newest, s, t, mv, s', l);
    StepKeepsPcPoints(newest, s, t, mv, s', l);
    StepKeepsStoredPointers(s, t, mv, s', e);
    StepKeepsStore(s, t, mv, s', e);
    var ks' := s'.store.kvMap.Keys;
    forall u | u in s'.pcs ensures PcPoints(ks', s'.pcs[u]) {
      if u != t {
        assert s'.pcs[u] == s.pcs[u];
      }
    }
  }

  lemma StepKeepsSound(newest: bool, s: Sys, t: Session, mv: Move, s': Sys, l: Label)
    requires Sound(s) && Step(newest, s, t, mv, s', l)
    ensures Sound(s')
  {
    StepIsLocal(newest, s, t, mv, s', l);
    StepKeepsStore(s, t, mv, s', EffectOf(s, t));
    StepKeepsIds(s, t, mv, s', EffectOf(s, t));
    StepKeepsPointers(newest, s, t, mv, s', l);
  }

  lemma InitialStore(st: Store<int, Node>)
    requires st == CommitPut(Empty(), 0, 1, HEAD, Node(0, NIL))
    ensures st.kvMap == map[HEAD := [Version(Node(0, NIL), 0)]]
  {
    assert [] + [Version(Node(0, NIL), 0)] == [Version(Node(0, NIL), 0)];
  }

  lemma InitialStoreIsWellFormed(st: Store<int, Node>)
    requires st == CommitPut(Empty(), 0, 1, HEAD, Node(0, NIL))
    ensures WellFormed(st)
  {
    var empty: Store<int, Node> := Empty();
    PutKeepsWellFormed(empty, 0, 1, HEAD, Node(0, NIL));
  }

  lemma InitIsSound(s: Sys)
    requires Init(s)
    ensures Sound(s)
  {
    InitialStoreIsWellFormed(s.store);
    InitialStore(s.store);
    assert s.store.kvMap.Keys == {HEAD};
  }
}
