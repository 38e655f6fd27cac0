/** The stack never gets stuck: matching compares succeed, failed ones mean that another thread got ahead, and
    a call that runs alone ends within seven steps. */
module StackProgress {
  import opened Stores
  import opened ReadSelectors
  import opened TreiberSteps
  import opened StackRefinement
  import opened StackRuns

  // ---------------------------------------------------------------- inside update_head

  predicate InUpdate(pc: Pc) {
    pc.PushLocked? || pc.PopLocked?
  }

  predicate AtLoop(pc: Pc) {
    pc.PushLoop? || pc.PopLoop?
  }

  /** What the caller of a matching `update_head` is told. */
  function Success(pc: Pc): Label
    requires InUpdate(pc)
  {
    if pc.PushLocked? then Pushed(pc.val) else Popped(pc.node.val)
  }

  /** A compare that matches succeeds: it is enabled under every fresh id, ends the call and frees the mutex. */
  lemma MatchSucceeds(newest: bool, s: Sys, t: Session)
    requires t in s.pcs && InUpdate(s.pcs[t]) && s.pcs[t].head == s.pcs[t].cur
    ensures forall mv, s', l :: Step(newest, s, t, mv, s', l) ==>
              l == Success(s.pcs[t]) && t in s'.pcs && s'.pcs[t] == Idle && s'.mutex == None
    ensures forall id: TxId :: !HasId(s.store.history, id) ==>
              exists s' :: Step(newest, s, t, Advance(id, 0), s', Success(s.pcs[t]))
  {
    var pc := s.pcs[t];
    var node := if pc.PushLocked? then Node(0, pc.id) else Node(0, pc.node.next);
    forall id: TxId | !HasId(s.store.history, id)
      ensures exists s' :: Step(newest, s, t, Advance(id, 0), s', Success(s.pcs[t]))
    {
      var s' := To(s, t, PutNode(s, Advance(id, 0), t, HEAD, node), Idle, None);
      assert Step(newest, s, t, Advance(id, 0), s', Success(pc));
    }
  }

  /** A compare that does not match fails: it writes nothing, frees the mutex and goes back to the loop. */
  lemma MismatchFails(newest: bool, s: Sys, t: Session)
    requires t in s.pcs && InUpdate(s.pcs[t]) && s.pcs[t].head != s.pcs[t].cur
    ensures forall mv, s', l :: Step(newest, s, t, mv, s', l) ==>
              l == Tau && t in s'.pcs && AtLoop(s'.pcs[t]) && s'.mutex == None && s'.store == s.store
  {}

  /** The thread that acts at `j` goes from inside `update_head` back to its loop. */
  ghost predicate FailsAt(run: seq<Sys>, acts: seq<Act>, j: nat) {
    && j < |acts| && j + 1 < |run| && acts[j].t in run[j].pcs && acts[j].t in run[j + 1].pcs
    && InUpdate(run[j].pcs[acts[j].t]) && AtLoop(run[j + 1].pcs[acts[j].t])
  }

  /** A failed `update_head` means that since this thread read the head, another thread's succeeded. */
  lemma FailureMeansProgress(run: seq<Sys>, acts: seq<Act>, j: nat) returns (i: nat, k: nat)
    requires IsRun(true, run, acts) && FailsAt(run, acts, j)
    ensures i < k < j && acts[i].t == acts[j].t && acts[i].t in run[i].pcs && ReadsHead(run[i].pcs[acts[i].t])
    ensures Succeeds(acts[k].l) && acts[k].t != acts[j].t
  {
    assert StepAt(true, run, acts, j);
    if run[j].pcs[acts[j].t].head == run[j].pcs[acts[j].t].cur {
      MatchSucceeds(true, run[j], acts[j].t);
      assert false;
    }
    i, k := MismatchMeansProgress(run, acts, j, acts[j].t);
  }

  // ---------------------------------------------------------------- the mutex

  /** Only a thread inside `update_head` holds the mutex. */
  ghost predicate HolderInUpdate(s: Sys) {
    s.mutex.Some? ==> s.mutex.value in s.pcs && InUpdate(s.pcs[s.mutex.value])
  }

  lemma StepKeepsHolder(newest: bool, s: Sys, a: Act, s': Sys)
    requires HolderInUpdate(s) && Step(newest, s, a.t, a.mv, s', a.l)
    requires InUpdate(s.pcs[a.t]) ==> s.mutex == Some(a.t)
    ensures HolderInUpdate(s')
  {}

  lemma {:induction false} HolderIsInUpdate(run: seq<Sys>, acts: seq<Act>, i: nat)
    requires IsRun(true, run, acts) && i < |run|
    ensures HolderInUpdate(run[i])
  {
    if i > 0 {
      HolderIsInUpdate(run, acts, i - 1);
      assert StepAt(true, run, acts, i - 1);
      UpdaterHolds(run, acts, i - 1, acts[i - 1].t);
      StepKeepsHolder(true, run[i - 1], acts[i - 1], run[i]);
    }
  }

  lemma UpdaterHolds(run: seq<Sys>, acts: seq<Act>, i: nat, t: Session)
    requires IsRun(true, run, acts) && i < |run| && t in run[i].pcs
    ensures InUpdate(run[i].pcs[t]) ==> run[i].mutex == Some(t)
  {
    RunIsLinked(run, acts, i);
    assert PcLinked(run[i], t, run[i].pcs[t]);
  }

  // ---------------------------------------------------------------- a call that runs alone

  /** No other thread is inside `update_head`. */
  ghost predicate Unhindered(s: Sys, t: Session) {
    Busy(s, t) && (s.mutex == None || (s.mutex == Some(t) && InUpdate(s.pcs[t])))
  }

  /** No deadlock: while some call is under way, some thread is unhindered. */
  lemma SomebodyIsUnhindered(run: seq<Sys>, acts: seq<Act>, i: nat, t: Session) returns (u: Session)
    requires IsRun(true, run, acts) && i < |run| && Busy(run[i], t)
    ensures Unhindered(run[i], u)
  {
    HolderIsInUpdate(run, acts, i);
    u := if run[i].mutex.Some? then run[i].mutex.value else t;
  }

  /** How many steps a call at `pc` still takes when it runs alone and the head is `head`. */
  function StepsLeft(pc: Pc, head: int): nat {
    match pc
    case Idle => 0
    case PushSized(_, _) => 5
    case PushLoop(_, _) => 4
    case PushRead(_, _, cur) => if cur == head then 3 else 7
    case PushReady(_, _, cur) => if cur == head then 2 else 6
    case PushLocked(_, _, cur, read) => if cur == read then 1 else 5
    case PopLoop => if head == NIL then 1 else 4
    case PopRead(cur) => if cur == head then 3 else 7
    case PopReady(cur, _) => if cur == head then 2 else 6
    case PopLocked(cur, _, read) => if cur == read then 1 else 5
  }

  ghost function Left(s: Sys, t: Session): nat {
    if t in s.pcs then StepsLeft(s.pcs[t], HeadId(s)) else 0
  }

  lemma FreshId<K, V>(h: seq<Tx<K, V>>) returns (id: TxId)
    ensures forall i :: 0 <= i < |h| ==> h[i].id < id
    ensures !HasId(h, id)
  {
    id := 0;
    if h != [] {
      var front := FreshId(h[..|h| - 1]);
      var last := h[|h| - 1].id;
      id := if last < front then front else last + 1;
      assert forall i :: 0 <= i < |h| - 1 ==> h[..|h| - 1][i] == h[i];
    }
  }

  /** The version a thread's next get is given on the linearizable selector. */
  function NewestOf(s: Sys, k: int): nat {
    if Versions(s.store, k) == [] then 0 else |Versions(s.store, k)| - 1
  }

  lemma StoredHasVersions(s: Sys, k: int)
    requires Inv(s) && k in s.store.kvMap
    ensures Answers(true, s.store, k, NewestOf(s, k))
  {}

  /** In a good state with the mutex free, a call can take a step under any fresh id. */
  lemma UnhinderedCanStep(s: Sys, t: Session, id: TxId) returns (a: Act, s': Sys)
    requires Inv(s) && Unhindered(s, t) && !HasId(s.store.history, id)
    ensures a.t == t && a.mv.Advance? && a.mv.id == id && Step(true, s, t, a.mv, s', a.l)
  {
    HeadIsPublished(s);
    StoredHasVersions(s, HEAD);
    assert PcLinked(s, t, s.pcs[t]);
    if InUpdate(s.pcs[t]) {
      a, s' := UpdateCanStep(s, t, id);
    } else if Pushing(s.pcs[t]) {
      a, s' := PushCanStep(s, t, id);
    } else {
      a, s' := PopCanStep(s, t, id);
    }
  }

  lemma UpdateCanStep(s: Sys, t: Session, id: TxId) returns (a: Act, s': Sys)
    requires t in s.pcs && InUpdate(s.pcs[t]) && !HasId(s.store.history, id)
    ensures a.t == t && a.mv == Advance(id, 0) && Step(true, s, t, a.mv, s', a.l)
  {
    var mv, pc := Advance(id, 0), s.pcs[t];
    if pc.head == pc.cur {
      var node := if pc.PushLocked? then Node(0, pc.id) else Node(0, pc.node.next);
      s' := To(s, t, PutNode(s, mv, t, HEAD, node), Idle, None);
      a := Act(t, mv, Success(pc));
    } else {
      s' := To(s, t, s.store, if pc.PushLocked? then PushLoop(pc.val, pc.id) else PopLoop, None);
      a := Act(t, mv, Tau);
    }
  }

  lemma PushCanStep(s: Sys, t: Session, id: TxId) returns (a: Act, s': Sys)
    requires t in s.pcs && Pushing(s.pcs[t]) && !InUpdate(s.pcs[t]) && s.mutex == None && !HasId(s.store.history, id)
    requires HEAD in s.store.kvMap && Answers(true, s.store, HEAD, NewestOf(s, HEAD))
    ensures a.t == t && a.mv == Advance(id, NewestOf(s, HEAD)) && Step(true, s, t, a.mv, s', a.l)
  {
    var mv := Advance(id, NewestOf(s, HEAD));
    var head := Value(s, mv, HEAD).next;
    s' := match s.pcs[t]
      case PushSized(val, own) => To(s, t, PutNode(s, mv, 1, own, Node(val, NIL)), PushLoop(val, own), s.mutex)
      case PushLoop(val, own) => To(s, t, GetNode(s, mv, t, HEAD), PushRead(val, own, head), s.mutex)
      case PushRead(val, own, cur) => To(s, t, PutNode(s, mv, 1, own, Node(val, cur)), PushReady(val, own, cur), s.mutex)
      case PushReady(val, own, cur) => To(s, t, GetNode(s, mv, t, HEAD), PushLocked(val, own, cur, head), Some(t))
      case _ => s;
    a := Act(t, mv, Tau);
  }

  lemma PopCanStep(s: Sys, t: Session, id: TxId) returns (a: Act, s': Sys)
    requires t in s.pcs && Popping(s.pcs[t]) && !InUpdate(s.pcs[t]) && s.mutex == None && !HasId(s.store.history, id)
    requires HEAD in s.store.kvMap && Answers(true, s.store, HEAD, NewestOf(s, HEAD))
    requires s.pcs[t].PopRead? ==> s.pcs[t].cur in s.store.kvMap && Versions(s.store, s.pcs[t].cur) != []
    ensures a.t == t && a.mv.Advance? && a.mv.id == id && Step(true, s, t, a.mv, s', a.l)
  {
    var k := if s.pcs[t].PopRead? then s.pcs[t].cur else HEAD;
    var mv := Advance(id, NewestOf(s, k));
    var node := Value(s, mv, k);
    var st := GetNode(s, mv, t, k);
    s' := match s.pcs[t]
      case PopLoop => To(s, t, st, if node.next == NIL then Idle else PopRead(node.next), s.mutex)
      case PopRead(cur) => To(s, t, st, PopReady(cur, node), s.mutex)
      case PopReady(cur, read) => To(s, t, st, PopLocked(cur, read, node.next), Some(t))
      case _ => s;
    a := Act(t, mv, if s.pcs[t].PopLoop? && node.next == NIL then PoppedNothing else Tau);
  }

  ghost predicate ReadsHeadAs(s: Sys, mv: Move, head: int) {
    HEAD in s.store.kvMap && (CanGet(true, s, mv, HEAD) ==> Value(s, mv, HEAD).next == head)
  }

  lemma PushRunsOut(s: Sys, a: Act, s': Sys, head: int)
    requires a.t in s.pcs && PushStep(true, s, a.t, a.mv, s', a.l) && ReadsHeadAs(s, a.mv, head)
    ensures a.t in s'.pcs && StepsLeft(s'.pcs[a.t], head) < StepsLeft(s.pcs[a.t], head)
  {}

  lemma PopRunsOut(s: Sys, a: Act, s': Sys, head: int)
    requires a.t in s.pcs && PopStep(true, s, a.t, a.mv, s', a.l) && ReadsHeadAs(s, a.mv, head)
    ensures a.t in s'.pcs && StepsLeft(s'.pcs[a.t], head) < StepsLeft(s.pcs[a.t], head)
  {}

  lemma StepKeepsUnhindered(s: Sys, a: Act, s': Sys)
    requires Unhindered(s, a.t) && Step(true, s, a.t, a.mv, s', a.l)
    ensures Busy(s', a.t) ==> Unhindered(s', a.t)
  {}

  lemma SuccessEnds(s: Sys, a: Act, s': Sys)
    requires Step(true, s, a.t, a.mv, s', a.l) && Succeeds(a.l)
    ensures a.t in s'.pcs && s'.pcs[a.t] == Idle
  {}

  lemma HeadIsRead(s: Sys, mv: Move)
    requires Inv(s)
    ensures ReadsHeadAs(s, mv, HeadId(s))
  {
    HeadIsPublished(s);
    NewestKeys(s);
    if CanGet(true, s, mv, HEAD) {
      NewestIsRead(s, mv, HEAD);
    }
  }

  /** A step of the call brings it nearer to its end. */
  lemma StepsRunOut(s: Sys, a: Act, s': Sys)
    requires Inv(s) && Busy(s, a.t) && Step(true, s, a.t, a.mv, s', a.l)
    ensures a.t in s'.pcs && Left(s', a.t) < Left(s, a.t)
  {
    HeadIsRead(s, a.mv);
    if Pushing(s.pcs[a.t]) {
      PushRunsOut(s, a, s', HeadId(s));
    } else {
      PopRunsOut(s, a, s', HeadId(s));
    }
    if Succeeds(a.l) {
      SuccessEnds(s, a, s');
    } else {
      StepKeepsHead(s, a, s');
    }
  }

  lemma AloneStep(run: seq<Sys>, acts: seq<Act>, i: nat, t: Session)
    requires IsRun(true, run, acts) && i < |acts| && acts[i].t == t && Unhindered(run[i], t)
    ensures t in run[i + 1].pcs && Left(run[i + 1], t) < Left(run[i], t)
    ensures Busy(run[i + 1], t) ==> Unhindered(run[i + 1], t)
  {
    assert StepAt(true, run, acts, i);
    RunIsLinked(run, acts, i);
    StepsRunOut(run[i], acts[i], run[i + 1]);
    StepKeepsUnhindered(run[i], acts[i], run[i + 1]);
  }

  lemma NextStepAlone(run: seq<Sys>, acts: seq<Act>, t: Session) returns (a: Act, s': Sys)
    requires IsRun(true, run, acts) && Unhindered(run[|run| - 1], t)
    ensures a.t == t && Step(true, run[|run| - 1], t, a.mv, s', a.l)
  {
    RunIsLinked(run, acts, |acts|);
    var id := FreshId(run[|run| - 1].store.history);
    a, s' := UnhinderedCanStep(run[|run| - 1], t, id);
  }

  ghost predicate Alone(acts: seq<Act>, i: nat, t: Session) {
    forall n: nat :: i <= n < |acts| ==> acts[n].t == t
  }

  lemma ExtendRun(run: seq<Sys>, acts: seq<Act>, a: Act, s': Sys)
    requires IsRun(true, run, acts) && Step(true, run[|run| - 1], a.t, a.mv, s', a.l)
    ensures IsRun(true, run + [s'], acts + [a])
  {
    var run', acts' := run + [s'], acts + [a];
    forall i: nat | i < |acts'| ensures StepAt(true, run', acts', i) {
      if i < |acts| {
        assert StepAt(true, run, acts, i);
      }
    }
  }

  /** From any reachable state in which no other thread is inside `update_head`, a started call can run alone
      to its end, in at most seven steps. */
  lemma {:induction false} CallCanRunAlone(run: seq<Sys>, acts: seq<Act>, t: Session)
    returns (run': seq<Sys>, acts': seq<Act>)
    requires IsRun(true, run, acts) && Unhindered(run[|run| - 1], t)
    ensures IsRun(true, run', acts') && run <= run' && acts <= acts' && Alone(acts', |acts|, t)
    ensures |acts| < |acts'| <= |acts| + Left(run[|run| - 1], t) <= |acts| + 7
    ensures t in run'[|run'| - 1].pcs && run'[|run'| - 1].pcs[t] == Idle
    ensures forall n :: |acts| <= n < |acts'| ==> Busy(run'[n], t)
    decreases Left(run[|run| - 1], t)
  {
    var a, s' := NextStepAlone(run, acts, t);
    ExtendRun(run, acts, a, s');
    run', acts' := run + [s'], acts + [a];
    AloneStep(run', acts', |acts|, t);
    if Busy(s', t) {
      run', acts' := CallCanRunAlone(run', acts', t);
    }
  }

  /** And it must: however a started call runs alone, it is over after at most seven steps. */
  lemma {:induction false} CallAloneEnds(run: seq<Sys>, acts: seq<Act>, i: nat, t: Session) returns (j: nat)
    requires IsRun(true, run, acts) && i < |run| && Unhindered(run[i], t) && Alone(acts, i, t)
    requires i + Left(run[i], t) <= |acts|
    ensures i < j <= i + Left(run[i], t) <= i + 7 && t in run[j].pcs && run[j].pcs[t] == Idle
    ensures forall n :: i <= n < j ==> Busy(run[n], t)
    decreases Left(run[i], t)
  {
    AloneStep(run, acts, i, t);
    j := i + 1;
    if Busy(run[i + 1], t) {
      j := CallAloneEnds(run, acts, i + 1, t);
    }
  }

  /** The call of a busy thread. */
  function CallOf(pc: Pc): Move {
    if Pushing(pc) then StartPush(pc.val) else StartPop
  }

  /** What a call that runs alone answers: a push pushes its value, a pop the top of the stack, if there is one. */
  ghost predicate AnswersAlone(pc: Pc, stack: seq<int>, l: Label, stack': seq<int>) {
    if Pushing(pc) then l == Pushed(pc.val) && stack' == [pc.val] + stack
    else if stack == [] then l == PoppedNothing && stack' == []
    else l == Popped(stack[0]) && stack' == stack[1..]
  }

  lemma CallStep(run: seq<Sys>, acts: seq<Act>, i: nat)
    requires IsRun(true, run, acts) && i < |acts| && Busy(run[i], acts[i].t)
    ensures acts[i].t in run[i + 1].pcs
    ensures var pc, pc' := run[i].pcs[acts[i].t], run[i + 1].pcs[acts[i].t];
            if pc'.Idle? then EndsCall(acts[i].l, CallOf(pc)) else acts[i].l == Tau && CallOf(pc') == CallOf(pc)
  {
    assert StepAt(true, run, acts, i);
    RunIsSound(true, run, acts, i);
    StepInCall(true, run[i], acts[i], run[i + 1], acts[i].t, CallOf(run[i].pcs[acts[i].t]));
  }

  /** A call that runs alone from `i` until it is over at `j` gives exactly that answer. */
  lemma {:induction false} AnswerOfCallAlone(run: seq<Sys>, acts: seq<Act>, i: nat, j: nat, t: Session)
    requires IsRun(true, run, acts) && i < j < |run| && Busy(run[i], t)
    requires forall n: nat :: i <= n < j ==> acts[n].t == t && Busy(run[n], t)
    requires t in run[j].pcs && run[j].pcs[t] == Idle
    ensures AnswersAlone(run[i].pcs[t], StackOf(run[i]), acts[j - 1].l, StackOf(run[j]))
    decreases j - i
  {
    CallStep(run, acts, i);
    StepAtRefines(run, acts, i);
    if i + 1 < j {
      AnswerOfCallAlone(run, acts, i + 1, j, t);
    }
  }

  // ---------------------------------------------------------------- what each step logs

  /** The session and operation of a thread's next transaction; none for the silent steps. */
  ghost predicate LogsNext(s: Sys, t: Session, tx: Tx<int, Node>)
    requires t in s.pcs
  {
    match s.pcs[t]
    case PushSized(val, id) => tx.session == 1 && tx.op == Put(id, Node(val, -1))
    case PushRead(val, id, cur) => tx.session == 1 && tx.op == Put(id, Node(val, cur))
    case PushLocked(_, id, _, _) => tx.session == t && tx.op == Put(0, Node(0, id))
    case PopLocked(_, node, _) => tx.session == t && tx.op == Put(0, Node(0, node.next))
    case PopRead(cur) => tx.session == t && tx.op.Get? && tx.op.key == cur
    case _ => tx.session == t && tx.op.Get? && tx.op.key == 0
  }

  lemma StepLogs(newest: bool, s: Sys, a: Act, s': Sys)
    requires Step(newest, s, a.t, a.mv, s', a.l) && HEAD in s.store.kvMap
    requires s.pcs[a.t].PopRead? ==> s.pcs[a.t].cur in s.store.kvMap
    ensures var pc, h, h' := s.pcs[a.t], s.store.history, s'.store.history;
            if pc.Idle? || (InUpdate(pc) && pc.head != pc.cur) then s'.store == s.store
            else a.mv.Advance? && |h'| == |h| + 1 && h' == h + [h'[|h|]] && h'[|h|].id == a.mv.id && LogsNext(s, a.t, h'[|h|])
  {}

  /** A push starts with the id that the number of keys ever put and the session give. */
  lemma PushPicksId(newest: bool, run: seq<Sys>, acts: seq<Act>, i: nat, val: int)
    requires IsRun(newest, run, acts) && i < |acts| && acts[i].t in run[i].pcs
    requires run[i].pcs[acts[i].t].Idle? && acts[i].mv == StartPush(val)
    ensures acts[i].t in run[i + 1].pcs
    ensures run[i + 1].pcs[acts[i].t] == PushSized(val, |KeysPut(run[i].store.history)| * 10 + acts[i].t)
  {
    assert StepAt(newest, run, acts, i);
    RunIsSound(newest, run, acts, i);
    SizeCountsKeysPut(run[i].store);
  }

  /** Under any selector, every step of every run logs exactly the transaction its place in the code calls for, or
      none when a call starts or a compare fails. */
  lemma RunLogs(newest: bool, run: seq<Sys>, acts: seq<Act>, i: nat)
    requires IsRun(newest, run, acts) && i < |acts|
    ensures acts[i].t in run[i].pcs
    ensures var pc, h, h' := run[i].pcs[acts[i].t], run[i].store.history, run[i + 1].store.history;
            if pc.Idle? || (InUpdate(pc) && pc.head != pc.cur) then run[i + 1].store == run[i].store
            else |h'| == |h| + 1 && h' == h + [h'[|h|]] && LogsNext(run[i], acts[i].t, h'[|h|])
  {
    assert StepAt(newest, run, acts, i);
    PopFindsItsNode(newest, run, acts, i, acts[i].t);
    StepLogs(newest, run[i], acts[i], run[i + 1]);
  }
}
