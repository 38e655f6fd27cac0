/** The stack over whole runs: any number of threads, operations and retries, in any interleaving. */
module StackRuns {
  import opened Stores
  import opened TreiberSteps
  import opened StackRefinement

  datatype Act = Act(t: Session, mv: Move, l: Label)

  ghost predicate IsRun(newest: bool, run: seq<Sys>, acts: seq<Act>) {
    && |run| == |acts| + 1 && Init(run[0])
    && forall i: nat :: i < |acts| ==> StepAt(newest, run, acts, i)
  }

  ghost predicate StepAt(newest: bool, run: seq<Sys>, acts: seq<Act>, i: nat) {
    i < |acts| && i + 1 < |run| && Step(newest, run[i], acts[i].t, acts[i].mv, run[i + 1], acts[i].l)
  }

  // ---------------------------------------------------------------- under any selector

  lemma {:induction false} RunIsSound(newest: bool, run: seq<Sys>, acts: seq<Act>, i: nat)
    requires IsRun(newest, run, acts) && i < |run|
    ensures Sound(run[i])
  {
    if i == 0 {
      InitIsSound(run[0]);
    } else {
      RunIsSound(newest, run, acts, i - 1);
      assert StepAt(newest, run, acts, i - 1);
      var a := acts[i - 1];
      StepKeepsSound(newest, run[i - 1], a.t, a.mv, run[i], a.l);
    }
  }

  /** Whatever version of the head a thread is given, it names a stored node or is NIL. */
  lemma HeadsNameStoredNodes(newest: bool, run: seq<Sys>, acts: seq<Act>, i: nat, n: nat)
    requires IsRun(newest, run, acts) && i < |run| && n < |Versions(run[i].store, HEAD)|
    ensures var head := Versions(run[i].store, HEAD)[n].value.next;
            head == NIL || (head != HEAD && head in run[i].store.kvMap)
  {
    RunIsSound(newest, run, acts, i);
  }

  /** So a pop finds the head, and the node it read the id of: its not-found branches are dead. */
  lemma PopFindsItsNode(newest: bool, run: seq<Sys>, acts: seq<Act>, i: nat, t: Session)
    requires IsRun(newest, run, acts) && i < |run| && t in run[i].pcs
    ensures HEAD in run[i].store.kvMap
    ensures run[i].pcs[t].PopRead? ==> run[i].pcs[t].cur in run[i].store.kvMap
  {
    RunIsSound(newest, run, acts, i);
    assert PcPoints(run[i].store.kvMap.Keys, run[i].pcs[t]);
  }

  lemma PublishedStays(newest: bool, s: Sys, a: Act, s': Sys, k: int)
    requires Sound(s) && Step(newest, s, a.t, a.mv, s', a.l) && Published(s, k)
    ensures Published(s', k) && Versions(s'.store, k) == Versions(s.store, k)
  {
    StepIsLocal(newest, s, a.t, a.mv, s', a.l);
    PublishedForEver(s, a.t, a.mv, s', EffectOf(s, a.t), k);
  }

  lemma PublishedNodeStays(newest: bool, run: seq<Sys>, acts: seq<Act>, i: nat, k: int)
    requires IsRun(newest, run, acts) && i < |acts| && Published(run[i], k)
    ensures Published(run[i + 1], k) && Versions(run[i + 1].store, k) == Versions(run[i].store, k)
  {
    RunIsSound(newest, run, acts, i);
    assert StepAt(newest, run, acts, i);
    PublishedStays(newest, run[i], acts[i], run[i + 1], k);
  }

  /** Once published, a node keeps its versions for ever and its id is never used for another push. */
  lemma {:induction false} PublishedNodesAreFrozen(newest: bool, run: seq<Sys>, acts: seq<Act>, i: nat, j: nat, k: int)
    requires IsRun(newest, run, acts) && i <= j < |run| && Published(run[i], k)
    ensures Published(run[j], k) && Versions(run[j].store, k) == Versions(run[i].store, k)
    decreases j
  {
    if i < j {
      PublishedNodesAreFrozen(newest, run, acts, i, j - 1, k);
      PublishedNodeStays(newest, run, acts, j - 1, k);
    }
  }

  /** The id a push picks is positive, not yet in the store, and no other push has it. */
  lemma NewIdsAreUnique(newest: bool, run: seq<Sys>, acts: seq<Act>, i: nat, t: Session)
    requires IsRun(newest, run, acts) && i < |run| && t in run[i].pcs
    ensures var id := NewNodeId(run[i], t);
            && id > 0 && id !in run[i].store.kvMap
            && forall u :: u in run[i].pcs && u != t && Pushing(run[i].pcs[u]) ==> run[i].pcs[u].id != id
  {
    RunIsSound(newest, run, acts, i);
    NewIdIsFresh(run[i], t, 0);
    forall u | u in run[i].pcs && u != t && Pushing(run[i].pcs[u]) ensures run[i].pcs[u].id != NewNodeId(run[i], t) {
      assert OwnsId(run[i].store.kvMap.Keys, u, run[i].pcs[u]);
    }
  }

  // ---------------------------------------------------------------- every call takes effect once, under any selector

  predicate Popping(pc: Pc) {
    pc.PopLoop? || pc.PopRead? || pc.PopReady? || pc.PopLocked?
  }

  /** The thread is inside the call it started with `mv`. */
  predicate InCall(pc: Pc, mv: Move) {
    match mv
    case StartPush(val) => Pushing(pc) && pc.val == val
    case StartPop => Popping(pc)
    case Advance(_, _) => false
  }

  /** The label with which a call ends. */
  predicate EndsCall(l: Label, mv: Move) {
    match mv
    case StartPush(val) => l == Pushed(val)
    case StartPop => l.Popped? || l == PoppedNothing
    case Advance(_, _) => false
  }

  ghost predicate Busy(s: Sys, t: Session) {
    t in s.pcs && !s.pcs[t].Idle?
  }

  /** A step of the calling thread goes on with its call, silently, or ends it. */
  lemma StepInCall(newest: bool, s: Sys, a: Act, s': Sys, t: Session, mv: Move)
    requires HEAD in s.store.kvMap && Step(newest, s, a.t, a.mv, s', a.l) && t in s.pcs && InCall(s.pcs[t], mv)
    ensures t in s'.pcs
    ensures if a.t != t then s'.pcs[t] == s.pcs[t]
            else if s'.pcs[t].Idle? then EndsCall(a.l, mv) else InCall(s'.pcs[t], mv) && a.l == Tau
  {}

  ghost predicate Starts(run: seq<Sys>, acts: seq<Act>, i: nat, t: Session) {
    i < |acts| && i + 1 < |run| && acts[i].t == t && t in run[i].pcs && run[i].pcs[t].Idle?
  }

  ghost predicate SilentBetween(acts: seq<Act>, i: nat, j: nat, t: Session) {
    forall n: nat | i <= n < j && n < |acts| && acts[n].t == t :: acts[n].l == Tau
  }

  lemma {:induction false} CallGoesOn(newest: bool, run: seq<Sys>, acts: seq<Act>, i: nat, j: nat, t: Session)
    requires IsRun(newest, run, acts) && Starts(run, acts, i, t) && i < j < |run|
    requires forall n :: i < n <= j ==> Busy(run[n], t)
    ensures t in run[j].pcs && InCall(run[j].pcs[t], acts[i].mv) && SilentBetween(acts, i, j, t)
  {
    assert StepAt(newest, run, acts, j - 1);
    if j > i + 1 {
      CallGoesOn(newest, run, acts, i, j - 1, t);
      RunIsSound(newest, run, acts, j - 1);
      assert Busy(run[j], t);
      StepInCall(newest, run[j - 1], acts[j - 1], run[j], t, acts[i].mv);
    }
  }

  /** A call that started at `i` and is over at `j` took effect exactly once: its last step, and no other
      of its steps, is the push of its value, or one pop or one answer of an empty stack. */
  lemma CallTakesEffectOnce(newest: bool, run: seq<Sys>, acts: seq<Act>, i: nat, j: nat, t: Session)
    requires IsRun(newest, run, acts) && Starts(run, acts, i, t) && i < j < |run|
    requires forall n :: i < n < j ==> Busy(run[n], t)
    requires !Busy(run[j], t)
    ensures i < j - 1 && acts[j - 1].t == t && EndsCall(acts[j - 1].l, acts[i].mv)
    ensures SilentBetween(acts, i, j - 1, t)
  {
    assert StepAt(newest, run, acts, j - 1);
    if j > i + 1 {
      CallGoesOn(newest, run, acts, i, j - 1, t);
      RunIsSound(newest, run, acts, j - 1);
      StepInCall(newest, run[j - 1], acts[j - 1], run[j], t, acts[i].mv);
    }
  }

  // ---------------------------------------------------------------- on the linearizable selector

  lemma {:induction false} RunIsLinked(run: seq<Sys>, acts: seq<Act>, i: nat)
    requires IsRun(true, run, acts) && i < |run|
    ensures Inv(run[i])
    ensures i == 0 ==> StackOf(run[i]) == []
  {
    if i == 0 {
      InitIsSound(run[0]);
      NewestOfInit(run[0]);
      assert IsStack(run[0], []);
      StackIsUnique(run[0], []);
    } else {
      RunIsLinked(run, acts, i - 1);
      assert StepAt(true, run, acts, i - 1);
      var a := acts[i - 1];
      StepRefines(run[i - 1], a.t, a.mv, run[i], a.l);
    }
  }

  lemma NewestOfInit(s: Sys)
    requires Init(s)
    ensures Newest(s) == map[HEAD := Node(0, NIL)]
  {
    PutUpdatesContents(Empty(), 0, 1, HEAD, Node(0, NIL));
    assert Contents(Stores.Empty<int, Node>()) == map[];
  }

  lemma StepAtRefines(run: seq<Sys>, acts: seq<Act>, i: nat)
    requires IsRun(true, run, acts) && i < |acts|
    ensures AbstractStep(StackOf(run[i]), acts[i].l, StackOf(run[i + 1]))
  {
    RunIsLinked(run, acts, i);
    assert StepAt(true, run, acts, i);
    StepRefines(run[i], acts[i].t, acts[i].mv, run[i + 1], acts[i].l);
  }

  lemma StartsEmpty(run: seq<Sys>, acts: seq<Act>)
    requires IsRun(true, run, acts)
    ensures StackOf(run[0]) == []
  {
    RunIsLinked(run, acts, 0);
  }

  /** In every reachable state the chain from the head is finite and acyclic and spells the stack. */
  lemma ChainSpellsStack(run: seq<Sys>, acts: seq<Act>, i: nat)
    requires IsRun(true, run, acts) && i < |run|
    ensures HEAD in Newest(run[i]) && Chain(Newest(run[i]), Newest(run[i])[HEAD].next, Ids(run[i]))
    ensures StackOf(run[i]) == Values(Newest(run[i]), Ids(run[i]))
    ensures forall a, b :: 0 <= a < b < |Ids(run[i])| ==> Ids(run[i])[a] != Ids(run[i])[b]
  {
    RunIsLinked(run, acts, i);
    assert IsStack(run[i], Ids(run[i]));
    ChainIsAcyclic(Newest(run[i]), Newest(run[i])[HEAD].next, Ids(run[i]));
  }

  /** Every interleaving of pushes and pops is a run of the abstract stack, starting empty. */
  lemma RunsRefineAStack(run: seq<Sys>, acts: seq<Act>)
    requires IsRun(true, run, acts)
    ensures StackOf(run[0]) == []
    ensures forall i :: 0 <= i < |acts| ==> AbstractStep(StackOf(run[i]), acts[i].l, StackOf(run[i + 1]))
  {
    StartsEmpty(run, acts);
    forall i | 0 <= i < |acts| ensures AbstractStep(StackOf(run[i]), acts[i].l, StackOf(run[i + 1])) {
      StepAtRefines(run, acts, i);
    }
  }

  function PushedNow(l: Label): multiset<int> {
    if l.Pushed? then multiset{l.val} else multiset{}
  }

  function PoppedNow(l: Label): multiset<int> {
    if l.Popped? then multiset{l.val} else multiset{}
  }

  function PushedBy(acts: seq<Act>): multiset<int> {
    if acts == [] then multiset{} else PushedBy(acts[..|acts| - 1]) + PushedNow(acts[|acts| - 1].l)
  }

  function PoppedBy(acts: seq<Act>): multiset<int> {
    if acts == [] then multiset{} else PoppedBy(acts[..|acts| - 1]) + PoppedNow(acts[|acts| - 1].l)
  }

  lemma AbstractStepConserves(a: seq<int>, l: Label, a': seq<int>)
    requires AbstractStep(a, l, a')
    ensures multiset(a) + PushedNow(l) == PoppedNow(l) + multiset(a')
  {
    if l.Popped? {
      assert a == [a[0]] + a[1..];
    }
  }

  lemma StepConserves(run: seq<Sys>, acts: seq<Act>, i: nat)
    requires IsRun(true, run, acts) && 0 < i < |run|
    ensures multiset(StackOf(run[i - 1])) + PushedNow(acts[i - 1].l) == PoppedNow(acts[i - 1].l) + multiset(StackOf(run[i]))
  {
    StepAtRefines(run, acts, i - 1);
    AbstractStepConserves(StackOf(run[i - 1]), acts[i - 1].l, StackOf(run[i]));
  }

  lemma OneMore(acts: seq<Act>, i: nat)
    requires 0 < i <= |acts|
    ensures PushedBy(acts[..i]) == PushedBy(acts[..i - 1]) + PushedNow(acts[i - 1].l)
    ensures PoppedBy(acts[..i]) == PoppedBy(acts[..i - 1]) + PoppedNow(acts[i - 1].l)
  {
    assert acts[..i][..i - 1] == acts[..i - 1];
  }

  lemma Balance(pushed: multiset<int>, popped: multiset<int>, stack: multiset<int>,
                newPush: multiset<int>, newPop: multiset<int>, newStack: multiset<int>)
    requires pushed == popped + stack && stack + newPush == newPop + newStack
    ensures pushed + newPush == popped + newPop + newStack
  {
    assert pushed + newPush == popped + (stack + newPush);
  }

  /** Conservation: what was pushed is what was popped plus what is still on the stack. */
  lemma {:induction false} PushesAreConserved(run: seq<Sys>, acts: seq<Act>, i: nat)
    requires IsRun(true, run, acts) && i < |run|
    ensures PushedBy(acts[..i]) == PoppedBy(acts[..i]) + multiset(StackOf(run[i]))
  {
    if i == 0 {
      StartsEmpty(run, acts);
    } else {
      PushesAreConserved(run, acts, i - 1);
      StepConserves(run, acts, i);
      OneMore(acts, i);
      Balance(PushedBy(acts[..i - 1]), PoppedBy(acts[..i - 1]), multiset(StackOf(run[i - 1])),
              PushedNow(acts[i - 1].l), PoppedNow(acts[i - 1].l), multiset(StackOf(run[i])));
    }
  }

  /** A published node that is not on the stack. */
  ghost predicate Out(s: Sys, k: int) {
    Inv(s) && Published(s, k) && k !in Ids(s)
  }

  lemma StepKeepsOut(s: Sys, a: Act, s': Sys, k: int)
    requires Out(s, k) && Step(true, s, a.t, a.mv, s', a.l)
    ensures Out(s', k)
  {
    StepRefines(s, a.t, a.mv, s', a.l);
    PublishedStays(true, s, a, s', k);
  }

  lemma PopTakesTopOut(s: Sys, a: Act, s': Sys)
    requires Inv(s) && Step(true, s, a.t, a.mv, s', a.l) && a.l.Popped?
    ensures Ids(s) != [] && Out(s', Ids(s)[0])
  {
    StepRefines(s, a.t, a.mv, s', a.l);
    ChainIsAcyclic(Newest(s), Newest(s)[HEAD].next, Ids(s));
    PublishedStays(true, s, a, s', Ids(s)[0]);
  }

  lemma {:induction false} OutForEver(run: seq<Sys>, acts: seq<Act>, i: nat, j: nat, k: int)
    requires IsRun(true, run, acts) && i <= j < |run| && Out(run[i], k)
    ensures Out(run[j], k)
  {
    if i < j {
      OutForEver(run, acts, i, j - 1, k);
      assert StepAt(true, run, acts, j - 1);
      StepKeepsOut(run[j - 1], acts[j - 1], run[j], k);
    }
  }

  lemma PoppedNodeIsOut(run: seq<Sys>, acts: seq<Act>, i: nat)
    requires IsRun(true, run, acts) && i < |acts| && acts[i].l.Popped?
    ensures Ids(run[i]) != [] && Out(run[i + 1], Ids(run[i])[0])
  {
    RunIsLinked(run, acts, i);
    assert StepAt(true, run, acts, i);
    PopTakesTopOut(run[i], acts[i], run[i + 1]);
  }

  /** A node that was popped never comes back, even though its id may be read again and again. */
  lemma PoppedNodesStayOut(run: seq<Sys>, acts: seq<Act>, i: nat, j: nat)
    requires IsRun(true, run, acts) && i < j < |run| && acts[i].l.Popped?
    ensures Ids(run[i]) != []
    ensures Ids(run[i])[0] !in Ids(run[j])
  {
    PoppedNodeIsOut(run, acts, i);
    OutForEver(run, acts, i + 1, j, Ids(run[i])[0]);
  }

  // ---------------------------------------------------------------- failed updates of the head

  predicate Holds(pc: Pc, cur: int) {
    (pc.PushRead? || pc.PushReady? || pc.PushLocked? || pc.PopRead? || pc.PopReady? || pc.PopLocked?) && pc.cur == cur
  }

  predicate ReadsHead(pc: Pc) {
    pc.PushLoop? || pc.PopLoop?
  }

  /** A head a thread holds was held before, or was read just now by the thread itself. */
  lemma HeldSince(s: Sys, a: Act, s': Sys, t: Session, cur: int)
    requires Step(true, s, a.t, a.mv, s', a.l) && t in s'.pcs && Holds(s'.pcs[t], cur)
    ensures t in s.pcs
    ensures (a.t == t && ReadsHead(s.pcs[t])) || Holds(s.pcs[t], cur)
  {}

  lemma HeldBefore(run: seq<Sys>, acts: seq<Act>, j: nat, t: Session, cur: int)
    requires IsRun(true, run, acts) && j < |run| && t in run[j].pcs && Holds(run[j].pcs[t], cur)
    ensures j > 0 && t in run[j - 1].pcs
    ensures (acts[j - 1].t == t && ReadsHead(run[j - 1].pcs[t])) || Holds(run[j - 1].pcs[t], cur)
  {
    assert StepAt(true, run, acts, j - 1);
    HeldSince(run[j - 1], acts[j - 1], run[j], t, cur);
  }

  /** Where the thread read the head it still holds. */
  lemma {:induction false} WhereHeadWasRead(run: seq<Sys>, acts: seq<Act>, j: nat, t: Session, cur: int) returns (i: nat)
    requires IsRun(true, run, acts) && j < |run| && t in run[j].pcs && Holds(run[j].pcs[t], cur)
    ensures i < j && acts[i].t == t && t in run[i].pcs && ReadsHead(run[i].pcs[t])
    ensures forall n :: i < n <= j ==> t in run[n].pcs && Holds(run[n].pcs[t], cur)
    decreases j
  {
    HeldBefore(run, acts, j, t, cur);
    if acts[j - 1].t == t && ReadsHead(run[j - 1].pcs[t]) {
      i := j - 1;
    } else {
      i := WhereHeadWasRead(run, acts, j - 1, t, cur);
    }
  }

  function HeadId(s: Sys): int {
    if HEAD in Newest(s) then Newest(s)[HEAD].next else NIL
  }

  lemma ReadSeesHead(s: Sys, a: Act, s': Sys, cur: int)
    requires Inv(s) && Step(true, s, a.t, a.mv, s', a.l) && ReadsHead(s.pcs[a.t])
    requires a.t in s'.pcs && Holds(s'.pcs[a.t], cur)
    ensures HeadId(s') == cur
  {
    StepIsLocal(true, s, a.t, a.mv, s', a.l);
    NewestAfter(s, a.t, a.mv, s', EffectOf(s, a.t));
    HeadIsPublished(s);
    NewestKeys(s);
    NewestIsRead(s, a.mv, HEAD);
  }

  predicate Succeeds(l: Label) {
    l.Pushed? || l.Popped?
  }

  /** After its successful update a thread holds no head any more. */
  lemma SuccessHoldsNothing(run: seq<Sys>, acts: seq<Act>, k: nat, cur: int)
    requires IsRun(true, run, acts) && k < |acts| && Succeeds(acts[k].l)
    ensures acts[k].t in run[k + 1].pcs && !Holds(run[k + 1].pcs[acts[k].t], cur)
  {
    assert StepAt(true, run, acts, k);
  }

  lemma HeadWasRead(run: seq<Sys>, acts: seq<Act>, i: nat, cur: int)
    requires IsRun(true, run, acts) && i < |acts| && acts[i].t in run[i].pcs && ReadsHead(run[i].pcs[acts[i].t])
    requires acts[i].t in run[i + 1].pcs && Holds(run[i + 1].pcs[acts[i].t], cur)
    ensures HeadId(run[i + 1]) == cur
  {
    RunIsLinked(run, acts, i);
    assert StepAt(true, run, acts, i);
    ReadSeesHead(run[i], acts[i], run[i + 1], cur);
  }

  lemma LockedSeesHead(run: seq<Sys>, acts: seq<Act>, j: nat, t: Session)
    requires IsRun(true, run, acts) && j < |run| && t in run[j].pcs
    requires run[j].pcs[t].PushLocked? || run[j].pcs[t].PopLocked?
    ensures HeadId(run[j]) == run[j].pcs[t].head
  {
    RunIsLinked(run, acts, j);
    assert PcLinked(run[j], t, run[j].pcs[t]);
  }

  lemma StepKeepsHead(s: Sys, a: Act, s': Sys)
    requires Inv(s) && Step(true, s, a.t, a.mv, s', a.l) && !Succeeds(a.l)
    ensures HeadId(s') == HeadId(s)
  {
    StepRefines(s, a.t, a.mv, s', a.l);
    assert IsStack(s, Ids(s)) && IsStack(s', Ids(s'));
  }

  lemma HeadStays(run: seq<Sys>, acts: seq<Act>, k: nat)
    requires IsRun(true, run, acts) && k < |acts| && !Succeeds(acts[k].l)
    ensures HeadId(run[k + 1]) == HeadId(run[k])
  {
    RunIsLinked(run, acts, k);
    assert StepAt(true, run, acts, k);
    StepKeepsHead(run[k], acts[k], run[k + 1]);
  }

  lemma {:induction false} HeadChangesOnlyBySuccess(run: seq<Sys>, acts: seq<Act>, i: nat, j: nat) returns (k: nat)
    requires IsRun(true, run, acts) && i <= j < |run| && HeadId(run[i]) != HeadId(run[j])
    ensures i <= k < j && Succeeds(acts[k].l)
    decreases j
  {
    if Succeeds(acts[j - 1].l) {
      k := j - 1;
    } else {
      HeadStays(run, acts, j - 1);
      k := HeadChangesOnlyBySuccess(run, acts, i, j - 1);
    }
  }

  /** When a compare does not match, another thread has succeeded since this thread read the head. */
  lemma MismatchMeansProgress(run: seq<Sys>, acts: seq<Act>, j: nat, t: Session) returns (i: nat, k: nat)
    requires IsRun(true, run, acts) && j < |run| && t in run[j].pcs
    requires run[j].pcs[t].PushLocked? || run[j].pcs[t].PopLocked?
    requires run[j].pcs[t].head != run[j].pcs[t].cur
    ensures i < k < j && acts[i].t == t && t in run[i].pcs && ReadsHead(run[i].pcs[t])
    ensures Succeeds(acts[k].l) && acts[k].t != t
  {
    var cur := run[j].pcs[t].cur;
    i := WhereHeadWasRead(run, acts, j, t, cur);
    HeadWasRead(run, acts, i, cur);
    LockedSeesHead(run, acts, j, t);
    k := HeadChangesOnlyBySuccess(run, acts, i + 1, j);
    if acts[k].t == t {
      SuccessHoldsNothing(run, acts, k, cur);
      assert false;
    }
  }
}
