/** On the linearizable selector the Treiber stack refines an abstract stack, under every interleaving. */
module StackRefinement {
  import opened Stores
  import opened ReadSelectors
  import opened TreiberSteps

  // ---------------------------------------------------------------- the chain of nodes

  /** `c` lists the node ids from `head` down to NIL. */
  ghost predicate Chain(m: map<int, Node>, head: int, c: seq<int>)
    decreases c
  {
    if c == [] then head == NIL
    else head == c[0] && head != NIL && head in m && Chain(m, m[head].next, c[1..])
  }

  ghost function Values(m: map<int, Node>, c: seq<int>): seq<int> {
    if c == [] then [] else [if c[0] in m then m[c[0]].val else 0] + Values(m, c[1..])
  }

  lemma {:induction false} ChainFrame(m: map<int, Node>, m': map<int, Node>, head: int, c: seq<int>)
    requires Chain(m, head, c)
    requires forall k :: k in c && k in m ==> k in m' && m'[k] == m[k]
    ensures Chain(m', head, c) && Values(m', c) == Values(m, c)
    decreases c
  {
    if c != [] {
      ChainFrame(m, m', m[head].next, c[1..]);
    }
  }

  lemma {:induction false} ChainIsUnique(m: map<int, Node>, head: int, c: seq<int>, d: seq<int>)
    requires Chain(m, head, c) && Chain(m, head, d)
    ensures c == d
    decreases c
  {
    if c != [] && d != [] {
      ChainIsUnique(m, m[head].next, c[1..], d[1..]);
      assert c == [c[0]] + c[1..] && d == [d[0]] + d[1..];
    }
  }

  lemma {:induction false} ChainTail(m: map<int, Node>, head: int, c: seq<int>, i: nat)
    requires Chain(m, head, c) && i < |c|
    ensures Chain(m, c[i], c[i..])
    decreases c
  {
    if i > 0 {
      ChainTail(m, m[head].next, c[1..], i - 1);
      assert c[1..][i - 1..] == c[i..];
    }
  }

  /** A chain that ends visits no node twice: it is acyclic. */
  lemma ChainIsAcyclic(m: map<int, Node>, head: int, c: seq<int>)
    requires Chain(m, head, c)
    ensures forall i, j :: 0 <= i < j < |c| ==> c[i] != c[j]
  {
    forall i, j | 0 <= i < j < |c| ensures c[i] != c[j] {
      ChainTail(m, head, c, i);
      ChainTail(m, head, c, j);
      if c[i] == c[j] {
        ChainIsUnique(m, c[i], c[i..], c[j..]);
      }
    }
  }

  // ---------------------------------------------------------------- the invariant on the newest values

  function Newest(s: Sys): map<int, Node> {
    Contents(s.store)
  }

  ghost predicate PcLinked(s: Sys, t: Session, pc: Pc) {
    var m := Newest(s);
    && (Pushing(pc) && !pc.PushSized? ==> pc.id in m && m[pc.id].val == pc.val)
    && (pc.PushReady? || pc.PushLocked? ==> pc.id in m && m[pc.id].next == pc.cur)
    && (pc.PopRead? || pc.PopReady? || pc.PopLocked? ==> Published(s, pc.cur) && pc.cur != NIL)
    && (pc.PopReady? || pc.PopLocked? ==> pc.cur in m && m[pc.cur] == pc.node)
    && (pc.PushLocked? || pc.PopLocked? ==> s.mutex == Some(t) && HEAD in m && pc.head == m[HEAD].next)
  }

  ghost predicate IsStack(s: Sys, c: seq<int>) {
    && HEAD in Newest(s) && Chain(Newest(s), Newest(s)[HEAD].next, c)
    && forall k :: k in c ==> Published(s, k)
  }

  ghost predicate Linked(s: Sys) {
    && (forall t :: t in s.pcs ==> PcLinked(s, t, s.pcs[t]))
    && exists c :: IsStack(s, c)
  }

  ghost predicate Inv(s: Sys) {
    Sound(s) && Linked(s)
  }

  /** The node ids on the stack, top first. */
  ghost function Ids(s: Sys): seq<int>
    ensures (exists c :: IsStack(s, c)) ==> IsStack(s, Ids(s))
  {
    if exists c :: IsStack(s, c) then
      var c :| IsStack(s, c);
      c
    else []
  }

  /** The abstract stack: the values along the chain, top first. */
  ghost function StackOf(s: Sys): seq<int> {
    Values(Newest(s), Ids(s))
  }

  /** The store determines the chain, so `StackOf` reads it off the store. */
  lemma StackIsUnique(s: Sys, c: seq<int>)
    requires Linked(s) && IsStack(s, c)
    ensures c == Ids(s) && StackOf(s) == Values(Newest(s), c)
  {
    ChainIsUnique(Newest(s), Newest(s)[HEAD].next, c, Ids(s));
  }

  // ---------------------------------------------------------------- the abstract stack

  ghost predicate AbstractStep(a: seq<int>, l: Label, a': seq<int>) {
    match l
    case Tau => a' == a
    case Pushed(v) => a' == [v] + a
    case Popped(v) => a != [] && v == a[0] && a' == a[1..]
    case PoppedNothing => a == [] && a' == a
    case Raised => false
  }

  // ---------------------------------------------------------------- newest values after a step

  lemma NewestKeys(s: Sys)
    requires WellFormed(s.store)
    ensures Newest(s).Keys == s.store.kvMap.Keys
  {}

  lemma NewestAfter(s: Sys, t: Session, mv: Move, s': Sys, e: Effect)
    requires WellFormed(s.store) && IsLocal(s, t, mv, s', e)
    ensures Newest(s') == if e.Wrote? then Newest(s)[e.k := e.node] else Newest(s)
  {
    match e {
      case Unchanged =>
      case Read(k) =>
        var session :| s'.store == GetNode(s, mv, session, k);
        GetKeepsContents(s.store, mv.id, session, k, mv.n);
      case Wrote(session, k, node) =>
        PutUpdatesContents(s.store, mv.id, session, k, node);
    }
  }

  lemma NewestIsRead(s: Sys, mv: Move, k: int)
    requires WellFormed(s.store) && CanGet(true, s, mv, k)
    ensures k in Newest(s) && Value(s, mv, k) == Newest(s)[k]
  {}

  /** Other threads' facts survive a step that is not theirs. */
  lemma OthersStayLinked(s: Sys, t: Session, mv: Move, s': Sys, e: Effect, u: Session)
    requires Sound(s) && IsLocal(s, t, mv, s', e) && u in s.pcs && u != t && PcLinked(s, u, s.pcs[u])
    requires e.Wrote? && e.k == HEAD ==> s.mutex == Some(t)
    requires s'.mutex == s.mutex || s.mutex == None || s.mutex == Some(t)
    ensures PcLinked(s', u, s'.pcs[u])
  {
    var pc := s.pcs[u];
    assert s'.pcs[u] == pc;
    NewestAfter(s, t, mv, s', e);
    assert OwnsId(s.store.kvMap.Keys, u, pc);
    assert OwnsId(s.store.kvMap.Keys, t, s.pcs[t]);
    if pc.PopRead? || pc.PopReady? || pc.PopLocked? {
      PublishedForEver(s, t, mv, s', e, pc.cur);
    }
  }

  /** A step that leaves the head alone leaves the chain alone. */
  lemma ChainSurvives(s: Sys, t: Session, mv: Move, s': Sys, e: Effect)
    requires Inv(s) && IsLocal(s, t, mv, s', e) && !(e.Wrote? && e.k == HEAD)
    ensures IsStack(s', Ids(s)) && Values(Newest(s'), Ids(s)) == StackOf(s)
  {
    var c := Ids(s);
    NewestAfter(s, t, mv, s', e);
    forall k | k in c ensures Published(s', k) {
      PublishedForEver(s, t, mv, s', e, k);
    }
    ChainFrame(Newest(s), Newest(s'), Newest(s)[HEAD].next, c);
  }

  // ---------------------------------------------------------------- one step, seen by the thread that takes it

  /** The id a pop reads from a non-empty head is a published node. */
  lemma HeadIsPublished(s: Sys)
    requires Inv(s)
    ensures HEAD in Newest(s)
    ensures Newest(s)[HEAD].next == NIL <==> Ids(s) == []
    ensures Newest(s)[HEAD].next == NIL <==> StackOf(s) == []
    ensures Newest(s)[HEAD].next != NIL ==> Published(s, Newest(s)[HEAD].next)
  {
    assert IsStack(s, Ids(s));
    if Newest(s)[HEAD].next != NIL {
      assert Ids(s)[0] in Ids(s);
    }
  }

  lemma PushKeepsLinked(s: Sys, t: Session, mv: Move, s': Sys, l: Label)
    requires Inv(s) && t in s.pcs && PushStep(true, s, t, mv, s', l)
    requires IsLocal(s, t, mv, s', EffectOf(s, t))
    ensures PcLinked(s', t, s'.pcs[t])
    ensures s'.mutex == s.mutex || s.mutex == None || s.mutex == Some(t)
    ensures EffectOf(s, t).Wrote? && EffectOf(s, t).k == HEAD ==> s.mutex == Some(t) && l == Pushed(s.pcs[t].val)
    ensures EffectOf(s, t).Wrote? && EffectOf(s, t).k == HEAD <==> l != Tau
  {
    var pc := s.pcs[t];
    NewestAfter(s, t, mv, s', EffectOf(s, t));
    assert PcLinked(s, t, pc);
    assert OwnsId(s.store.kvMap.Keys, t, pc);
    if pc.PushLoop? || pc.PushReady? {
      NewestIsRead(s, mv, HEAD);
    }
  }

  lemma PopKeepsLinked(s: Sys, t: Session, mv: Move, s': Sys, l: Label)
    requires Inv(s) && t in s.pcs && PopStep(true, s, t, mv, s', l)
    requires IsLocal(s, t, mv, s', EffectOf(s, t))
    ensures PcLinked(s', t, s'.pcs[t])
    ensures s'.mutex == s.mutex || s.mutex == None || s.mutex == Some(t)
    ensures EffectOf(s, t).Wrote? ==> EffectOf(s, t).k == HEAD && s.mutex == Some(t)
    ensures EffectOf(s, t).Wrote? ==> s.pcs[t].PopLocked? && l == Popped(s.pcs[t].node.val)
    ensures !EffectOf(s, t).Wrote? ==> l == Tau || (l == PoppedNothing && StackOf(s) == [])
  {
    var pc, e := s.pcs[t], EffectOf(s, t);
    NewestAfter(s, t, mv, s', e);
    HeadIsPublished(s);
    assert PcLinked(s, t, pc);
    match pc {
      case PopLoop =>
        NewestIsRead(s, mv, HEAD);
        var cur := Newest(s)[HEAD].next;
        if cur != NIL {
          PublishedForEver(s, t, mv, s', e, cur);
        }
      case PopRead(cur) =>
        NewestIsRead(s, mv, cur);
        PublishedForEver(s, t, mv, s', e, cur);
      case PopReady(cur, node) =>
        NewestIsRead(s, mv, HEAD);
        PublishedForEver(s, t, mv, s', e, cur);
      case _ =>
    }
  }

  // ---------------------------------------------------------------- the two successful updates of the head

  /** A successful push puts its node on top of the unchanged chain. */
  lemma PushRefines(s: Sys, t: Session, mv: Move, s': Sys)
    requires Inv(s) && t in s.pcs && IsLocal(s, t, mv, s', EffectOf(s, t))
    requires s.pcs[t].PushLocked? && EffectOf(s, t).Wrote? && s'.pcs[t] == Idle
    ensures IsStack(s', [s.pcs[t].id] + Ids(s))
    ensures Values(Newest(s'), [s.pcs[t].id] + Ids(s)) == [s.pcs[t].val] + StackOf(s)
  {
    var pc, c, e := s.pcs[t], Ids(s), EffectOf(s, t);
    var c' := [pc.id] + c;
    assert c'[1..] == c;
    NewestAfter(s, t, mv, s', e);
    assert PcLinked(s, t, pc);
    assert OwnsId(s.store.kvMap.Keys, t, pc);
    assert HEAD !in c;
    ChainFrame(Newest(s), Newest(s'), pc.cur, c);
    StepKeepsStore(s, t, mv, s', e);
    forall k | k in c' ensures Published(s', k) {
      if k == pc.id {
        OwnIdIsPublished(s, t, s');
      } else {
        PublishedForEver(s, t, mv, s', e, k);
      }
    }
  }

  lemma OwnIdIsPublished(s: Sys, t: Session, s': Sys)
    requires IdsInOrder(s) && t in s.pcs && s.pcs[t].PushLocked? && s'.pcs == s.pcs[t := Idle]
    requires s.store.kvMap.Keys <= s'.store.kvMap.Keys
    ensures Published(s', s.pcs[t].id)
  {
    assert OwnsId(s.store.kvMap.Keys, t, s.pcs[t]);
    forall u | u in s'.pcs && Pushing(s'.pcs[u]) ensures s'.pcs[u].id != s.pcs[t].id {
      assert u != t && OwnsId(s.store.kvMap.Keys, u, s.pcs[u]);
    }
  }

  /** A successful pop removes the top node and returns its value, even if the head id had recurred. */
  lemma PopRefines(s: Sys, t: Session, mv: Move, s': Sys)
    requires Inv(s) && t in s.pcs && IsLocal(s, t, mv, s', EffectOf(s, t))
    requires s.pcs[t].PopLocked? && EffectOf(s, t).Wrote?
    ensures Ids(s) != [] && StackOf(s) == [s.pcs[t].node.val] + StackOf(s)[1..]
    ensures IsStack(s', Ids(s)[1..]) && Values(Newest(s'), Ids(s)[1..]) == StackOf(s)[1..]
  {
    var pc, c, e := s.pcs[t], Ids(s), EffectOf(s, t);
    NewestAfter(s, t, mv, s', e);
    assert PcLinked(s, t, pc);
    assert c != [] && c[0] == pc.cur;
    assert HEAD !in c;
    ChainFrame(Newest(s), Newest(s'), pc.node.next, c[1..]);
    forall k | k in c[1..] ensures Published(s', k) {
      PublishedForEver(s, t, mv, s', e, k);
    }
  }

  // ---------------------------------------------------------------- the refinement

  lemma OthersKeepLinked(s: Sys, t: Session, mv: Move, s': Sys, e: Effect)
    requires Inv(s) && IsLocal(s, t, mv, s', e) && PcLinked(s', t, s'.pcs[t])
    requires e.Wrote? && e.k == HEAD ==> s.mutex == Some(t)
    requires s'.mutex == s.mutex || s.mutex == None || s.mutex == Some(t)
    ensures forall u :: u in s'.pcs ==> PcLinked(s', u, s'.pcs[u])
  {
    forall u | u in s'.pcs ensures PcLinked(s', u, s'.pcs[u]) {
      if u != t {
        OthersStayLinked(s, t, mv, s', e, u);
      }
    }
  }

  lemma AbstractStepFrom(s: Sys, s': Sys, l: Label, c: seq<int>)
    requires Linked(s) && IsStack(s', c) && (forall u :: u in s'.pcs ==> PcLinked(s', u, s'.pcs[u]))
    requires AbstractStep(StackOf(s), l, Values(Newest(s'), c))
    ensures Linked(s') && AbstractStep(StackOf(s), l, StackOf(s')) && Ids(s') == c
  {
    StackIsUnique(s', c);
  }

  /** The chain stays, gains the pushing thread's own node on top, or loses its top. */
  ghost predicate ChainStep(s: Sys, t: Session, l: Label, s': Sys)
    requires t in s.pcs
  {
    if l.Pushed? then Pushing(s.pcs[t]) && Ids(s') == [s.pcs[t].id] + Ids(s)
    else if l.Popped? then Ids(s) != [] && Ids(s') == Ids(s)[1..]
    else Ids(s') == Ids(s)
  }

  /** Every step of every thread is a step of the abstract stack. */
  lemma StepRefines(s: Sys, t: Session, mv: Move, s': Sys, l: Label)
    requires Inv(s) && Step(true, s, t, mv, s', l)
    ensures Inv(s') && AbstractStep(StackOf(s), l, StackOf(s')) && ChainStep(s, t, l, s')
  {
    var e := EffectOf(s, t);
    StepKeepsSound(true, s, t, mv, s', l);
    StepIsLocal(true, s, t, mv, s', l);
    if s.pcs[t].Idle? {
    } else if Pushing(s.pcs[t]) {
      PushKeepsLinked(s, t, mv, s', l);
    } else {
      PopKeepsLinked(s, t, mv, s', l);
    }
    OthersKeepLinked(s, t, mv, s', e);
    if !(e.Wrote? && e.k == HEAD) {
      ChainSurvives(s, t, mv, s', e);
      AbstractStepFrom(s, s', l, Ids(s));
    } else if s.pcs[t].PushLocked? {
      PushRefines(s, t, mv, s');
      AbstractStepFrom(s, s', l, [s.pcs[t].id] + Ids(s));
    } else {
      assert s.pcs[t].PopLocked?;
      PopRefines(s, t, mv, s');
      AbstractStepFrom(s, s', l, Ids(s)[1..]);
    }
  }
}
