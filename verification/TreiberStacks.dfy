/** The stack object as one thread runs it, without interference: what each method does to the newest
    values, and that on a chain this is a push or a pop. */
module TreiberStacks {
  import opened Stores
  import opened KvStores
  import opened LinearizableStores
  import opened TreiberSteps
  import opened StackRefinement

  type Data = map<int, Node>

  const EMPTY := 0

  function HeadOf(m: Data): int {
    if HEAD in m then m[HEAD].next else NIL
  }

  function AfterUpdate(m: Data, oldHead: int, newHead: int): Data {
    if HeadOf(m) == oldHead then m[HEAD := Node(0, newHead)] else m
  }

  function AfterPush(m: Data, id: int, val: int): Data {
    var stored := m[id := Node(val, NIL)];
    var linked := if HEAD in stored then stored[id := Node(val, HeadOf(stored))] else stored;
    linked[HEAD := Node(0, id)]
  }

  function AfterPop(m: Data): Data {
    if HeadOf(m) in m && HeadOf(m) != NIL then m[HEAD := Node(0, m[HeadOf(m)].next)] else m
  }

  class TreiberStack {
    const store: KvStore<int, Node>

    constructor (store: KvStore<int, Node>)
      requires Ready(store)
      modifies store
      ensures this.store == store && Ready(store)
      ensures Now(store) == old(Now(store))[HEAD := Node(0, NIL)]
    {
      this.store := store;
      new;
      Save(store, HEAD, Node(0, NIL), 1);
    }

    method ReadHead(s: Session) returns (head: int)
      requires Ready(store)
      modifies store
      ensures Ready(store) && Now(store) == old(Now(store)) && head == HeadOf(Now(store))
    {
      var got := Fetch(store, HEAD, s);
      return if got.Some? then got.value.next else NIL;
    }

    /** Compare-and-set on the head. */
    method UpdateHead(oldHead: int, newHead: int, s: Session) returns (updated: bool)
      requires Ready(store)
      modifies store
      ensures Ready(store) && Now(store) == AfterUpdate(old(Now(store)), oldHead, newHead)
      ensures updated <==> HeadOf(old(Now(store))) == oldHead
      ensures updated <==> oldHead == if 0 in old(Now(store)) then old(Now(store))[0].next else -1
      ensures Now(store) == if updated then old(Now(store))[0 := Node(0, newHead)] else old(Now(store))
    {
      var head := ReadHead(s);
      if head == oldHead {
        Save(store, HEAD, Node(0, newHead), s);
        return true;
      }
      return false;
    }

    method Push(val: int, s: Session) returns (ghost id: int)
      requires Ready(store)
      modifies store
      ensures Ready(store) && id == |old(Now(store))| * 10 + s
      ensures Now(store) == AfterPush(old(Now(store)), id, val)
    {
      SizeOfNow(store);
      var newHeadId := store.GetSize() * 10 + s;
      id := newHeadId;
      Save(store, newHeadId, Node(val, NIL), 1);
      ghost var stored := Now(store);
      var pushed := false;
      while !pushed
        invariant Ready(store)
        invariant Now(store) == if pushed then AfterPush(old(Now(store)), newHeadId, val) else stored
        decreases !pushed
      {
        var curHeadId := NIL;
        var got := Fetch(store, HEAD, s);
        if got.Some? {
          curHeadId := got.value.next;
          Save(store, newHeadId, Node(val, curHeadId), 1);
        }
        pushed := UpdateHead(curHeadId, newHeadId, s);
      }
    }

    method Pop(s: Session) returns (r: Result<int>)
      requires Ready(store)
      modifies store
      ensures Ready(store)
      ensures r.Err? <==> HEAD !in old(Now(store))
      ensures Now(store) == AfterPop(old(Now(store)))
      ensures r.Ok? ==>
        var m := old(Now(store));
        r.value == if m[0].next != -1 && m[0].next in m then m[m[0].next].val else 0
    {
      var popped := false;
      r := Ok(EMPTY);
      while !popped
        invariant Ready(store)
        invariant Now(store) == if popped then AfterPop(old(Now(store))) else old(Now(store))
        invariant popped ==> HEAD in old(Now(store)) && HeadOf(old(Now(store))) in old(Now(store))
        invariant popped ==> HeadOf(old(Now(store))) != NIL && r == Ok(old(Now(store))[HeadOf(old(Now(store)))].val)
        decreases !popped
      {
        var got := Fetch(store, HEAD, s);
        if got.None? {
          return Err(KeyNotFound);
        }
        var curHeadId := got.value.next;
        if curHeadId == NIL {
          return Ok(EMPTY);
        }
        var head := Fetch(store, curHeadId, s);
        if head.None? {
          return Ok(EMPTY);
        }
        r := Ok(head.value.val);
        popped := UpdateHead(curHeadId, head.value.next, s);
      }
    }
  }

  lemma SizeOfNow(store: KvStore<int, Node>)
    requires Ready(store)
    ensures |Now(store)| == |store.kvMap|
  {
    assert Now(store).Keys == store.kvMap.Keys;
    assert |Now(store)| == |Now(store).Keys| && |store.kvMap| == |store.kvMap.Keys|;
  }

  /** A push writes its own node and the head, and nothing else. */
  lemma WhatPushWrites(m: Data, id: int, val: int)
    requires id != HEAD
    ensures AfterPush(m, id, val) == m[id := Node(val, if 0 in m then m[0].next else -1)][0 := Node(0, id)]
  {}

  /** A pop moves the head to the next node, if there is a node, and writes nothing else. */
  lemma WhatPopWrites(m: Data)
    requires HEAD in m
    ensures AfterPop(m) ==
            if m[0].next != -1 && m[0].next in m then m[0 := Node(0, m[m[0].next].next)] else m
  {}

  /** A push with a fresh id puts its value on top and leaves the rest of the chain as it was. */
  lemma PushOnChain(m: Data, c: seq<int>, id: int, val: int)
    requires HEAD in m && HEAD !in c && Chain(m, HeadOf(m), c) && id !in m && id > 0
    ensures var m' := AfterPush(m, id, val);
            Chain(m', HeadOf(m'), [id] + c) && Values(m', [id] + c) == [val] + Values(m, c)
  {
    var m' := AfterPush(m, id, val);
    ChainInKeys(m, HeadOf(m), c);
    ChainFrame(m, m', HeadOf(m), c);
    assert ([id] + c)[1..] == c;
  }

  /** A pop takes off the top value, and leaves an empty stack alone. */
  lemma PopOnChain(m: Data, c: seq<int>)
    requires HEAD in m && HEAD !in c && Chain(m, HeadOf(m), c)
    ensures var m' := AfterPop(m);
            if c == [] then m' == m && HeadOf(m) == NIL
            else Chain(m', HeadOf(m'), c[1..]) && Values(m, c) == [m[HeadOf(m)].val] + Values(m', c[1..])
  {
    if c != [] {
      ChainFrame(m, AfterPop(m), m[c[0]].next, c[1..]);
    }
  }

  lemma {:induction false} ChainInKeys(m: Data, head: int, c: seq<int>)
    requires Chain(m, head, c)
    ensures forall k :: k in c ==> k in m
    decreases c
  {
    if c != [] {
      ChainInKeys(m, m[head].next, c[1..]);
    }
  }

  /** One thread that pushes and then pops gets its value back and the stack as it was. */
  lemma PushThenPop(m: Data, c: seq<int>, id: int, val: int)
    requires HEAD in m && HEAD !in c && Chain(m, HeadOf(m), c) && id !in m && id > 0
    ensures var pushed := AfterPush(m, id, val);
            var popped := AfterPop(pushed);
            HeadOf(pushed) in pushed && pushed[HeadOf(pushed)].val == val &&
            Chain(popped, HeadOf(popped), c) && Values(popped, c) == Values(m, c)
  {
    PushOnChain(m, c, id, val);
    PopOnChain(AfterPush(m, id, val), [id] + c);
    assert ([id] + c)[1..] == c;
    var popped := AfterPop(AfterPush(m, id, val));
    assert ([val] + Values(m, c))[1..] == Values(m, c) && ([val] + Values(popped, c))[1..] == Values(popped, c);
  }
}
