/** The three read selectors. Random numbers come from `rng`, which maps the number of remaining
    choices to an arbitrary number; every selector choice is `rng(limit) % limit`. */
module ReadSelectors {
  import opened Stores
  import opened ConsistencyChecker

  datatype Option<T> = None | Some(value: T)

  // ---------------------------------------------------------------- causal: sampling without replacement

  function SwapOut<T>(c: seq<T>, i: nat, limit: nat): seq<T>
    requires i < limit <= |c|
  {
    c[i := c[limit - 1]][limit - 1 := c[i]]
  }

  /** How the sampling loop ends: the answer, the selector's copy of the candidates as the swaps
      left it, and the candidates it tested, in order. */
  datatype Sampling<V> = Sampling(answer: Option<Version<V>>, order: seq<Version<V>>, tested: seq<Version<V>>)

  /** The sampling loop as a function of the draws. */
  ghost function Sample<V>(c: seq<Version<V>>, limit: nat, rng: nat -> nat, ok: TxId -> bool): Sampling<V>
    requires limit <= |c|
    decreases limit
  {
    if limit == 0 then Sampling(None, c, []) else
      var c' := SwapOut(c, rng(limit) % limit, limit);
      var x := c'[limit - 1];
      if ok(x.writer) then Sampling(Some(x), c', [x]) else
        var rest := Sample(c', limit - 1, rng, ok);
        rest.(tested := [x] + rest.tested)
  }

  ghost function Draw<V>(c: seq<Version<V>>, rng: nat -> nat, ok: TxId -> bool): Option<Version<V>> {
    Sample(c, |c|, rng, ok).answer
  }

  lemma SwapOutIsPermutation<T>(c: seq<T>, i: nat, limit: nat)
    requires i < limit <= |c|
    ensures multiset(SwapOut(c, i, limit)) == multiset(c)
  {
    var first := c[i := c[limit - 1]];
    assert multiset(first) == multiset(c) - multiset{c[i]} + multiset{c[limit - 1]};
    assert multiset(first[limit - 1 := c[i]]) == multiset(first) - multiset{first[limit - 1]} + multiset{c[i]};
  }

  lemma SwapOutTakesOne<T>(c: seq<T>, i: nat, limit: nat)
    requires i < limit <= |c|
    ensures multiset(c[..limit]) == multiset(SwapOut(c, i, limit)[..limit - 1]) + multiset{c[i]}
  {
    var c' := SwapOut(c, i, limit);
    if i < limit - 1 {
      assert c[..limit] == c[..i] + [c[i]] + c[i + 1..limit - 1] + [c[limit - 1]];
      assert c'[..limit - 1] == c[..i] + [c[limit - 1]] + c[i + 1..limit - 1];
    } else {
      assert c' == c;
      assert c[..limit] == c[..limit - 1] + [c[i]];
    }
  }

  lemma SwapOutKeepsDistinct(c: seq<int>, i: nat, limit: nat)
    requires i < limit <= |c| && Distinct(c)
    ensures Distinct(SwapOut(c, i, limit))
  {}

  /** Whatever the draws, the loop only permutes its copy and tests no candidate twice. */
  lemma {:induction false} SamplePermutes<V>(c: seq<Version<V>>, limit: nat, rng: nat -> nat, ok: TxId -> bool)
    requires limit <= |c|
    ensures var r := Sample(c, limit, rng, ok);
            && multiset(r.order) == multiset(c)
            && multiset(r.tested) <= multiset(c[..limit])
            && (r.answer.None? ==> multiset(r.tested) == multiset(c[..limit]))
    decreases limit
  {
    if limit > 0 {
      var i := rng(limit) % limit;
      var c' := SwapOut(c, i, limit);
      SwapOutIsPermutation(c, i, limit);
      SwapOutTakesOne(c, i, limit);
      var x := c'[limit - 1];
      if !ok(x.writer) {
        SamplePermutes(c', limit - 1, rng, ok);
        var rest := Sample(c', limit - 1, rng, ok);
        assert multiset([x] + rest.tested) == multiset{x} + multiset(rest.tested);
      }
    }
  }

  /** Every tested candidate but the last is rejected; the last is the answer, if there is one. */
  lemma {:induction false} SampleStopsAtAccepted<V>(c: seq<Version<V>>, limit: nat, rng: nat -> nat, ok: TxId -> bool)
    requires limit <= |c|
    ensures var r := Sample(c, limit, rng, ok);
            && (forall i :: 0 <= i < |r.tested| ==> (ok(r.tested[i].writer) <==> r.answer.Some? && i == |r.tested| - 1))
            && (r.answer.Some? ==> r.tested != [] && r.answer.value == r.tested[|r.tested| - 1])
    decreases limit
  {
    if limit > 0 {
      var c' := SwapOut(c, rng(limit) % limit, limit);
      SampleStopsAtAccepted(c', limit - 1, rng, ok);
    }
  }

  lemma AnswerIsAccepted<V>(c: seq<Version<V>>, rng: nat -> nat, ok: TxId -> bool)
    ensures var r := Draw(c, rng, ok);
            if r.Some? then r.value in c && ok(r.value.writer) else forall x :: x in c ==> !ok(x.writer)
  {
    SamplePermutes(c, |c|, rng, ok);
    SampleStopsAtAccepted(c, |c|, rng, ok);
    assert c[..|c|] == c;
    var r := Sample(c, |c|, rng, ok);
    if r.answer.Some? {
      assert r.answer.value in multiset(r.tested);
    } else {
      forall x | x in c ensures !ok(x.writer) {
        assert x in multiset(c);
        assert x in r.tested;
      }
    }
  }

  /** Any accepted candidate can be drawn first. */
  lemma CanBeDrawn<V>(c: seq<Version<V>>, ok: TxId -> bool, x: Version<V>) returns (rng: nat -> nat)
    requires x in c && ok(x.writer)
    ensures Draw(c, rng, ok) == Some(x)
  {
    var i: nat :| i < |c| && c[i] == x;
    rng := limit => i;
    assert rng(|c|) % |c| == i;
    assert SwapOut(c, i, |c|)[|c| - 1] == x;
  }

  /** Over all draws, the possible results are exactly the accepted candidates. */
  lemma PossibleResults<V>(c: seq<Version<V>>, ok: TxId -> bool, r: Option<Version<V>>)
    ensures (exists rng :: Draw(c, rng, ok) == r) <==>
            if r.Some? then r.value in c && ok(r.value.writer) else forall y :: y in c ==> !ok(y.writer)
  {
    if rng :| Draw(c, rng, ok) == r {
      AnswerIsAccepted(c, rng, ok);
    }
    if r.Some? && r.value in c && ok(r.value.writer) {
      var rng := CanBeDrawn(c, ok, r.value);
    }
    if r.None? && forall y :: y in c ==> !ok(y.writer) {
      var rng: nat -> nat := limit => 0;
      AnswerIsAccepted(c, rng, ok);
      assert Draw(c, rng, ok) == r;
    }
  }

  /** What the loop ends with when it goes on from here, having tested `tested`. */
  ghost function Resume<V>(c: seq<Version<V>>, limit: nat, rng: nat -> nat, ok: TxId -> bool, tested: seq<Version<V>>): Sampling<V>
    requires limit <= |c|
  {
    var rest := Sample(c, limit, rng, ok);
    rest.(tested := tested + rest.tested)
  }

  /** One iteration of the loop. */
  lemma SampleOnce<V>(c: seq<Version<V>>, limit: nat, rng: nat -> nat, ok: TxId -> bool, tested: seq<Version<V>>)
    requires 0 < limit <= |c|
    ensures var c' := SwapOut(c, rng(limit) % limit, limit);
            var x := c'[limit - 1];
            Resume(c, limit, rng, ok, tested) ==
            if ok(x.writer) then Sampling(Some(x), c', tested + [x]) else Resume(c', limit - 1, rng, ok, tested + [x])
  {
    var c' := SwapOut(c, rng(limit) % limit, limit);
    var rest := Sample(c', limit - 1, rng, ok);
    assert tested + ([c'[limit - 1]] + rest.tested) == (tested + [c'[limit - 1]]) + rest.tested;
  }

  /** Swaps a drawn element with the last of the remaining ones. */
  method SwapWithLast<T>(a: array<T>, i: nat, limit: nat)
    requires i < limit <= a.Length
    modifies a
    ensures a[..] == SwapOut(old(a[..]), i, limit)
  {
    a[i], a[limit - 1] := a[limit - 1], a[i];
  }

  /** The sampling loop itself, swapping in its own copy of the candidates. */
  method SelectCausal<K(==), V>(st: Store<K, V>, s: Session, k: K, candidates: seq<Version<V>>, rng: nat -> nat)
    returns (r: Option<Version<V>>, ghost order: seq<Version<V>>, ghost tested: seq<Version<V>>)
    requires UniqueIds(st.history)
    ensures r == Draw(candidates, rng, Acceptor(st, s, k))
    ensures Sampling(r, order, tested) == Sample(candidates, |candidates|, rng, Acceptor(st, s, k))
  {
    ghost var ok := Acceptor(st, s, k);
    var n := |candidates|;
    var a := new Version<V>[n](i requires 0 <= i < n => candidates[i]);
    order, tested := candidates, [];
    var limit := n;
    while limit > 0
      invariant 0 <= limit <= n && a[..] == order
      invariant Resume(order, limit, rng, ok, tested) == Sample(candidates, n, rng, ok)
    {
      var index := rng(limit) % limit;
      SampleOnce(order, limit, rng, ok, tested);
      SwapWithLast(a, index, limit);
      order := SwapOut(order, index, limit);
      var candidate := a[limit - 1];
      limit := limit - 1;
      tested := tested + [candidate];
      var consistent := IsConsistent(st, s, k, candidate.writer);
      if consistent {
        return Some(candidate), a[..], tested;
      }
    }
    return None, a[..], tested;
  }

  // ---------------------------------------------------------------- linearizable: the newest version

  method SelectLinearizable<V>(candidates: seq<Version<V>>) returns (r: Option<Version<V>>)
    ensures r == if candidates == [] then None else Some(candidates[|candidates| - 1])
  {
    if |candidates| == 0 {
      return None;
    }
    return Some(candidates[|candidates| - 1]);
  }

  // ---------------------------------------------------------------- k-causal: at most k causal reads

  ghost predicate Distinct(s: seq<int>) {
    forall i, j :: 0 <= i < j < |s| ==> s[i] != s[j]
  }

  /** The shuffle as a function of the draws. */
  ghost function Shuffled(c: seq<int>, limit: nat, rng: nat -> nat): (r: seq<int>)
    requires limit <= |c|
    ensures |r| == |c|
    decreases limit
  {
    if limit <= 1 then c else Shuffled(SwapOut(c, rng(limit) % limit, limit), limit - 1, rng)
  }

  method Shuffle(a: array<int>, rng: nat -> nat)
    requires Distinct(a[..])
    modifies a
    ensures multiset(a[..]) == old(multiset(a[..])) && Distinct(a[..])
    ensures a[..] == Shuffled(old(a[..]), a.Length, rng)
  {
    var i := a.Length;
    while i > 1
      invariant 0 <= i <= a.Length
      invariant multiset(a[..]) == old(multiset(a[..])) && Distinct(a[..])
      invariant Shuffled(a[..], i, rng) == Shuffled(old(a[..]), a.Length, rng)
    {
      var j := rng(i) % i;
      ghost var before := a[..];
      SwapWithLast(a, j, i);
      SwapOutIsPermutation(before, j, i);
      SwapOutKeepsDistinct(before, j, i);
      i := i - 1;
    }
  }

  ghost function ReadNumbers(total: nat): seq<int> {
    seq(total, i => i + 1)
  }

  ghost function Front(c: seq<int>, n: nat): set<int>
    requires n <= |c|
  {
    set i | 0 <= i < n :: c[i]
  }

  lemma FrontStep(c: seq<int>, n: nat)
    requires n < |c| && Distinct(c)
    ensures Front(c, n + 1) == Front(c, n) + {c[n]} && c[n] !in Front(c, n)
  {}

  lemma {:induction false} FrontSize(c: seq<int>, n: nat)
    requires n <= |c| && Distinct(c)
    ensures |Front(c, n)| == n
  {
    if n > 0 {
      FrontSize(c, n - 1);
      FrontStep(c, n - 1);
    }
  }

  /** Only the draws up to `limit` matter. */
  lemma {:induction false} ShuffledDependsOn(c: seq<int>, limit: nat, rng: nat -> nat, other: nat -> nat)
    requires limit <= |c| && forall i: nat :: i <= limit ==> rng(i) == other(i)
    ensures Shuffled(c, limit, rng) == Shuffled(c, limit, other)
    decreases limit
  {
    if limit > 1 {
      ShuffledDependsOn(SwapOut(c, rng(limit) % limit, limit), limit - 1, rng, other);
    }
  }

  /** Swapping out an element that is not wanted keeps the wanted ones in front. */
  lemma SwapOutUnwanted(c: seq<int>, j: nat, limit: nat, ids: set<int>)
    requires j < limit <= |c| && ids <= Front(c, limit) && c[j] !in ids
    ensures ids <= Front(SwapOut(c, j, limit), limit - 1)
  {
    var c' := SwapOut(c, j, limit);
    forall x | x in ids ensures x in Front(c', limit - 1) {
      var i :| 0 <= i < limit && c[i] == x;
      assert c'[if i == limit - 1 then j else i] == x;
    }
  }

  lemma Unwanted(c: seq<int>, limit: nat, ids: set<int>) returns (j: nat)
    requires limit <= |c| && Distinct(c) && |ids| < limit
    ensures j < limit && c[j] !in ids
  {
    FrontSize(c, limit);
    if Front(c, limit) <= ids {
      SubsetSize(Front(c, limit), ids);
      assert false;
    }
    var x :| x in Front(c, limit) && x !in ids;
    j :| 0 <= j < limit && c[j] == x;
  }

  /** Draws that leave the set `ids` in the front. */
  lemma {:induction false} FrontCanBe(c: seq<int>, limit: nat, ids: set<int>) returns (rng: nat -> nat)
    requires limit <= |c| && Distinct(c) && ids <= Front(c, limit) && |ids| <= limit
    ensures Front(Shuffled(c, limit, rng), |ids|) == ids
    decreases limit
  {
    if |ids| == limit {
      rng := i => 0;
      FrontStays(c, limit, rng);
      FrontSize(c, limit);
      SameSize(ids, Front(c, limit));
    } else {
      var j := Unwanted(c, limit, ids);
      SwapOutUnwanted(c, j, limit, ids);
      SwapOutKeepsDistinct(c, j, limit);
      var rest := FrontCanBe(SwapOut(c, j, limit), limit - 1, ids);
      rng := i => if i == limit then j else rest(i);
      ShuffleFirst(c, limit, rng, rest, j);
    }
  }

  lemma RemainderOfSmall(j: nat, limit: nat)
    requires j < limit
    ensures j % limit == j
  {}

  lemma ShuffleFirst(c: seq<int>, limit: nat, rng: nat -> nat, rest: nat -> nat, j: nat)
    requires j < limit <= |c| && rng(limit) == j && forall i: nat :: i < limit ==> rng(i) == rest(i)
    ensures Shuffled(c, limit, rng) == Shuffled(SwapOut(c, j, limit), limit - 1, rest)
  {
    RemainderOfSmall(j, limit);
    if limit == 1 {
      assert SwapOut(c, j, limit) == c;
    } else {
      ShuffledDependsOn(SwapOut(c, j, limit), limit - 1, rng, rest);
    }
  }

  /** A shuffle of the first `limit` entries permutes them among themselves. */
  lemma {:induction false} FrontStays(c: seq<int>, limit: nat, rng: nat -> nat)
    requires limit <= |c|
    ensures forall n: nat :: limit <= n <= |c| ==> Front(Shuffled(c, limit, rng), n) == Front(c, n)
    decreases limit
  {
    if limit > 1 {
      var j := rng(limit) % limit;
      var c' := SwapOut(c, j, limit);
      FrontStays(c', limit - 1, rng);
      forall n: nat | limit <= n <= |c| ensures Front(c', n) == Front(c, n) {
        forall x ensures x in Front(c', n) <==> x in Front(c, n) {
          if i :| 0 <= i < n && c[i] == x {
            assert c'[if i == j then limit - 1 else if i == limit - 1 then j else i] == x;
          }
        }
      }
    }
  }

  lemma SubsetSize(a: set<int>, b: set<int>)
    requires a <= b
    ensures |a| <= |b|
  {
    assert b == a + (b - a);
  }

  lemma SameSize(a: set<int>, b: set<int>)
    requires a <= b && |a| == |b|
    ensures a == b
  {
    assert b == a + (b - a);
  }

  /** Over all draws, every set of `k` read numbers can be picked. */
  lemma EverySubsetCanBePicked(total: nat, ids: set<int>) returns (rng: nat -> nat)
    requires forall x :: x in ids ==> 1 <= x <= total
    ensures |ids| <= total && Front(Shuffled(ReadNumbers(total), total, rng), |ids|) == ids
  {
    var c := ReadNumbers(total);
    forall x | x in ids ensures x in Front(c, total) {
      assert c[x - 1] == x;
    }
    FrontSize(c, total);
    SubsetSize(ids, Front(c, total));
    rng := FrontCanBe(c, total, ids);
  }

  /** Exactly `k` different read numbers out of `1..totalReadCount`. */
  method PickKReadIds(k: int, totalReadCount: int, rng: nat -> nat) returns (ids: set<int>)
    requires 0 <= k <= totalReadCount
    ensures |ids| == k
    ensures forall x :: x in ids ==> 1 <= x <= totalReadCount
    ensures ids == Front(Shuffled(ReadNumbers(totalReadCount), totalReadCount, rng), k)
  {
    var readIds := new int[totalReadCount](i => i + 1);
    ghost var iota := readIds[..];
    assert iota == ReadNumbers(totalReadCount);
    Shuffle(readIds, rng);
    ids := {};
    for i := 0 to k
      invariant |ids| == i
      invariant forall x :: x in ids <==> x in readIds[..i]
    {
      assert readIds[..i + 1] == readIds[..i] + [readIds[i]];
      assert readIds[i] !in readIds[..i];
      ids := ids + {readIds[i]};
    }
    forall x | x in ids ensures 1 <= x <= totalReadCount {
      assert x in multiset(readIds[..]);
      assert x in multiset(iota);
    }
  }

  class KCausalSelector {
    const k: int
    const totalReadCount: int
    var readCount: int
    var kReadIds: set<int>

    constructor (k: int, totalReadCount: int)
      ensures this.k == k && this.totalReadCount == totalReadCount
      ensures readCount == 0 && kReadIds == {}
    {
      this.k, this.totalReadCount := k, totalReadCount;
      readCount, kReadIds := 0, {};
    }

    /** Picks the reads that will be causal; a second call would add further ones. */
    method InitConsistencyChecker(rng: nat -> nat)
      requires 0 <= k <= totalReadCount
      modifies this`kReadIds
      ensures kReadIds == old(kReadIds) + Front(Shuffled(ReadNumbers(totalReadCount), totalReadCount, rng), k)
      ensures old(kReadIds) <= kReadIds && |kReadIds - old(kReadIds)| <= k
      ensures old(kReadIds) == {} ==> |kReadIds| == k && forall x :: x in kReadIds ==> 1 <= x <= totalReadCount
    {
      var ids := PickKReadIds(k, totalReadCount, rng);
      ghost var added := ids - kReadIds;
      assert ids == added + (ids * kReadIds);
      kReadIds := kReadIds + ids;
      assert kReadIds - old(kReadIds) == added;
    }

    method Select<K(==), V>(st: Store<K, V>, s: Session, key: K, candidates: seq<Version<V>>, rng: nat -> nat)
      returns (r: Option<Version<V>>)
      requires UniqueIds(st.history)
      modifies this`readCount
      ensures readCount == old(readCount) + 1 && kReadIds == old(kReadIds)
      ensures r == if readCount in kReadIds then Draw(candidates, rng, Acceptor(st, s, key))
                   else if candidates == [] then None
                   else Some(candidates[|candidates| - 1])
    {
      readCount := readCount + 1;
      if readCount in kReadIds {
        ghost var order, tested;
        r, order, tested := SelectCausal(st, s, key, candidates, rng);
      } else {
        r := SelectLinearizable(candidates);
      }
    }
  }

  // ---------------------------------------------------------------- what a selector may answer

  /** The selector attached to a store, as a value. */
  datatype Policy = Causal | Linearizable | KCausal(readCount: int, readIds: set<int>)

  /** Will the next read be answered by the causal sampling? */
  predicate SamplesNext(p: Policy) {
    p.Causal? || (p.KCausal? && p.readCount + 1 in p.readIds)
  }

  /** What the selector answers, given the draws. */
  ghost function Answer<K, V>(p: Policy, st: Store<K, V>, s: Session, k: K, rng: nat -> nat): Option<Version<V>> {
    var candidates := Versions(st, k);
    if SamplesNext(p) then Draw(candidates, rng, Acceptor(st, s, k))
    else if candidates == [] then None
    else Some(candidates[|candidates| - 1])
  }

  /** May the selector answer a GET of `k` by session `s` with version `n`? */
  ghost predicate MayAnswer<K, V>(p: Policy, st: Store<K, V>, s: Session, k: K, n: nat)
  {
    n < |Versions(st, k)| &&
    if SamplesNext(p)
    then Accepts(st, s, k, Versions(st, k)[n].writer)
    else n == |Versions(st, k)| - 1
  }

  function AfterRead(p: Policy): Policy {
    if p.KCausal? then p.(readCount := p.readCount + 1) else p
  }

  /** Whatever the draws, a selector answers with a version it may answer, unless there is none. */
  lemma AnswerMayBeGiven<K, V>(p: Policy, st: Store<K, V>, s: Session, k: K, rng: nat -> nat) returns (n: nat)
    ensures var r := Answer(p, st, s, k, rng);
            if r.Some? then MayAnswer(p, st, s, k, n) && r.value == Versions(st, k)[n]
            else forall i: nat :: !MayAnswer(p, st, s, k, i)
  {
    var candidates, r := Versions(st, k), Answer(p, st, s, k, rng);
    AnswerIsAccepted(candidates, rng, Acceptor(st, s, k));
    n := 0;
    if r.Some? {
      n := if SamplesNext(p) then IndexOf(candidates, r.value) else |candidates| - 1;
    }
  }

  ghost function IndexOf<T>(s: seq<T>, x: T): (n: nat)
    requires x in s
    ensures n < |s| && s[n] == x
  {
    var n :| 0 <= n < |s| && s[n] == x;
    n
  }

  /** What each selector may answer, on a well-formed store: the causal one everything from the session's floor
      on, the linearizable one the newest version, and the k-causal one the former exactly on picked reads. */
  lemma WhatMayBeAnswered<K(!new), V>(st: Store<K, V>, s: Session, k: K, readCount: int, ids: set<int>, n: nat)
    requires WellFormed(st) && n < |Versions(st, k)|
    ensures MayAnswer(Causal, st, s, k, n) <==> Floor(st.history, s, k) <= n
    ensures MayAnswer(Linearizable, st, s, k, n) <==> n == |Versions(st, k)| - 1
    ensures MayAnswer(KCausal(readCount, ids), st, s, k, n) <==>
            if readCount + 1 in ids then Floor(st.history, s, k) <= n else n == |Versions(st, k)| - 1
  {
    AcceptsIffAboveFloor(st, s, k, n);
  }

  /** What each selector answers, for all draws: the sampled version, or the newest one. */
  lemma WhatIsAnswered<K, V>(st: Store<K, V>, s: Session, k: K, rng: nat -> nat, readCount: int, ids: set<int>)
    ensures Answer(Causal, st, s, k, rng) == Draw(Versions(st, k), rng, Acceptor(st, s, k))
    ensures Versions(st, k) != [] ==>
              Answer(Linearizable, st, s, k, rng) == Some(Versions(st, k)[|Versions(st, k)| - 1])
    ensures Answer(KCausal(readCount, ids), st, s, k, rng) ==
            Answer(if readCount + 1 in ids then Causal else Linearizable, st, s, k, rng)
    ensures AfterRead(KCausal(readCount, ids)) == KCausal(readCount + 1, ids)
    ensures AfterRead(Causal) == Causal && AfterRead(Linearizable) == Linearizable
  {}

  /** No selector ever answers below the session's floor. */
  lemma AnswersAboveFloor<K(!new), V>(p: Policy, st: Store<K, V>, s: Session, k: K, n: nat)
    requires WellFormed(st) && MayAnswer(p, st, s, k, n)
    ensures Floor(st.history, s, k) <= n
  {
    AcceptsIffAboveFloor(st, s, k, n);
    if k in st.kvMap {
      NewestIsAboveFloor(st, s, k);
    }
  }

  /** Every GET of a stored key has an answer: the newest version always qualifies. */
  lemma GetIsNeverStuck<K(!new), V>(p: Policy, st: Store<K, V>, s: Session, k: K)
    requires WellFormed(st) && k in st.kvMap
    ensures MayAnswer(p, st, s, k, |Versions(st, k)| - 1)
  {
    NewestIsAboveFloor(st, s, k);
    AcceptsIffAboveFloor(st, s, k, |Versions(st, k)| - 1);
  }

  lemma NoAnswerMeansMalformed<K(!new), V>(p: Policy, st: Store<K, V>, s: Session, k: K)
    requires k in st.kvMap && forall n: nat :: !MayAnswer(p, st, s, k, n)
    ensures !WellFormed(st)
  {
    if WellFormed(st) {
      GetIsNeverStuck(p, st, s, k);
    }
  }
}
