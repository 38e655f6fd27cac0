/** Lists that are selections of other lists: which positions they keep, in which order. */
module Lists {

  // ---------------------------------------------------------------- selections, by position

  ghost predicate Increasing(at: seq<nat>) {
    forall a, b :: 0 <= a < b < |at| ==> at[a] < at[b]
  }

  /** `at` lists, in order, exactly the positions below `n` that `p` picks. */
  ghost predicate Picks(at: seq<nat>, n: nat, p: nat -> bool) {
    Increasing(at) && forall i: nat :: i in at <==> i < n && p(i)
  }

  ghost predicate ValuesAt(list: seq<int>, at: seq<nat>, f: nat -> int) {
    |list| == |at| && forall j :: 0 <= j < |at| ==> list[j] == f(at[j])
  }

  /** `list` has the values of `f` at exactly the positions below `n` that `p` picks, in order. */
  ghost predicate IsSelection(list: seq<int>, n: nat, p: nat -> bool, f: nat -> int) {
    exists at: seq<nat> :: Picks(at, n, p) && ValuesAt(list, at, f)
  }

  lemma NothingSelected(n: nat, p: nat -> bool, f: nat -> int)
    requires forall i: nat :: i < n ==> !p(i)
    ensures IsSelection([], n, p, f)
  {
    assert Picks([], n, p) && ValuesAt([], [], f);
  }

  lemma NoneSelected(n: nat, p: nat -> bool, f: nat -> int)
    requires IsSelection([], n, p, f)
    ensures forall i: nat :: i < n ==> !p(i)
  {
    var at: seq<nat> :| Picks(at, n, p) && ValuesAt([], at, f);
    forall i: nat | i < n ensures !p(i) {
      assert i in at <==> p(i);
    }
  }

  /** One more position, and another way to say which positions are picked. */
  lemma SelectionGrows(list: seq<int>, n: nat, p: nat -> bool, f: nat -> int, p': nat -> bool, f': nat -> int)
    requires IsSelection(list, n, p, f)
    requires forall i: nat :: i < n ==> p'(i) == p(i) && (p(i) ==> f'(i) == f(i))
    ensures IsSelection(list + if p'(n) then [f'(n)] else [], n + 1, p', f')
  {
    var at: seq<nat> :| Picks(at, n, p) && ValuesAt(list, at, f);
    forall j | 0 <= j < |at| ensures at[j] < n && f'(at[j]) == f(at[j]) {
      assert at[j] in at;
    }
    var at' := at + if p'(n) then [n] else [];
    forall i: nat ensures i in at' <==> i < n + 1 && p'(i) {
      assert i in at <==> i < n && p(i);
    }
    assert Picks(at', n + 1, p') && ValuesAt(list + if p'(n) then [f'(n)] else [], at', f');
  }

  lemma SelectionIdles(list: seq<int>, m: nat, n: nat, p: nat -> bool, f: nat -> int)
    requires IsSelection(list, m, p, f) && m <= n && forall i: nat :: m <= i < n ==> !p(i)
    ensures IsSelection(list, n, p, f)
  {
    var at: seq<nat> :| Picks(at, m, p) && ValuesAt(list, at, f);
    forall i: nat ensures i in at <==> i < n && p(i) {
      assert i in at <==> i < m && p(i);
    }
    assert Picks(at, n, p);
  }

  /** The last entry of a selection, and the selection before it. */
  lemma LastSelected(list: seq<int>, n: nat, p: nat -> bool, f: nat -> int) returns (k: nat)
    requires IsSelection(list, n, p, f) && list != []
    ensures k < n && p(k) && list[|list| - 1] == f(k)
    ensures IsSelection(list[..|list| - 1], k, p, f)
    ensures forall i: nat :: k < i < n ==> !p(i)
  {
    var at: seq<nat> :| Picks(at, n, p) && ValuesAt(list, at, f);
    k := at[|at| - 1];
    var front := at[..|at| - 1];
    assert at == front + [k];
    assert k in at;
    assert forall j :: 0 <= j < |at| ==> at[j] <= k;
    forall i: nat | k < i < n ensures !p(i) {
      assert i !in at;
    }
    forall i: nat ensures i in front <==> i < k && p(i) {
      assert i in at <==> i < n && p(i);
      if i in front {
        var j :| 0 <= j < |front| && front[j] == i;
      }
    }
    assert Picks(front, k, p) && ValuesAt(list[..|list| - 1], front, f);
  }

  /** The positions determine the list. */
  lemma {:induction false} SelectionIsUnique(a: seq<int>, b: seq<int>, n: nat, p: nat -> bool, f: nat -> int)
    requires IsSelection(a, n, p, f) && IsSelection(b, n, p, f)
    ensures a == b
    decreases n
  {
    if a == [] {
      NoneSelected(n, p, f);
      if b != [] {
        var l := LastSelected(b, n, p, f);
        assert false;
      }
    } else if b == [] {
      NoneSelected(n, p, f);
      var k := LastSelected(a, n, p, f);
      assert false;
    } else {
      var k := LastSelected(a, n, p, f);
      var l := LastSelected(b, n, p, f);
      assert k == l;
      SelectionIsUnique(a[..|a| - 1], b[..|b| - 1], k, p, f);
      assert a == a[..|a| - 1] + [a[|a| - 1]] && b == b[..|b| - 1] + [b[|b| - 1]];
    }
  }

  // ---------------------------------------------------------------- removing an id from a stored list

  function Without(items: seq<int>, x: int): seq<int> {
    if items == [] then [] else
      Without(items[..|items| - 1], x) + if items[|items| - 1] != x then [items[|items| - 1]] else []
  }

  /** Removing a value from a selection leaves the selection of the positions with other values. */
  lemma {:induction false} SelectionShrinks(list: seq<int>, n: nat, p: nat -> bool, f: nat -> int, x: int,
                                            p': nat -> bool, f': nat -> int)
    requires IsSelection(list, n, p, f)
    requires forall i: nat :: i < n ==> (p'(i) <==> p(i) && f(i) != x) && (p'(i) ==> f'(i) == f(i))
    ensures IsSelection(Without(list, x), n, p', f')
    decreases |list|
  {
    if list == [] {
      NoneSelected(n, p, f);
      NothingSelected(n, p', f');
    } else {
      var k := LastSelected(list, n, p, f);
      SelectionShrinks(list[..|list| - 1], k, p, f, x, p', f');
      SelectionGrows(Without(list[..|list| - 1], x), k, p', f', p', f');
      SelectionIdles(Without(list, x), k + 1, n, p', f');
    }
  }

  ghost function ValueAt(items: seq<int>): nat -> int {
    (i: nat) => if i < |items| then items[i] else 0
  }

  ghost function Differs(items: seq<int>, x: int): nat -> bool {
    (i: nat) => i < |items| && items[i] != x
  }

  /** `rest` has the entries of `items` other than `x`, all of them, in the same order. */
  ghost predicate IsRest(rest: seq<int>, items: seq<int>, x: int) {
    IsSelection(rest, |items|, Differs(items, x), ValueAt(items))
  }

  lemma {:induction false} WholeSelected(items: seq<int>, n: nat)
    requires n <= |items|
    ensures IsSelection(items[..n], n, i => true, ValueAt(items))
  {
    if n == 0 {
      NothingSelected(0, i => true, ValueAt(items));
    } else {
      WholeSelected(items, n - 1);
      SelectionGrows(items[..n - 1], n - 1, i => true, ValueAt(items), i => true, ValueAt(items));
      assert items[..n] == items[..n - 1] + [items[n - 1]];
    }
  }

  /** Removing keeps all other entries, in their order. */
  lemma WithoutIsRest(items: seq<int>, x: int)
    ensures IsRest(Without(items, x), items, x)
  {
    WholeSelected(items, |items|);
    assert items[..|items|] == items;
    SelectionShrinks(items, |items|, i => true, ValueAt(items), x, Differs(items, x), ValueAt(items));
  }

  /** Removing keeps the number of every other entry. */
  lemma {:induction false} WithoutKeepsCounts(items: seq<int>, x: int, y: int)
    ensures multiset(Without(items, x))[y] == if y == x then 0 else multiset(items)[y]
  {
    if items != [] {
      WithoutKeepsCounts(items[..|items| - 1], x, y);
      assert items == items[..|items| - 1] + [items[|items| - 1]];
    }
  }

  lemma {:induction false} WithoutKeepsOthers(items: seq<int>, x: int)
    ensures forall i :: i in Without(items, x) <==> i in items && i != x
    ensures (forall a, b :: 0 <= a < b < |items| ==> items[a] != items[b]) ==>
            forall a, b :: 0 <= a < b < |Without(items, x)| ==> Without(items, x)[a] != Without(items, x)[b]
  {
    if items != [] {
      var front, last := items[..|items| - 1], items[|items| - 1];
      assert items == front + [last];
      WithoutKeepsOthers(front, x);
      if forall a, b :: 0 <= a < b < |items| ==> items[a] != items[b] {
        assert last !in front;
        assert last !in Without(front, x);
      }
    }
  }
}
