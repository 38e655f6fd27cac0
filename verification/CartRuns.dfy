/** What is in a cart after any operations of any users, said by the list of operations alone. */
module CartRuns {
  import opened Lists
  import opened CartData

  predicate Adds(ops: seq<UserAction>, j: nat, u: int, i: int) {
    j < |ops| && ops[j].user == u && ops[j].action.AddItem? && ops[j].action.item == i
  }

  predicate Removes(ops: seq<UserAction>, j: nat, u: int, i: int) {
    j < |ops| && ops[j].user == u && ops[j].action.RemoveItem? && ops[j].action.item == i
  }

  ghost predicate RemovedBetween(ops: seq<UserAction>, j: nat, n: nat, u: int, i: int) {
    exists r: nat :: j < r < n && Removes(ops, r, u, i)
  }

  /** Of the first `n` operations, one added the item to the user's cart and none removed it since. */
  ghost predicate IsAdded(ops: seq<UserAction>, n: nat, u: int, i: int) {
    exists j: nat :: j < n && Adds(ops, j, u, i) && !RemovedBetween(ops, j, n, u, i)
  }

  function ItemAt(ops: seq<UserAction>, j: nat): int {
    if j < |ops| then ops[j].action.item else 0
  }

  ghost function ItemOf(ops: seq<UserAction>): nat -> int {
    (j: nat) => ItemAt(ops, j)
  }

  /** Operation `j` adds an item that was not in the cart, and up to operation `n` nothing removes it. */
  ghost predicate EntersAt(ops: seq<UserAction>, n: nat, u: int, j: nat) {
    && Adds(ops, j, u, ItemAt(ops, j)) && !IsAdded(ops, j, u, ItemAt(ops, j))
    && !RemovedBetween(ops, j, n, u, ItemAt(ops, j))
  }

  ghost function Enters(ops: seq<UserAction>, n: nat, u: int): nat -> bool {
    (j: nat) => EntersAt(ops, n, u, j)
  }

  ghost predicate NoCarts(m: Data) {
    forall k :: k in m ==> !k.Cart? && !k.Quantity?
  }

  lemma RunPrefix(m: Data, ops: seq<UserAction>, n: nat)
    requires n < |ops|
    ensures Run(m, ops[..n + 1]) == Apply(Run(m, ops[..n]), ops[n].user, ops[n].action)
  {
    assert ops[..n + 1][..n] == ops[..n];
  }

  lemma RemovedStep(ops: seq<UserAction>, j: nat, n: nat, u: int, i: int)
    ensures RemovedBetween(ops, j, n + 1, u, i) <==> RemovedBetween(ops, j, n, u, i) || (j < n && Removes(ops, n, u, i))
  {
    if RemovedBetween(ops, j, n, u, i) {
      var r: nat :| j < r < n && Removes(ops, r, u, i);
      assert j < r < n + 1;
    }
  }

  lemma AddedStep(ops: seq<UserAction>, n: nat, u: int, i: int)
    requires n < |ops|
    ensures IsAdded(ops, n + 1, u, i) <==> Adds(ops, n, u, i) || (IsAdded(ops, n, u, i) && !Removes(ops, n, u, i))
  {
    if IsAdded(ops, n + 1, u, i) && !Adds(ops, n, u, i) {
      var j: nat :| j < n + 1 && Adds(ops, j, u, i) && !RemovedBetween(ops, j, n + 1, u, i);
      RemovedStep(ops, j, n, u, i);
    }
    if IsAdded(ops, n, u, i) && !Removes(ops, n, u, i) {
      var j: nat :| j < n && Adds(ops, j, u, i) && !RemovedBetween(ops, j, n, u, i);
      RemovedStep(ops, j, n, u, i);
    }
    if Adds(ops, n, u, i) {
      assert !RemovedBetween(ops, n, n + 1, u, i);
    }
  }

  /** What one operation does to any user's list. */
  lemma ItemsAfter(m: Data, u: int, action: Action, v: int)
    ensures Items(Apply(m, u, action), v) ==
            if v != u || action.ChangeQuantity? || (action.AddItem? && action.item in Items(m, u)) then Items(m, v)
            else if action.AddItem? then Items(m, v) + [action.item]
            else Without(Items(m, v), action.item)
  {}

  lemma ListedAfter(m: Data, u: int, action: Action, v: int, i: int)
    ensures i in Items(Apply(m, u, action), v) <==>
            if u == v && action.item == i && !action.ChangeQuantity? then action.AddItem? else i in Items(m, v)
  {
    ItemsAfter(m, u, action, v);
    WithoutKeepsOthers(Items(m, v), action.item);
  }

  /** What one operation does to any quantity. */
  lemma AmountsAfter(m: Data, u: int, action: Action, v: int, i: int)
    ensures Amounts(Apply(m, u, action), v, i) ==
            if v != u || i != action.item then Amounts(m, v, i)
            else if action.AddItem? then Amounts(m, v, i) + action.quantity
            else if action.ChangeQuantity? then (if Amounts(m, v, i) != 0 then action.quantity else 0)
            else if i in Items(m, u) then 0 else Amounts(m, v, i)
  {}

  /** The names and prices are never touched. */
  lemma CatalogueUntouched(m: Data, u: int, action: Action, k: Key)
    requires k.ItemName? || k.ItemPrice?
    ensures k in Apply(m, u, action) <==> k in m
    ensures k in m ==> Apply(m, u, action)[k] == m[k]
  {}

  /** Removing an item keeps all others, in their order. */
  lemma RemoveItemKeepsRest(m: Data, u: int, i: int)
    ensures IsRest(Items(Apply(m, u, RemoveItem(i)), u), Items(m, u), i)
  {
    ItemsAfter(m, u, RemoveItem(i), u);
    WithoutIsRest(Items(m, u), i);
  }

  ghost predicate ListedIffAddedAt(m: Data, ops: seq<UserAction>, n: nat, u: int, i: int)
    requires n <= |ops|
  {
    i in Items(Run(m, ops[..n]), u) <==> IsAdded(ops, n, u, i)
  }

  lemma NothingListedAtFirst(m: Data, ops: seq<UserAction>, u: int, i: int)
    requires NoCarts(m)
    ensures ListedIffAddedAt(m, ops, 0, u, i)
  {
    assert ops[..0] == [];
  }

  lemma {:induction false} ListedIffAdded(m: Data, ops: seq<UserAction>, n: nat, u: int, i: int)
    requires NoCarts(m) && n <= |ops|
    ensures ListedIffAddedAt(m, ops, n, u, i)
  {
    if n == 0 {
      NothingListedAtFirst(m, ops, u, i);
    } else {
      ListedIffAdded(m, ops, n - 1, u, i);
      ListedStep(m, ops, n - 1, u, i);
    }
  }

  lemma ListedStep(m: Data, ops: seq<UserAction>, n: nat, u: int, i: int)
    requires n < |ops| && ListedIffAddedAt(m, ops, n, u, i)
    ensures ListedIffAddedAt(m, ops, n + 1, u, i)
  {
    RunPrefix(m, ops, n);
    ListedAfter(Run(m, ops[..n]), ops[n].user, ops[n].action, u, i);
    AddedStep(ops, n, u, i);
  }

  /** An operation other than a removal by this user picks at most itself, and drops nothing. */
  lemma EntersStep(ops: seq<UserAction>, n: nat, u: int, j: nat)
    requires j < n < |ops|
    ensures EntersAt(ops, n + 1, u, j) <==> EntersAt(ops, n, u, j) && !Removes(ops, n, u, ItemAt(ops, j))
  {
    RemovedStep(ops, j, n, u, ItemAt(ops, j));
  }

  /** After any operations a cart lists exactly the items added and not removed since, in the order in
      which they came in, with nothing twice. */
  lemma {:induction false} CartListsWhatWasAdded(m: Data, ops: seq<UserAction>, n: nat, u: int)
    requires NoCarts(m) && n <= |ops|
    ensures IsSelection(Items(Run(m, ops[..n]), u), n, Enters(ops, n, u), ItemOf(ops))
  {
    if n == 0 {
      assert ops[..0] == [];
      NothingSelected(0, Enters(ops, 0, u), ItemOf(ops));
    } else {
      CartListsWhatWasAdded(m, ops, n - 1, u);
      RunPrefix(m, ops, n - 1);
      CartListStep(Run(m, ops[..n - 1]), ops, n - 1, u, m);
    }
  }

  lemma CartListStep(before: Data, ops: seq<UserAction>, n: nat, u: int, m: Data)
    requires NoCarts(m) && n < |ops| && before == Run(m, ops[..n])
    requires IsSelection(Items(before, u), n, Enters(ops, n, u), ItemOf(ops))
    ensures IsSelection(Items(Apply(before, ops[n].user, ops[n].action), u), n + 1, Enters(ops, n + 1, u), ItemOf(ops))
  {
    var p, p', f, x := Enters(ops, n, u), Enters(ops, n + 1, u), ItemOf(ops), ops[n].action.item;
    forall j: nat | j < n ensures p'(j) <==> p(j) && !Removes(ops, n, u, f(j)) {
      EntersStep(ops, n, u, j);
    }
    ItemsAfter(before, ops[n].user, ops[n].action, u);
    if Removes(ops, n, u, x) {
      SelectionShrinks(Items(before, u), n, p, f, x, p', f);
      SelectionGrows(Without(Items(before, u), x), n, p', f, p', f);
    } else {
      ListedIffAdded(m, ops, n, u, x);
      assert !RemovedBetween(ops, n, n + 1, u, x);
      SelectionGrows(Items(before, u), n, p, f, p', f);
    }
  }

  /** The quantity the first `n` operations leave, for all quantities, positive or not. */
  ghost function Ordered(ops: seq<UserAction>, n: nat, u: int, i: int): int
    requires n <= |ops|
  {
    if n == 0 then 0 else
      var before, action := Ordered(ops, n - 1, u, i), ops[n - 1].action;
      if ops[n - 1].user != u || action.item != i then before
      else if action.AddItem? then before + action.quantity
      else if action.ChangeQuantity? then (if before != 0 then action.quantity else 0)
      else if IsAdded(ops, n - 1, u, i) then 0 else before
  }

  lemma {:induction false} QuantityIsWhatWasOrdered(m: Data, ops: seq<UserAction>, n: nat, u: int, i: int)
    requires NoCarts(m) && n <= |ops|
    ensures Amounts(Run(m, ops[..n]), u, i) == Ordered(ops, n, u, i)
  {
    if n == 0 {
      assert ops[..0] == [];
    } else {
      QuantityIsWhatWasOrdered(m, ops, n - 1, u, i);
      RunPrefix(m, ops, n - 1);
      AmountsAfter(Run(m, ops[..n - 1]), ops[n - 1].user, ops[n - 1].action, u, i);
      ListedIffAdded(m, ops, n - 1, u, i);
    }
  }
}
