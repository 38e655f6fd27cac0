/** The data of a shopping cart: a list of item ids under one key and a quantity under one key per item.
    Operations run as atomic transactions on a linearizable store. */
module CartData {
  import opened Lists

  datatype Key = Cart(user: int) | Quantity(user: int, item: int) | ItemName(item: int) | ItemPrice(item: int)

  datatype Record = CartRecord(items: seq<int>, count: int) | Amount(value: int) | Text(text: string) | Price(price: real)

  type Data = map<Key, Record>

  /** Every record has the type of its key, and a cart's `count` is the length of its list. */
  ghost predicate Typed(m: Data) {
    forall k :: k in m ==> HasType(k, m[k])
  }

  predicate HasType(k: Key, r: Record) {
    match k
    case Cart(_) => r.CartRecord? && r.count == |r.items|
    case Quantity(_, _) => r.Amount?
    case ItemName(_) => r.Text?
    case ItemPrice(_) => r.Price?
  }

  function Items(m: Data, u: int): seq<int> {
    if Cart(u) in m && m[Cart(u)].CartRecord? then m[Cart(u)].items else []
  }

  function Amounts(m: Data, u: int, i: int): int {
    if Quantity(u, i) in m && m[Quantity(u, i)].Amount? then m[Quantity(u, i)].value else 0
  }

  // ---------------------------------------------------------------- what each operation does to the data

  datatype Action = AddItem(item: int, quantity: int) | ChangeQuantity(item: int, quantity: int) | RemoveItem(item: int)

  function SetAmount(m: Data, u: int, i: int, quantity: int): Data {
    m[Quantity(u, i) := Amount(quantity)]
  }

  function ListItem(m: Data, u: int, i: int): Data {
    if i in Items(m, u) then m else m[Cart(u) := CartRecord(Items(m, u) + [i], |Items(m, u)| + 1)]
  }

  function Apply(m: Data, u: int, action: Action): Data {
    match action
    case AddItem(i, q) => SetAmount(ListItem(m, u, i), u, i, Amounts(m, u, i) + q)
    case ChangeQuantity(i, q) => if Amounts(m, u, i) != 0 then SetAmount(m, u, i, q) else m
    case RemoveItem(i) =>
      if Cart(u) !in m then m else
        var rest := Without(Items(m, u), i);
        var marked := if i in Items(m, u) then SetAmount(m, u, i, 0) else m;
        marked[Cart(u) := CartRecord(rest, |rest|)]
  }

  lemma ListItemKeepsTyped(m: Data, u: int, i: int)
    requires Typed(m)
    ensures Typed(ListItem(m, u, i))
  {}

  /** Listing an item first does not change the quantity that is then added to. */
  lemma AddAfterListing(m: Data, u: int, i: int, quantity: int)
    ensures var listed := ListItem(m, u, i);
            Apply(m, u, AddItem(i, quantity)) == SetAmount(listed, u, i, Amounts(listed, u, i) + quantity)
  {}

  // ---------------------------------------------------------------- the cart as a map

  /** No duplicates, and an item is listed exactly when its quantity is positive. */
  ghost predicate IsCart(m: Data, u: int) {
    && (forall a, b :: 0 <= a < b < |Items(m, u)| ==> Items(m, u)[a] != Items(m, u)[b])
    && (forall i :: Amounts(m, u, i) >= 0 && (i in Items(m, u) <==> Amounts(m, u, i) > 0))
  }

  /** Item to positive quantity. */
  ghost function CartOf(m: Data, u: int): map<int, int> {
    map i | i in Items(m, u) :: Amounts(m, u, i)
  }

  function Expected(cart: map<int, int>, action: Action): map<int, int> {
    match action
    case AddItem(i, q) => cart[i := q + if i in cart then cart[i] else 0]
    case ChangeQuantity(i, q) => if i in cart then cart[i := q] else cart
    case RemoveItem(i) => cart - {i}
  }

  /** The quantity an operation leaves under an item it lists is positive. */
  predicate LeavesPositive(m: Data, u: int, action: Action) {
    match action
    case AddItem(i, q) => Amounts(m, u, i) + q > 0
    case ChangeQuantity(i, q) => Amounts(m, u, i) != 0 ==> q > 0
    case RemoveItem(_) => true
  }

  lemma AddItemData(m: Data, u: int, i: int, q: int)
    ensures Items(Apply(m, u, AddItem(i, q)), u) == if i in Items(m, u) then Items(m, u) else Items(m, u) + [i]
    ensures forall j :: Amounts(Apply(m, u, AddItem(i, q)), u, j) ==
                        if j == i then Amounts(m, u, i) + q else Amounts(m, u, j)
  {}

  lemma AddItemSimulates(m: Data, u: int, i: int, q: int)
    requires IsCart(m, u) && Amounts(m, u, i) + q > 0
    ensures var m' := Apply(m, u, AddItem(i, q));
            IsCart(m', u) && CartOf(m', u) == Expected(CartOf(m, u), AddItem(i, q))
  {
    AddItemData(m, u, i, q);
  }

  lemma ChangeQuantitySimulates(m: Data, u: int, i: int, q: int)
    requires IsCart(m, u) && (Amounts(m, u, i) != 0 ==> q > 0)
    ensures var m' := Apply(m, u, ChangeQuantity(i, q));
            IsCart(m', u) && CartOf(m', u) == Expected(CartOf(m, u), ChangeQuantity(i, q))
  {
    var m' := Apply(m, u, ChangeQuantity(i, q));
    assert Items(m', u) == Items(m, u);
    assert forall j :: Amounts(m', u, j) == if j == i && Amounts(m, u, i) != 0 then q else Amounts(m, u, j);
  }

  lemma RemoveItemData(m: Data, u: int, i: int)
    requires Cart(u) in m
    ensures Items(Apply(m, u, RemoveItem(i)), u) == Without(Items(m, u), i)
    ensures forall j :: Amounts(Apply(m, u, RemoveItem(i)), u, j) ==
                        if j == i && i in Items(m, u) then 0 else Amounts(m, u, j)
  {}

  lemma RemoveItemKeepsCart(m: Data, u: int, i: int)
    requires IsCart(m, u)
    ensures IsCart(Apply(m, u, RemoveItem(i)), u)
    ensures forall j :: j in Items(Apply(m, u, RemoveItem(i)), u) <==> j in Items(m, u) && j != i
    ensures forall j :: j != i ==> Amounts(Apply(m, u, RemoveItem(i)), u, j) == Amounts(m, u, j)
  {
    WithoutKeepsOthers(Items(m, u), i);
    if Cart(u) in m {
      RemoveItemData(m, u, i);
    }
  }

  lemma RemoveItemSimulates(m: Data, u: int, i: int)
    requires IsCart(m, u)
    ensures var m' := Apply(m, u, RemoveItem(i));
            IsCart(m', u) && CartOf(m', u) == Expected(CartOf(m, u), RemoveItem(i))
  {
    RemoveItemKeepsCart(m, u, i);
  }

  lemma NonPositiveBreaks(m: Data, u: int, action: Action)
    requires IsCart(m, u) && !LeavesPositive(m, u, action)
    ensures !IsCart(Apply(m, u, action), u)
  {
    var m' := Apply(m, u, action);
    assert Amounts(m', u, action.item) <= 0 && action.item in Items(m', u);
  }

  /** An operation keeps a cart a cart exactly when it leaves no listed item without a positive
      quantity, and then it updates the map of quantities as expected. */
  lemma CartKeptIff(m: Data, u: int, action: Action)
    requires IsCart(m, u)
    ensures IsCart(Apply(m, u, action), u) <==> LeavesPositive(m, u, action)
    ensures LeavesPositive(m, u, action) ==> CartOf(Apply(m, u, action), u) == Expected(CartOf(m, u), action)
  {
    if !LeavesPositive(m, u, action) {
      NonPositiveBreaks(m, u, action);
    } else {
      match action {
        case AddItem(i, q) => AddItemSimulates(m, u, i, q);
        case ChangeQuantity(i, q) => ChangeQuantitySimulates(m, u, i, q);
        case RemoveItem(i) => RemoveItemSimulates(m, u, i);
      }
    }
  }

  /** One user's operations do not touch another user's cart. */
  lemma OtherCartsUntouched(m: Data, u: int, action: Action, v: int)
    requires v != u
    ensures Items(Apply(m, u, action), v) == Items(m, v)
    ensures forall i :: Amounts(Apply(m, u, action), v, i) == Amounts(m, v, i)
  {}

  // ---------------------------------------------------------------- whole runs, several users

  datatype UserAction = UserAction(user: int, action: Action)

  function Run(m: Data, ops: seq<UserAction>): Data {
    if ops == [] then m else
      Apply(Run(m, ops[..|ops| - 1]), ops[|ops| - 1].user, ops[|ops| - 1].action)
  }

  function ExpectedRun(ops: seq<UserAction>, u: int): map<int, int> {
    if ops == [] then map[] else
      var cart := ExpectedRun(ops[..|ops| - 1], u);
      if ops[|ops| - 1].user == u then Expected(cart, ops[|ops| - 1].action) else cart
  }

  predicate HasPositiveQuantity(action: Action) {
    action.RemoveItem? || action.quantity > 0
  }

  /** With positive quantities, the stored cart of every user is always the map its own operations
      would build, whatever other users do. */
  lemma {:induction false} RunsSimulateMaps(m: Data, ops: seq<UserAction>, u: int)
    requires forall k :: k in m ==> !k.Cart? && !k.Quantity?
    requires forall i :: 0 <= i < |ops| ==> HasPositiveQuantity(ops[i].action)
    ensures IsCart(Run(m, ops), u) && CartOf(Run(m, ops), u) == ExpectedRun(ops, u)
  {
    if ops != [] {
      var front, op := ops[..|ops| - 1], ops[|ops| - 1];
      RunsSimulateMaps(m, front, u);
      var before := Run(m, front);
      if op.user == u {
        assert Amounts(before, u, op.action.item) >= 0;
        CartKeptIff(before, u, op.action);
      } else {
        OtherCartsUntouched(before, op.user, op.action, u);
      }
    }
  }
}
