/** The shopping cart object over a linearizable store. */
module ShoppingCarts {
  import opened Stores
  import opened KvStores
  import opened LinearizableStores
  import opened Lists
  import opened CartData

  datatype Item = Item(name: string, id: int, price: real)

  predicate IsKnown(m: Data, i: int) {
    ItemName(i) in m && ItemPrice(i) in m
  }

  ghost predicate AllKnown(m: Data, items: seq<int>) {
    forall n :: 0 <= n < |items| ==> IsKnown(m, items[n])
  }

  /** The entry is item `i` with its stored name and price and the cart's quantity of it. */
  ghost predicate Shows(m: Data, u: int, i: int, entry: (Item, int)) {
    && entry.0.id == i && entry.1 == Amounts(m, u, i)
    && ItemName(i) in m && m[ItemName(i)] == Text(entry.0.name)
    && ItemPrice(i) in m && m[ItemPrice(i)] == Price(entry.0.price)
  }

  /** One entry per item, in the same order. */
  ghost predicate ShowAll(m: Data, u: int, items: seq<int>, list: seq<(Item, int)>) {
    |list| == |items| && forall n :: 0 <= n < |list| ==> Shows(m, u, items[n], list[n])
  }

  lemma ShowOneMore(m: Data, u: int, items: seq<int>, n: nat, list: seq<(Item, int)>, entry: (Item, int))
    requires n < |items| && ShowAll(m, u, items[..n], list) && Shows(m, u, items[n], entry)
    ensures ShowAll(m, u, items[..n + 1], list + [entry])
  {}

  lemma ShownAreKnown(m: Data, u: int, items: seq<int>, list: seq<(Item, int)>)
    requires ShowAll(m, u, items, list)
    ensures AllKnown(m, items)
  {
    forall n | 0 <= n < |items| ensures IsKnown(m, items[n]) {
      assert Shows(m, u, items[n], list[n]);
    }
  }

  predicate HasEntry(list: seq<(Item, int)>, i: int, q: int) {
    exists n :: 0 <= n < |list| && list[n].0.id == i && list[n].1 == q
  }

  /** Such a list is exactly the cart: one entry per item, with its quantity. */
  lemma ListIsCart(m: Data, u: int, list: seq<(Item, int)>)
    requires IsCart(m, u) && ShowAll(m, u, Items(m, u), list)
    ensures forall i, q :: HasEntry(list, i, q) <==> i in CartOf(m, u) && CartOf(m, u)[i] == q
    ensures forall a, b :: 0 <= a < b < |list| ==> list[a].0.id != list[b].0.id
  {
    forall i, q ensures HasEntry(list, i, q) <==> i in CartOf(m, u) && CartOf(m, u)[i] == q {
      if i in CartOf(m, u) && CartOf(m, u)[i] == q {
        var n :| 0 <= n < |Items(m, u)| && Items(m, u)[n] == i;
        assert Shows(m, u, Items(m, u)[n], list[n]);
      }
    }
    forall a, b | 0 <= a < b < |list| ensures list[a].0.id != list[b].0.id {
      assert Shows(m, u, Items(m, u)[a], list[a]) && Shows(m, u, Items(m, u)[b], list[b]);
    }
  }

  method IsListed(items: seq<int>, i: int) returns (listed: bool)
    ensures listed <==> i in items
  {
    for n := 0 to |items|
      invariant i !in items[..n]
    {
      if items[n] == i {
        return true;
      }
    }
    assert items[..|items|] == items;
    return false;
  }

  class ShoppingCart {
    const userId: int
    const store: KvStore<Key, Record>

    ghost predicate Valid()
      reads store
    {
      Ready(store) && Typed(Now(store))
    }

    constructor (userId: int, store: KvStore<Key, Record>)
      requires Ready(store) && Typed(Now(store))
      ensures this.userId == userId && this.store == store && Valid()
    {
      this.userId, this.store := userId, store;
    }

    method GetQuantity(i: int, s: Session) returns (quantity: int)
      requires Valid()
      modifies store
      ensures LoggedBy(old(store.history), store.history, s)
      ensures Valid() && Now(store) == old(Now(store))
      ensures quantity == Amounts(Now(store), userId, i)
    {
      var got := Read(store, Quantity(userId, i), s);
      return if got.Some? then got.value.value else 0;
    }

    method SetQuantity(i: int, quantity: int, s: Session)
      requires Valid()
      modifies store
      ensures LoggedBy(old(store.history), store.history, s)
      ensures Valid() && Now(store) == SetAmount(old(Now(store)), userId, i, quantity)
    {
      Write(store, Quantity(userId, i), Amount(quantity), s);
    }

    method AppendItem(cart: Record, i: int, s: Session)
      requires Valid() && cart.CartRecord? && cart.count == |cart.items|
      modifies store
      ensures LoggedBy(old(store.history), store.history, s)
      ensures Ready(store) && Now(store) == old(Now(store))[Cart(userId) := CartRecord(cart.items + [i], |cart.items| + 1)]
    {
      Write(store, Cart(userId), CartRecord(cart.items + [i], cart.count + 1), s);
    }

    /** Puts the item into the list unless it is there. */
    method EnsureListed(i: int, s: Session)
      requires Valid()
      modifies store
      ensures LoggedBy(old(store.history), store.history, s)
      ensures Valid() && Now(store) == ListItem(old(Now(store)), userId, i)
    {
      ListItemKeepsTyped(Now(store), userId, i);
      var got := Read(store, Cart(userId), s);
      if got.None? {
        Write(store, Cart(userId), CartRecord([i], 1), s);
        assert [] + [i] == [i];
      } else {
        var listed := IsListed(got.value.items, i);
        if !listed {
          AppendItem(got.value, i, s);
        }
      }
    }

    method AddQuantity(i: int, quantity: int, s: Session)
      requires Valid()
      modifies store
      ensures LoggedBy(old(store.history), store.history, s)
      ensures Valid()
      ensures Now(store) == SetAmount(old(Now(store)), userId, i, Amounts(old(Now(store)), userId, i) + quantity)
    {
      var existing := GetQuantity(i, s);
      SetQuantity(i, existing + quantity, s);
    }

    method AddItem(i: int, quantity: int, s: Session)
      requires Valid()
      modifies store
      ensures LoggedBy(old(store.history), store.history, s)
      ensures Valid() && Now(store) == Apply(old(Now(store)), userId, Action.AddItem(i, quantity))
    {
      EnsureListed(i, s);
      AddQuantity(i, quantity, s);
      AddAfterListing(old(Now(store)), userId, i, quantity);
    }

    method ChangeQuantity(i: int, quantity: int, s: Session)
      requires Valid()
      modifies store
      ensures LoggedBy(old(store.history), store.history, s)
      ensures Valid() && Now(store) == Apply(old(Now(store)), userId, Action.ChangeQuantity(i, quantity))
    {
      var existing := GetQuantity(i, s);
      if existing != 0 {
        SetQuantity(i, quantity, s);
      }
    }

    /** The filtering loop of `remove_item`, which zeroes the quantity when it meets the item. */
    method FilterItems(items: seq<int>, i: int, s: Session) returns (rest: seq<int>)
      requires Valid()
      modifies store
      ensures LoggedBy(old(store.history), store.history, s)
      ensures Valid() && rest == Without(items, i) && IsRest(rest, items, i)
      ensures Now(store) == if i in items then SetAmount(old(Now(store)), userId, i, 0) else old(Now(store))
    {
      rest := [];
      for n := 0 to |items|
        invariant rest == Without(items[..n], i)
        invariant Valid()
        invariant LoggedBy(old(store.history), store.history, s)
        invariant Now(store) == if i in items[..n] then SetAmount(old(Now(store)), userId, i, 0) else old(Now(store))
      {
        assert items[..n + 1] == items[..n] + [items[n]] && items[..n + 1][..n] == items[..n];
        if items[n] != i {
          rest := rest + [items[n]];
        } else {
          SetQuantity(i, 0, s);
        }
      }
      assert items[..|items|] == items;
      WithoutIsRest(items, i);
    }

    method RemoveItem(i: int, s: Session)
      requires Valid()
      modifies store
      ensures LoggedBy(old(store.history), store.history, s)
      ensures Valid() && Now(store) == Apply(old(Now(store)), userId, Action.RemoveItem(i))
    {
      var got := Read(store, Cart(userId), s);
      if got.None? {
        return;
      }
      var rest := FilterItems(got.value.items, i, s);
      Write(store, Cart(userId), CartRecord(rest, |rest|), s);
    }

    /** The item's stored name and price. */
    method GetItem(i: int, s: Session) returns (r: Result<Item>)
      requires Valid()
      modifies store
      ensures LoggedBy(old(store.history), store.history, s)
      ensures Valid() && Now(store) == old(Now(store))
      ensures if IsKnown(Now(store), i)
              then r.Ok? && Shows(Now(store), userId, i, (r.value, Amounts(Now(store), userId, i)))
              else r == Err(KeyNotFound)
    {
      var name := Read(store, ItemName(i), s);
      if name.None? {
        return Err(KeyNotFound);
      }
      var price := Read(store, ItemPrice(i), s);
      if price.None? {
        return Err(KeyNotFound);
      }
      return Ok(Item(name.value.text, i, price.value.price));
    }

    method GetEntry(i: int, s: Session) returns (r: Result<(Item, int)>)
      requires Valid()
      modifies store
      ensures LoggedBy(old(store.history), store.history, s)
      ensures Valid() && Now(store) == old(Now(store))
      ensures if IsKnown(Now(store), i) then r.Ok? && Shows(Now(store), userId, i, r.value) else r == Err(KeyNotFound)
    {
      var quantity := GetQuantity(i, s);
      var item := GetItem(i, s);
      return if item.Ok? then Ok((item.value, quantity)) else Err(KeyNotFound);
    }

    /** The entries of the given items, up to the first one without name or price. */
    method GetEntries(items: seq<int>, s: Session) returns (r: Result<seq<(Item, int)>>)
      requires Valid()
      modifies store
      ensures LoggedBy(old(store.history), store.history, s)
      ensures Valid() && Now(store) == old(Now(store))
      ensures if r.Ok? then ShowAll(Now(store), userId, items, r.value)
              else r.error == KeyNotFound && !AllKnown(Now(store), items)
    {
      ghost var m := Now(store);
      var list: seq<(Item, int)> := [];
      for n := 0 to |items|
        invariant Valid() && Now(store) == m
        invariant LoggedBy(old(store.history), store.history, s)
        invariant ShowAll(m, userId, items[..n], list)
      {
        var entry := GetEntry(items[n], s);
        if entry.Err? {
          assert !IsKnown(m, items[n]);
          return Err(KeyNotFound);
        }
        ShowOneMore(m, userId, items, n, list, entry.value);
        list := list + [entry.value];
      }
      assert items[..|items|] == items;
      return Ok(list);
    }

    /** The listed items with their quantities, in list order; fails on an item without name or price. */
    method GetCartList(s: Session) returns (r: Result<seq<(Item, int)>>)
      requires Valid()
      modifies store
      ensures LoggedBy(old(store.history), store.history, s)
      ensures Valid() && Now(store) == old(Now(store))
      ensures r.Ok? <==> AllKnown(Now(store), Items(Now(store), userId))
      ensures r.Err? ==> r.error == KeyNotFound
      ensures r.Ok? ==> ShowAll(Now(store), userId, Items(Now(store), userId), r.value)
    {
      var got := Read(store, Cart(userId), s);
      if got.None? {
        return Ok([]);
      }
      r := GetEntries(got.value.items, s);
      if r.Ok? {
        ShownAreKnown(Now(store), userId, got.value.items, r.value);
      }
    }
  }
}
