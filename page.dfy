/** Orders as the `orders` collection stores them, and the active-orders view. */
module Orders {
  import opened Sequences
  import opened Selection

  datatype Option<T> = None | Some(value: T)

  /** One document of the `orders` collection, stored under its own `id`. */
  datatype Order = Order(
    id: int,
    waiter: string,
    table: string,
    items: SelectionMap,
    paymentMethod: string,
    orderedAt: string,
    total: int,
    isActive: bool,
    notes: string)

  predicate Active(o: Order)
  {
    o.isActive
  }

  /** The orders mirror: every document of a snapshot that is still active, in snapshot order. */
  function ActiveOrders(docs: seq<Order>): (r: seq<Order>)
    ensures |r| <= |docs|
    ensures forall o :: o in r ==> o in docs && o.isActive
  {
    Keep(docs, Active)
  }

  /** The active view holds exactly the active documents of the snapshot, in snapshot order. */
  lemma ActiveOrdersSpec(docs: seq<Order>)
    ensures forall o :: o in ActiveOrders(docs) <==> o in docs && o.isActive
    ensures forall o :: multiset(ActiveOrders(docs))[o] == if o.isActive then multiset(docs)[o] else 0
    ensures IsSubsequence(ActiveOrders(docs), docs)
  {
    KeepCount(docs, Active);
    KeepIsSubsequence(docs, Active);
    forall o | o in docs && o.isActive ensures o in ActiveOrders(docs) {
      assert multiset(docs)[o] > 0;
    }
  }

  /** The ids in use are exactly 1 .. number of documents, each document under its own id.
      Sequential submission by count + 1 keeps the store this way. */
  predicate Dense(store: map<int, Order>)
  {
    && (forall k :: k in store ==> 1 <= k <= |store|)
    && (forall k :: 1 <= k <= |store| ==> k in store)
    && (forall k :: k in store ==> store[k].id == k)
  }

  /** While the ids are exactly 1 .. n, the id n + 1 is unused, and storing an order under
      it keeps the ids 1 .. n + 1. */
  lemma NextIdFresh(store: map<int, Order>, o: Order)
    requires Dense(store) && o.id == |store| + 1
    ensures |store| + 1 !in store
    ensures Dense(store[|store| + 1 := o])
  {
    var n := |store| + 1;
    assert n !in store;
    var s' := store[n := o];
    assert |s'| == n;
    forall k | 1 <= k <= |s'| ensures k in s' {
      if k < n {
        assert k in store;
      }
    }
  }

  /** When another writer deletes an order other than the last from ids 1 .. n, the count
      of the remaining orders plus one is n, the id of an order still stored, so writing
      the new order under it replaces that order. */
  lemma DeletionMakesNextIdTaken(store: map<int, Order>, k: int)
    requires Dense(store) && 1 <= k < |store|
    ensures var rest := store - {k};
            |rest| + 1 == |store| && |rest| + 1 in rest
  {
    var rest := store - {k};
    assert rest.Keys == store.Keys - {k};
    assert k in store.Keys;
    assert |rest.Keys| == |store.Keys| - 1;
    assert |store| in store;
  }

  /** The ids of the orders in `store` that are still active. */
  function ActiveIds(store: map<int, Order>): set<int>
  {
    set k | k in store && store[k].isActive
  }

  /** A snapshot drawn from a store in which order `id` is paid no longer lists that order
      among the active ones. */
  lemma PaidOrderNotListed(docs: seq<Order>, store: map<int, Order>, id: int)
    requires forall o :: o in docs ==> o.id in store && store[o.id] == o
    requires id in store && !store[id].isActive
    ensures forall o :: o in ActiveOrders(docs) ==> o.id != id
  {
  }
}

/** The order-taking page: its state and the handlers that change it. */
module Page {
  import opened Menu
  import opened Selection
  import opened Orders

  /** What a press of "Tomar pedido" led to. */
  datatype SubmitOutcome = Rejected | Placed(id: int) | WriteFailed

  /** The `Home` component's state together with the `orders` collection it writes to. */
  class Home {
    var catalog: seq<MenuItem>
    var selected: SelectionMap
    var total: int
    var notes: string
    var searchQuery: string
    var store: map<int, Order>
    var currentOrder: Option<Order>

    /** The selection never holds a zero count, and the displayed total is the catalog
        total of the selection. */
    ghost predicate Valid()
      reads this
    {
      WellFormed(selected) && total == Total(catalog, selected)
    }

    /** The page as it first renders, over the given catalog and order collection. */
    constructor (items: seq<MenuItem>, orders: map<int, Order>)
      ensures Valid()
      ensures catalog == items && store == orders
      ensures selected == map[] && total == 0 && notes == "" && searchQuery == "" && currentOrder == None
    {
      catalog := items;
      selected := map[];
      total := 0;
      notes := "";
      searchQuery := "";
      store := orders;
      currentOrder := None;
    }

    /** `filteredItems` for the current search text. */
    function FilteredItems(): (r: seq<MenuItem>)
      reads this
      ensures forall x :: x in r ==> x in catalog && Matches(x, searchQuery)
    {
      Filter(catalog, searchQuery)
    }

    /** `handleItemSelectionChange`: replaces the selection by its adjusted copy and
        recomputes the total over the whole catalog, not only the filtered items. */
    method ChangeSelection(itemName: string, isIncrement: bool)
      requires Valid()
      modifies this
      ensures Valid()
      ensures selected == if isIncrement then Incremented(old(selected), itemName)
                          else Decremented(old(selected), itemName)
      ensures total == Total(catalog, selected)
      ensures total == if isIncrement then old(total) + PriceOf(catalog, itemName)
                       else if itemName in old(selected) then old(total) - PriceOf(catalog, itemName)
                       else old(total)
      ensures catalog == old(catalog) && notes == old(notes) && searchQuery == old(searchQuery)
      ensures store == old(store) && currentOrder == old(currentOrder)
    {
      var next := Adjust(selected, itemName, isIncrement);
      if isIncrement {
        TotalAfterIncrement(catalog, selected, itemName);
      } else {
        TotalAfterDecrement(catalog, selected, itemName);
      }
      selected := next;
      total := Total(catalog, next);
    }

    /** The search box's change handler. */
    method EditSearch(text: string)
      requires Valid()
      modifies this
      ensures Valid()
      ensures searchQuery == text
      ensures catalog == old(catalog) && selected == old(selected) && total == old(total)
      ensures notes == old(notes) && store == old(store) && currentOrder == old(currentOrder)
    {
      searchQuery := text;
    }

    /** The notes box's change handler. */
    method EditNotes(text: string)
      requires Valid()
      modifies this
      ensures Valid()
      ensures notes == text
      ensures catalog == old(catalog) && selected == old(selected) && total == old(total)
      ensures searchQuery == old(searchQuery) && store == old(store) && currentOrder == old(currentOrder)
    {
      notes := text;
    }

    /** `handleSubmit`. The form's waiter, table and payment method, the formatted clock
        reading and whether the store accepts the write are parameters. The new id is the
        number of stored orders plus one; the form is refused when a field is empty or the
        total is zero; the pending state is cleared only after a successful write. */
    method Submit(waiter: string, table: string, paymentMethod: string, orderedAt: string, writeSucceeds: bool)
      returns (outcome: SubmitOutcome)
      requires Valid()
      modifies this
      ensures Valid()
      ensures outcome == Rejected <==>
                waiter == "" || table == "" || paymentMethod == "" || orderedAt == "" || old(total) == 0
      ensures outcome.Placed? <==> outcome != Rejected && writeSucceeds
      ensures outcome.Placed? ==>
                && outcome.id == |old(store)| + 1
                && (Dense(old(store)) ==> outcome.id !in old(store) && Dense(store))
                && old(selected) != map[]
                && store == old(store)[outcome.id := Order(outcome.id, waiter, table, old(selected),
                                                            paymentMethod, orderedAt, old(total), true, old(notes))]
                && selected == map[] && total == 0 && notes == ""
      ensures outcome.Placed? ==> ActiveIds(store) == ActiveIds(old(store)) + {outcome.id}
      ensures !outcome.Placed? ==>
                store == old(store) && selected == old(selected) && total == old(total) && notes == old(notes)
      ensures catalog == old(catalog) && searchQuery == old(searchQuery) && currentOrder == old(currentOrder)
    {
      var newOrderId := |store| + 1;
      var order := Order(newOrderId, waiter, table, selected, paymentMethod, orderedAt, total, true, notes);
      if order.waiter == "" || order.table == "" || order.paymentMethod == "" || order.total == 0
         || order.orderedAt == "" {
        return Rejected;
      }
      if !writeSucceeds {
        return WriteFailed;
      }
      PositiveTotal(catalog, selected);
      if Dense(store) {
        NextIdFresh(store, order);
      }
      store := store[newOrderId := order];
      selected := map[];
      total := 0;
      notes := "";
      outcome := Placed(newOrderId);
    }

    /** The "Marcar como pagado" button of an active order's card. */
    method ChooseOrder(order: Order)
      requires Valid()
      modifies this
      ensures Valid()
      ensures currentOrder == Some(order)
      ensures catalog == old(catalog) && selected == old(selected) && total == old(total)
      ensures notes == old(notes) && searchQuery == old(searchQuery) && store == old(store)
    {
      currentOrder := Some(order);
    }

    /** `handleMarkOrderInactive`: with an order chosen, sets that document's `isActive` to
        false and then forgets the choice. The update fails when the document does not exist
        or the store refuses it; the failure escapes the handler before the choice is
        forgotten, so nothing changes. */
    method MarkPaid(writeSucceeds: bool) returns (paid: bool)
      requires Valid()
      modifies this
      ensures Valid()
      ensures paid <==> old(currentOrder).Some? && old(currentOrder).value.id in old(store) && writeSucceeds
      ensures paid ==>
                var id := old(currentOrder).value.id;
                && store == old(store)[id := old(store)[id].(isActive := false)]
                && ActiveIds(store) == ActiveIds(old(store)) - {id}
                && (Dense(old(store)) ==> Dense(store))
                && currentOrder == None
      ensures !paid ==> store == old(store) && currentOrder == old(currentOrder)
      ensures catalog == old(catalog) && selected == old(selected) && total == old(total)
      ensures notes == old(notes) && searchQuery == old(searchQuery)
    {
      if currentOrder.None? {
        return false;
      }
      var id := currentOrder.value.id;
      if id !in store || !writeSucceeds {
        return false;
      }
      store := store[id := store[id].(isActive := false)];
      currentOrder := None;
      paid := true;
    }
  }
}
