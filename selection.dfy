/** The pending order's selection: a map from dish name to how many of it were
    chosen, adjusted one step at a time, and the total it costs. */
module Selection {
  import opened Menu

  /** Dish name to count. Counts are JS numbers, so the model allows any integer and
      states separately which maps the page can actually reach. */
  type SelectionMap = map<string, int>

  /** `m[name] || 0`: the count of a dish, 0 when it is not selected. */
  function Count(m: SelectionMap, name: string): int
  {
    if name in m then m[name] else 0
  }

  /** Every selected dish has a count of at least one: zero counts are deleted, never stored. */
  predicate WellFormed(m: SelectionMap)
  {
    forall name :: name in m ==> m[name] >= 1
  }

  /** The map after pressing "+" on `name`. */
  function Incremented(m: SelectionMap, name: string): (r: SelectionMap)
    ensures name in r && Count(r, name) == Count(m, name) + 1
    ensures r - {name} == m - {name}
    ensures WellFormed(m) ==> WellFormed(r)
  {
    if Count(m, name) != 0 then m[name := m[name] + 1] else m[name := 1]
  }

  /** The map after pressing "-" on `name`. */
  function Decremented(m: SelectionMap, name: string): (r: SelectionMap)
    ensures Count(m, name) > 0 ==> Count(r, name) == Count(m, name) - 1 && (name in r <==> Count(m, name) > 1)
    ensures Count(m, name) <= 0 ==> r == m
    ensures r - {name} == m - {name}
    ensures WellFormed(m) ==> WellFormed(r)
  {
    if Count(m, name) > 0 then
      if m[name] - 1 == 0 then m - {name} else m[name := m[name] - 1]
    else m
  }

  /** The updater passed to `setSelectedItems`: copies the previous map, then, in the copy,
      adds one to the dish's count (or stores 1 when it has none), or takes one off a
      positive count and deletes the entry when it reaches 0. */
  method Adjust(prev: SelectionMap, itemName: string, isIncrement: bool) returns (next: SelectionMap)
    ensures next == if isIncrement then Incremented(prev, itemName) else Decremented(prev, itemName)
  {
    next := prev;
    if isIncrement {
      if Count(next, itemName) != 0 {
        next := next[itemName := next[itemName] + 1];
      } else {
        next := next[itemName := 1];
      }
    } else if Count(next, itemName) != 0 && next[itemName] > 0 {
      next := next[itemName := next[itemName] - 1];
      if next[itemName] == 0 {
        next := next - {itemName};
      }
    }
  }

  /** "-" undoes "+" on every map the page can reach. */
  lemma DecrementUndoesIncrement(m: SelectionMap, name: string)
    requires WellFormed(m)
    ensures Decremented(Incremented(m, name), name) == m
  {
  }

  /** "+" undoes "-" on a dish that is selected. */
  lemma IncrementUndoesDecrement(m: SelectionMap, name: string)
    requires WellFormed(m) && name in m
    ensures Incremented(Decremented(m, name), name) == m
  {
  }

  /** The `reduce` that computes the total: for every catalog entry, its count in the
      selection times its price. Names selected but absent from the catalog add nothing;
      a name listed twice in the catalog is paid twice. */
  function Total(catalog: seq<MenuItem>, m: SelectionMap): (r: int)
    ensures WellFormed(m) ==> r >= 0
    ensures m == map[] ==> r == 0
  {
    if catalog == [] then 0
    else Count(m, catalog[0].name) * catalog[0].price + Total(catalog[1..], m)
  }

  /** The sum of the prices of every catalog entry named `name`. */
  function PriceOf(catalog: seq<MenuItem>, name: string): nat
  {
    if catalog == [] then 0
    else (if catalog[0].name == name then catalog[0].price else 0) + PriceOf(catalog[1..], name)
  }

  /** Two selections that differ only on `name` cost the difference in its count times
      the price it has in the catalog. */
  lemma {:induction false} TotalDifference(catalog: seq<MenuItem>, m: SelectionMap, m': SelectionMap, name: string)
    requires forall k :: k != name ==> Count(m, k) == Count(m', k)
    ensures Total(catalog, m') == Total(catalog, m) + (Count(m', name) - Count(m, name)) * PriceOf(catalog, name)
  {
    if catalog != [] {
      var rest, head := catalog[1..], catalog[0];
      TotalDifference(rest, m, m', name);
      var c, c', d := Count(m, head.name), Count(m', head.name), Count(m', name) - Count(m, name);
      var p, q := head.price, PriceOf(rest, name);
      assert Total(catalog, m) == c * p + Total(rest, m);
      assert Total(catalog, m') == c' * p + Total(rest, m');
      if head.name == name {
        assert PriceOf(catalog, name) == p + q;
        assert c' == c + d;
        Distribute(d, p, q);
        Distribute(p, c, d);
      } else {
        assert PriceOf(catalog, name) == q;
        assert c' == c;
      }
    }
  }

  lemma Distribute(a: int, b: int, c: int)
    ensures a * (b + c) == a * b + a * c
    ensures (b + c) * a == b * a + c * a
  {
  }

  lemma SameElsewhere(m: SelectionMap, r: SelectionMap, name: string)
    requires r - {name} == m - {name}
    ensures forall k :: k != name ==> Count(r, k) == Count(m, k)
  {
    forall k | k != name ensures Count(r, k) == Count(m, k) {
      assert k in r <==> k in r - {name};
      assert k in m <==> k in m - {name};
      if k in r {
        assert r[k] == (r - {name})[k] == (m - {name})[k] == m[k];
      }
    }
  }

  /** "+" on `name` adds its catalog price to the total. */
  lemma {:induction false} TotalAfterIncrement(catalog: seq<MenuItem>, m: SelectionMap, name: string)
    ensures Total(catalog, Incremented(m, name)) == Total(catalog, m) + PriceOf(catalog, name)
  {
    var r := Incremented(m, name);
    SameElsewhere(m, r, name);
    TotalDifference(catalog, m, r, name);
  }

  /** "-" on a selected `name` takes its catalog price off the total; on an unselected one
      it changes nothing. */
  lemma {:induction false} TotalAfterDecrement(catalog: seq<MenuItem>, m: SelectionMap, name: string)
    ensures Total(catalog, Decremented(m, name)) ==
              if Count(m, name) > 0 then Total(catalog, m) - PriceOf(catalog, name) else Total(catalog, m)
  {
    var r := Decremented(m, name);
    if Count(m, name) > 0 {
      assert Count(r, name) == Count(m, name) - 1;
      SameElsewhere(m, r, name);
      TotalDifference(catalog, m, r, name);
    } else {
      assert r == m;
    }
  }

  /** A selected name that no catalog item carries does not affect the total. */
  lemma UnknownNameCostsNothing(catalog: seq<MenuItem>, m: SelectionMap, name: string, count: int)
    requires forall i :: 0 <= i < |catalog| ==> catalog[i].name != name
    ensures Total(catalog, m[name := count]) == Total(catalog, m)
  {
    PriceOfAbsent(catalog, name);
    TotalDifference(catalog, m, m[name := count], name);
  }

  lemma {:induction false} PriceOfAbsent(catalog: seq<MenuItem>, name: string)
    requires forall i :: 0 <= i < |catalog| ==> catalog[i].name != name
    ensures PriceOf(catalog, name) == 0
  {
    if catalog != [] {
      PriceOfAbsent(catalog[1..], name);
    }
  }

  /** The total of a catalog made of two parts is the sum of both parts' totals; in
      particular an entry listed twice is paid twice. */
  lemma {:induction false} TotalAppend(c1: seq<MenuItem>, c2: seq<MenuItem>, m: SelectionMap)
    ensures Total(c1 + c2, m) == Total(c1, m) + Total(c2, m)
  {
    if c1 == [] {
      assert c1 + c2 == c2;
    } else {
      TotalAppend(c1[1..], c2, m);
      assert (c1 + c2)[1..] == c1[1..] + c2;
    }
  }

  /** On a reachable selection the total is positive exactly when some selected dish has a
      catalog entry with a positive price. */
  lemma {:induction false} PositiveTotal(catalog: seq<MenuItem>, m: SelectionMap)
    requires WellFormed(m)
    ensures Total(catalog, m) > 0 <==>
              exists i :: 0 <= i < |catalog| && catalog[i].name in m && catalog[i].price > 0
  {
    if catalog != [] {
      PositiveTotal(catalog[1..], m);
      var head := Count(m, catalog[0].name) * catalog[0].price;
      assert head >= 0;
      assert head > 0 <==> catalog[0].name in m && catalog[0].price > 0;
      forall i | 1 <= i < |catalog| ensures catalog[i] == catalog[1..][i - 1] { }
      if exists i :: 1 <= i < |catalog| && catalog[i].name in m && catalog[i].price > 0 {
        var i :| 1 <= i < |catalog| && catalog[i].name in m && catalog[i].price > 0;
        assert catalog[1..][i - 1].name in m;
      }
    }
  }
}
