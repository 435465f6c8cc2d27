/** The menu catalog as the order page shows it: the case-insensitive search
    over dish names and the grouping of the search results by category. */
module Menu {
  import opened Sequences

  /** One document of the `items` collection. Prices are whole cents. */
  datatype MenuItem = MenuItem(name: string, price: nat, image: string, description: string, category: string)

  // ---------------------------------------------------------------------------
  // Search
  // ---------------------------------------------------------------------------

  /** Lower-casing of one character, restricted to ASCII letters. */
  function LowerChar(c: char): char
  {
    if 'A' <= c <= 'Z' then (c as int + 32) as char else c
  }

  /** `String.prototype.toLowerCase`, character by character. */
  function Lower(s: string): (r: string)
    ensures |r| == |s|
    ensures forall i :: 0 <= i < |s| ==> r[i] == LowerChar(s[i])
  {
    if s == [] then [] else [LowerChar(s[0])] + Lower(s[1..])
  }

  /** `needle` sits in `hay` starting at position `i`. */
  predicate OccursAt(hay: string, needle: string, i: int)
  {
    0 <= i && i + |needle| <= |hay| && hay[i..i + |needle|] == needle
  }

  /** `String.prototype.includes`: tries each starting position from the left. */
  function Includes(hay: string, needle: string): (r: bool)
    ensures needle == [] ==> r
    ensures r ==> |needle| <= |hay|
    decreases |hay|
  {
    if |needle| > |hay| then false
    else if hay[..|needle|] == needle then true
    else Includes(hay[1..], needle)
  }

  /** `Includes` holds exactly when the needle occurs at some position of the haystack. */
  lemma {:induction false} IncludesIffOccurs(hay: string, needle: string)
    ensures Includes(hay, needle) <==> exists i :: OccursAt(hay, needle, i)
  {
    if |needle| > |hay| {
      assert forall i :: !OccursAt(hay, needle, i);
    } else if hay[..|needle|] == needle {
      assert OccursAt(hay, needle, 0);
    } else {
      IncludesIffOccurs(hay[1..], needle);
      if Includes(hay[1..], needle) {
        var i :| OccursAt(hay[1..], needle, i);
        assert hay[1..][i..i + |needle|] == hay[i + 1..i + 1 + |needle|];
        assert OccursAt(hay, needle, i + 1);
      } else {
        forall i | OccursAt(hay, needle, i) ensures false {
          if i != 0 {
            assert hay[1..][i - 1..i - 1 + |needle|] == hay[i..i + |needle|];
            assert OccursAt(hay[1..], needle, i - 1);
          }
        }
      }
    }
  }

  /** The search test of the page: the dish name contains the query, ignoring case. */
  predicate Matches(item: MenuItem, query: string)
    ensures query == "" ==> Matches(item, query)
    ensures Matches(item, query) ==> |query| <= |item.name|
  {
    Includes(Lower(item.name), Lower(query))
  }

  function MatchesQuery(query: string): MenuItem -> bool
  {
    (item: MenuItem) => Matches(item, query)
  }

  /** `filteredItems`: the catalog items that match the search query. */
  function Filter(items: seq<MenuItem>, query: string): (r: seq<MenuItem>)
    ensures |r| <= |items|
    ensures forall x :: x in r ==> x in items && Matches(x, query)
  {
    Keep(items, MatchesQuery(query))
  }

  /** The filtered list is exactly the matching catalog items, each as often as in the
      catalog, in catalog order. */
  lemma FilterSpec(items: seq<MenuItem>, query: string)
    ensures forall x :: multiset(Filter(items, query))[x] ==
              if Matches(x, query) then multiset(items)[x] else 0
    ensures IsSubsequence(Filter(items, query), items)
  {
    KeepCount(items, MatchesQuery(query));
    KeepIsSubsequence(items, MatchesQuery(query));
  }

  /** An empty search keeps the whole catalog. */
  lemma FilterEmptyQuery(items: seq<MenuItem>)
    ensures Filter(items, "") == items
  {
    forall x | x in items ensures MatchesQuery("")(x) {
      assert Lower(x.name)[..0] == Lower("");
    }
    KeepAll(items, MatchesQuery(""));
  }

  lemma LowerIdempotent(s: string)
    ensures Lower(Lower(s)) == Lower(s)
  {
  }

  /** Lower-casing the query first does not change which items match. */
  lemma MatchesIgnoresQueryCase(item: MenuItem, query: string)
    ensures Matches(item, Lower(query)) == Matches(item, query)
  {
    LowerIdempotent(query);
  }

  // ---------------------------------------------------------------------------
  // Grouping by category
  // ---------------------------------------------------------------------------

  /** The distinct categories of `s` in the order they are first seen: the key order of
      the object that `itemsGroupedByCategory` builds. Defined as the left fold it is. */
  function Categories(s: seq<MenuItem>): (r: seq<string>)
    ensures |r| <= |s|
    ensures r == [] <==> s == []
    decreases |s|
  {
    if s == [] then []
    else
      var seen := Categories(s[..|s| - 1]);
      if s[|s| - 1].category in seen then seen else seen + [s[|s| - 1].category]
  }

  function InCategory(c: string): MenuItem -> bool
  {
    (item: MenuItem) => item.category == c
  }

  /** The bucket of category `c`: the items of that category, in their order in `s`. */
  function ItemsOf(s: seq<MenuItem>, c: string): seq<MenuItem>
  {
    Keep(s, InCategory(c))
  }

  /** A category is a group key exactly when some item has it, that is, exactly when
      its bucket is not empty. */
  lemma {:induction false} CategoriesAreNonEmptyBuckets(s: seq<MenuItem>)
    ensures forall c :: c in Categories(s) <==> ItemsOf(s, c) != []
    ensures forall c :: c in Categories(s) <==> exists x :: x in s && x.category == c
  {
    if s != [] {
      var t, x := s[..|s| - 1], s[|s| - 1];
      CategoriesAreNonEmptyBuckets(t);
      assert s == t + [x];
      forall c ensures ItemsOf(s, c) == ItemsOf(t, c) + ItemsOf([x], c) {
        KeepAppend(t, [x], InCategory(c));
      }
    }
    forall c ensures ItemsOf(s, c) == [] <==> forall x :: x in s ==> x.category != c {
      KeepEmpty(s, InCategory(c));
    }
  }

  /** Position of the first item of category `c` in `s`, or `|s|` when there is none. */
  function FirstIndex(s: seq<MenuItem>, c: string): (r: nat)
    ensures r <= |s|
    ensures r < |s| ==> s[r].category == c
    ensures forall q :: 0 <= q < r ==> s[q].category != c
  {
    if s == [] then 0
    else if s[0].category == c then 0
    else 1 + FirstIndex(s[1..], c)
  }

  /** No category is a key twice. */
  lemma {:induction false} CategoriesDistinct(s: seq<MenuItem>)
    ensures forall i, j :: 0 <= i < j < |Categories(s)| ==> Categories(s)[i] != Categories(s)[j]
  {
    if s != [] {
      CategoriesDistinct(s[..|s| - 1]);
    }
  }

  /** Keys appear in the order in which their category is first seen in `s`. */
  lemma {:induction false} CategoriesInFirstSeenOrder(s: seq<MenuItem>)
    ensures forall i :: 0 <= i < |Categories(s)| ==> FirstIndex(s, Categories(s)[i]) < |s|
    ensures forall i, j :: 0 <= i < j < |Categories(s)| ==>
              FirstIndex(s, Categories(s)[i]) < FirstIndex(s, Categories(s)[j])
  {
    if s != [] {
      var t, x := s[..|s| - 1], s[|s| - 1];
      CategoriesInFirstSeenOrder(t);
      CategoriesAreNonEmptyBuckets(t);
      assert s == t + [x];
      var ct := Categories(t);
      forall i | 0 <= i < |ct| ensures FirstIndex(s, ct[i]) == FirstIndex(t, ct[i]) {
        FirstIndexExtend(t, x, ct[i]);
      }
      if x.category !in ct {
        assert forall y :: y in t ==> y.category != x.category;
        FirstIndexExtend(t, x, x.category);
      }
    }
  }

  /** Appending an item does not move the first position of a category already present. */
  lemma FirstIndexExtend(t: seq<MenuItem>, x: MenuItem, c: string)
    ensures FirstIndex(t + [x], c) ==
              if FirstIndex(t, c) < |t| then FirstIndex(t, c)
              else if x.category == c then |t| else |t| + 1
  {
    var s := t + [x];
    var a, b := FirstIndex(t, c), FirstIndex(s, c);
    assert forall q :: 0 <= q < |t| ==> s[q] == t[q];
    if a < |t| {
      assert s[a].category == c;
      assert b == a;
    } else if b < |s| {
      assert s[b].category == c;
      assert b == |t| && s[b] == x;
    } else {
      assert s[|t|] == x;
    }
  }

  /** Each item sits in exactly one bucket, the one of its own category, as often as it
      occurs in `s`. */
  lemma ItemInItsOwnBucket(s: seq<MenuItem>)
    ensures forall c, x :: multiset(ItemsOf(s, c))[x] == if x.category == c then multiset(s)[x] else 0
  {
    forall c ensures forall x :: multiset(ItemsOf(s, c))[x] ==
                       if x.category == c then multiset(s)[x] else 0 {
      KeepCount(s, InCategory(c));
    }
  }

  /** Within a bucket the items keep their order in `s`. */
  lemma BucketKeepsOrder(s: seq<MenuItem>, c: string)
    ensures IsSubsequence(ItemsOf(s, c), s)
  {
    KeepIsSubsequence(s, InCategory(c));
  }

  /** The buckets of `keys`, concatenated in key order: what the page renders. */
  function Concat(s: seq<MenuItem>, keys: seq<string>): seq<MenuItem>
  {
    if keys == [] then [] else ItemsOf(s, keys[0]) + Concat(s, keys[1..])
  }

  lemma {:induction false} ConcatCount(s: seq<MenuItem>, keys: seq<string>)
    requires forall i, j :: 0 <= i < j < |keys| ==> keys[i] != keys[j]
    ensures forall x :: multiset(Concat(s, keys))[x] == if x.category in keys then multiset(s)[x] else 0
  {
    if keys != [] {
      ConcatCount(s, keys[1..]);
      KeepCount(s, InCategory(keys[0]));
      forall x ensures multiset(Concat(s, keys))[x] == if x.category in keys then multiset(s)[x] else 0 {
        assert Concat(s, keys) == ItemsOf(s, keys[0]) + Concat(s, keys[1..]);
        assert x.category in keys <==> x.category == keys[0] || x.category in keys[1..];
        if x.category == keys[0] {
          assert forall j :: 0 < j < |keys| ==> keys[j] != keys[0];
        }
      }
    }
  }

  /** The groups together hold exactly the items of `s`, each as often as in `s`. */
  lemma GroupsPartitionItems(s: seq<MenuItem>)
    ensures multiset(Concat(s, Categories(s))) == multiset(s)
  {
    CategoriesDistinct(s);
    CategoriesAreNonEmptyBuckets(s);
    ConcatCount(s, Categories(s));
    forall x ensures multiset(Concat(s, Categories(s)))[x] == multiset(s)[x] {
      if x in s {
        assert x.category in Categories(s);
      }
    }
  }

  /** The "no results" message shows exactly when no catalog item matches the query. */
  lemma NoGroupsIffNoMatch(items: seq<MenuItem>, query: string)
    ensures Categories(Filter(items, query)) == [] <==> forall x :: x in items ==> !Matches(x, query)
  {
    var f := Filter(items, query);
    KeepEmpty(items, MatchesQuery(query));
    if f != [] {
      CategoriesAreNonEmptyBuckets(f);
      assert f[0] in f;
    }
  }

  /** The accumulator of `itemsGroupedByCategory`: a JS object, that is, buckets keyed by
      category together with the order in which the keys were inserted. */
  datatype Grouping = Grouping(keys: seq<string>, buckets: map<string, seq<MenuItem>>)

  /** `itemsGroupedByCategory`: a `reduce` over the items that creates an empty bucket for
      a category not seen before and pushes the item onto its category's bucket. */
  method GroupByCategory(items: seq<MenuItem>) returns (g: Grouping)
    ensures g.keys == Categories(items)
    ensures g.buckets.Keys == set c | c in Categories(items)
    ensures forall c :: c in g.buckets ==> g.buckets[c] == ItemsOf(items, c)
  {
    var keys: seq<string> := [];
    var buckets: map<string, seq<MenuItem>> := map[];
    for i := 0 to |items|
      invariant keys == Categories(items[..i])
      invariant forall c :: c in buckets <==> c in keys
      invariant forall c :: c in buckets ==> buckets[c] == ItemsOf(items[..i], c)
    {
      var item := items[i];
      var category := item.category;
      GroupStep(items, i);
      if category !in buckets {
        buckets := buckets[category := []];
        keys := keys + [category];
      }
      buckets := buckets[category := buckets[category] + [item]];
    }
    assert items[..|items|] == items;
    assert buckets.Keys == set c | c in keys;
    g := Grouping(keys, buckets);
  }

  /** What one more item, the `i`-th, does to the keys and the buckets. */
  lemma GroupStep(items: seq<MenuItem>, i: nat)
    requires i < |items|
    ensures Categories(items[..i + 1]) ==
              if items[i].category in Categories(items[..i]) then Categories(items[..i])
              else Categories(items[..i]) + [items[i].category]
    ensures forall c :: ItemsOf(items[..i + 1], c) ==
              if items[i].category == c then ItemsOf(items[..i], c) + [items[i]] else ItemsOf(items[..i], c)
    ensures items[i].category !in Categories(items[..i]) ==> ItemsOf(items[..i], items[i].category) == []
  {
    var t, x := items[..i], items[i];
    assert items[..i + 1] == t + [x];
    assert (t + [x])[..|t|] == t;
    forall c ensures ItemsOf(t + [x], c) == if x.category == c then ItemsOf(t, c) + [x] else ItemsOf(t, c) {
      KeepAppend(t, [x], InCategory(c));
    }
    CategoriesAreNonEmptyBuckets(t);
  }
}
