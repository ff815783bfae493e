/** Sorted key/value lists: what collecting a hash map, iterated in whatever order, into an ordered map
    gives. */
module SortedItems {
  type Items<V> = seq<(string, V)>

  /** The order of strings: by code point, shorter first. */
  predicate Less(a: string, b: string) {
    if b == "" then false
    else if a == "" then true
    else if a[0] == b[0] then Less(a[1..], b[1..])
    else a[0] < b[0]
  }

  /** `i` is the first difference; the smaller one ends there or is smaller there. */
  ghost predicate SmallerAt(a: string, b: string, i: int) {
    0 <= i <= |a| && i < |b| && a[..i] == b[..i] && (i == |a| || a[i] < b[i])
  }

  /** The order is that of dictionaries. */
  lemma {:induction false} LessIff(a: string, b: string)
    ensures Less(a, b) <==> exists i :: SmallerAt(a, b, i)
    decreases |a|
  {
    if a == "" {
      if b != "" {
        assert SmallerAt(a, b, 0);
      }
    } else if b != "" {
      if a[0] == b[0] {
        LessIff(a[1..], b[1..]);
        if i :| SmallerAt(a[1..], b[1..], i) {
          assert a[..i + 1] == [a[0]] + a[1..][..i] && b[..i + 1] == [b[0]] + b[1..][..i];
          assert SmallerAt(a, b, i + 1);
        }
        if i :| SmallerAt(a, b, i) {
          assert i > 0;
          assert a[1..][..i - 1] == a[..i][1..] && b[1..][..i - 1] == b[..i][1..];
          assert SmallerAt(a[1..], b[1..], i - 1);
        }
      } else {
        assert a[..0] == b[..0];
        assert SmallerAt(a, b, 0) <==> a[0] < b[0];
        assert forall i | 0 < i <= |a| && i < |b| :: a[..i][0] == a[0] && b[..i][0] == b[0];
      }
    }
  }

  lemma {:induction false} LessIsTotal(a: string, b: string)
    ensures a == b || Less(a, b) || Less(b, a)
    ensures !(Less(a, b) && Less(b, a)) && !Less(a, a)
    decreases |a|
  {
    if a != "" {
      LessIsTotal(a[1..], if b == "" then "" else b[1..]);
      if b != "" && a[0] == b[0] && a[1..] == b[1..] {
        assert a == [a[0]] + a[1..] && b == [b[0]] + b[1..];
      }
    }
  }

  lemma {:induction false} LessIsTransitive(a: string, b: string, c: string)
    requires Less(a, b) && Less(b, c)
    ensures Less(a, c)
    decreases |a|
  {
    if a != "" && a[0] == b[0] == c[0] {
      LessIsTransitive(a[1..], b[1..], c[1..]);
    }
  }

  ghost predicate Sorted<V>(items: Items<V>) {
    forall i, j | 0 <= i < j < |items| :: Less(items[i].0, items[j].0)
  }

  /** The list holds exactly the entries of the map. */
  ghost predicate SameEntries<V>(items: Items<V>, m: map<string, V>) {
    && (forall i | 0 <= i < |items| :: items[i].0 in m && m[items[i].0] == items[i].1)
    && (forall k | k in m :: exists i :: 0 <= i < |items| && items[i].0 == k)
  }

  /** An order in which a hash map may be iterated: each entry once. */
  ghost predicate Iterates<V>(items: Items<V>, m: map<string, V>) {
    SameEntries(items, m) && forall i, j | 0 <= i < j < |items| :: items[i].0 != items[j].0
  }

  /** The entries of a map in key order. */
  ghost predicate Lists<V>(items: Items<V>, m: map<string, V>) {
    Sorted(items) && SameEntries(items, m)
  }

  ghost predicate IsLeast(k: string, keys: set<string>) {
    k in keys && forall x | x in keys :: x == k || Less(k, x)
  }

  lemma {:induction false} LeastExists(keys: set<string>) returns (k: string)
    requires keys != {}
    ensures IsLeast(k, keys)
    decreases keys
  {
    var x :| x in keys;
    if keys == {x} {
      k := x;
    } else {
      assert keys - {x} != {};
      var y := LeastExists(keys - {x});
      LessIsTotal(x, y);
      if Less(x, y) {
        k := x;
        forall z | z in keys && z != x
          ensures Less(x, z)
        {
          if z != y {
            LessIsTransitive(x, y, z);
          }
        }
      } else {
        k := y;
      }
    }
  }

  lemma SomeLeast(keys: set<string>)
    requires keys != {}
    ensures exists k :: IsLeast(k, keys)
  {
    var k := LeastExists(keys);
  }

  ghost function Listing<V>(m: map<string, V>): Items<V>
    decreases |m.Keys|
  {
    if m.Keys == {} then []
    else
      SomeLeast(m.Keys);
      var k :| IsLeast(k, m.Keys);
      assert (m - {k}).Keys == m.Keys - {k};
      [(k, m[k])] + Listing(m - {k})
  }

  lemma ListingUnfolds<V>(m: map<string, V>) returns (k: string)
    requires m.Keys != {}
    ensures IsLeast(k, m.Keys) && Listing(m) == [(k, m[k])] + Listing(m - {k})
  {
    SomeLeast(m.Keys);
    k := Listing(m)[0].0;
  }

  lemma {:induction false} ListingLists<V>(m: map<string, V>)
    ensures Lists(Listing(m), m)
    decreases |m.Keys|
  {
    if m.Keys != {} {
      var k := ListingUnfolds(m);
      hide Listing, SameEntries, Sorted, Less;
      var rest := Listing(m - {k});
      assert (m - {k}).Keys == m.Keys - {k};
      ListingLists(m - {k});
      Prepend(rest, k, m[k], m - {k});
      assert (m - {k})[k := m[k]] == m;
      LeastIsAbove(rest, k, m);
      SortedPrepend(rest, k, m[k]);
    }
  }

  ghost predicate Above<V>(k: string, items: Items<V>) {
    forall i | 0 <= i < |items| :: Less(k, items[i].0)
  }

  lemma SortedPrepend<V>(items: Items<V>, k: string, v: V)
    requires Sorted(items) && Above(k, items)
    ensures Sorted([(k, v)] + items)
  {
    hide Less;
  }

  lemma LeastIsAbove<V>(rest: Items<V>, k: string, m: map<string, V>)
    requires IsLeast(k, m.Keys) && SameEntries(rest, m - {k})
    ensures Above(k, rest)
  {
    hide Less;
    forall i | 0 <= i < |rest|
      ensures Less(k, rest[i].0)
    {
      assert rest[i].0 in m - {k};
    }
  }

  lemma Prepend<V>(items: Items<V>, k: string, v: V, m: map<string, V>)
    requires SameEntries(items, m) && k !in m
    ensures SameEntries([(k, v)] + items, m[k := v])
  {
    var all, m' := [(k, v)] + items, m[k := v];
    forall x | x in m'
      ensures exists i :: 0 <= i < |all| && all[i].0 == x
    {
      if x == k {
        assert all[0].0 == k;
      } else {
        var i :| 0 <= i < |items| && items[i].0 == x;
        assert all[i + 1].0 == x;
      }
    }
  }

  /** There is only one such list. */
  lemma {:induction false} ListsIsUnique<V>(a: Items<V>, b: Items<V>, m: map<string, V>)
    requires Lists(a, m) && Lists(b, m)
    ensures a == b
    decreases |a|
  {
    if a != [] || b != [] {
      SameHead(a, b, m);
      TailLists(a, m);
      TailLists(b, m);
      ListsIsUnique(a[1..], b[1..], m - {a[0].0});
      assert a == [a[0]] + a[1..] && b == [b[0]] + b[1..];
    }
  }

  lemma SameHead<V>(a: Items<V>, b: Items<V>, m: map<string, V>)
    requires Lists(a, m) && Lists(b, m) && (a != [] || b != [])
    ensures a != [] && b != [] && a[0] == b[0]
  {
    var key := if a != [] then a[0].0 else b[0].0;
    assert key in m;
    assert a != [] && b != [];
    assert a[0].0 in m && b[0].0 in m;
    var i :| 0 <= i < |b| && b[i].0 == a[0].0;
    var j :| 0 <= j < |a| && a[j].0 == b[0].0;
    LessIsTotal(a[0].0, b[0].0);
  }

  lemma TailLists<V>(a: Items<V>, m: map<string, V>)
    requires Lists(a, m) && a != []
    ensures Lists(a[1..], m - {a[0].0})
  {
    var rest, m' := a[1..], m - {a[0].0};
    forall i | 0 <= i < |rest|
      ensures rest[i].0 in m' && m'[rest[i].0] == rest[i].1
    {
      assert rest[i] == a[i + 1] && Less(a[0].0, a[i + 1].0);
      LessIsTotal(a[0].0, a[i + 1].0);
    }
    forall k | k in m'
      ensures exists i :: 0 <= i < |rest| && rest[i].0 == k
    {
      var i :| 0 <= i < |a| && a[i].0 == k;
      assert rest[i - 1].0 == k;
    }
  }

  // ---- collecting into an ordered map ------------------------------------------------------------------------

  function Insert<V>(items: Items<V>, k: string, v: V): Items<V> {
    if items == [] then [(k, v)]
    else if items[0].0 == k then [(k, v)] + items[1..]
    else if Less(k, items[0].0) then [(k, v)] + items
    else [items[0]] + Insert(items[1..], k, v)
  }

  /** Inserts the entries one after another, in the order given. */
  function Collect<V>(items: Items<V>): Items<V> {
    if items == [] then [] else Insert(Collect(items[..|items| - 1]), items[|items| - 1].0, items[|items| - 1].1)
  }

  lemma {:induction false} InsertKeepsOrder<V>(items: Items<V>, k: string, v: V)
    requires Sorted(items)
    ensures Sorted(Insert(items, k, v))
    ensures forall low | Less(low, k) && Above(low, items) :: Above(low, Insert(items, k, v))
    decreases |items|
  {
    if items != [] {
      var head, rest := items[0], items[1..];
      LessIsTotal(k, head.0);
      assert Above(head.0, rest);
      if head.0 == k {
        assert Sorted([(k, v)] + rest);
      } else if Less(k, head.0) {
        forall i | 0 <= i < |items|
          ensures Less(k, items[i].0)
        {
          if i > 0 {
            LessIsTransitive(k, head.0, items[i].0);
          }
        }
        assert Sorted([(k, v)] + items);
      } else {
        InsertKeepsOrder(rest, k, v);
        assert Above(head.0, Insert(rest, k, v));
        assert Sorted([head] + Insert(rest, k, v));
        forall low | Less(low, k) && Above(low, items)
          ensures Above(low, Insert(items, k, v))
        {
          assert Above(low, rest);
        }
      }
    }
  }

  lemma {:induction false} InsertAdds<V>(items: Items<V>, k: string, v: V, m: map<string, V>)
    requires Lists(items, m)
    ensures SameEntries(Insert(items, k, v), m[k := v])
    decreases |items|
  {
    var all := Insert(items, k, v);
    if items == [] {
      Prepend(items, k, v, m);
      assert [(k, v)] + items == all;
    } else if items[0].0 == k {
      TailLists(items, m);
      Prepend(items[1..], k, v, m - {k});
      assert (m - {k})[k := v] == m[k := v];
    } else if Less(k, items[0].0) {
      forall i | 0 <= i < |items|
        ensures items[i].0 != k
      {
        LessIsTotal(k, items[0].0);
      }
      Prepend(items, k, v, m);
    } else {
      TailLists(items, m);
      var head, rest := items[0], items[1..];
      InsertAdds(rest, k, v, m - {head.0});
      Prepend(Insert(rest, k, v), head.0, head.1, (m - {head.0})[k := v]);
      assert (m - {head.0})[k := v][head.0 := head.1] == m[k := v];
    }
  }

  lemma IteratesFront<V>(items: Items<V>, m: map<string, V>)
    requires Iterates(items, m) && items != []
    ensures var last := items[|items| - 1];
            && Iterates(items[..|items| - 1], m - {last.0})
            && (m - {last.0})[last.0 := last.1] == m
  {
    var front, last := items[..|items| - 1], items[|items| - 1];
    forall k | k in m - {last.0}
      ensures exists i :: 0 <= i < |front| && front[i].0 == k
    {
      var i :| 0 <= i < |items| && items[i].0 == k;
      assert front[i].0 == k;
    }
    assert last.0 in m && m[last.0] == last.1;
    assert (m - {last.0})[last.0 := last.1] == m;
  }

  lemma {:induction false} CollectSorts<V>(items: Items<V>, m: map<string, V>)
    requires Iterates(items, m)
    ensures Lists(Collect(items), m)
    decreases |items|
  {
    if items == [] {
    } else {
      var front, last := items[..|items| - 1], items[|items| - 1];
      IteratesFront(items, m);
      CollectSorts(front, m - {last.0});
      InsertAdds(Collect(front), last.0, last.1, m - {last.0});
      InsertKeepsOrder(Collect(front), last.0, last.1);
    }
  }

  /** The order of iteration does not matter: collecting always gives the one sorted listing. */
  lemma CollectIsListing<V>(items: Items<V>, m: map<string, V>)
    requires Iterates(items, m)
    ensures Collect(items) == Listing(m)
  {
    hide Collect, Listing, Lists;
    CollectSorts(items, m);
    ListingLists(m);
    ListsIsUnique(Collect(items), Listing(m), m);
  }

  /** A map can be read off its listing. */
  lemma ListingIsInjective<V>(m: map<string, V>, m': map<string, V>)
    requires Listing(m) == Listing(m')
    ensures m == m'
  {
    hide Listing;
    ListingLists(m);
    ListingLists(m');
    var items := Listing(m);
    forall k
      ensures k in m <==> k in m'
      ensures k in m ==> m[k] == m'[k]
    {
      if k in m {
        var i :| 0 <= i < |items| && items[i].0 == k;
      }
      if k in m' {
        var i :| 0 <= i < |items| && items[i].0 == k;
      }
    }
  }
}
