/**
  The LINQ pipeline `xs.GroupBy(key).OrderBy(g => g.Key)` over integer keys, which the
  controller applies twice (by month, then by week of month). `GroupBy` keeps each group's
  items in input order; ordering the groups by their distinct keys makes the key sequence
  strictly ascending. The model builds the ordered grouping directly, placing each input
  item, in turn, into the group list kept sorted by key.
 */
module Linq {

  /** `IGrouping<int, T>`: a key and the items that share it. */
  datatype Grouping<T> = Grouping(key: int, items: seq<T>)

  predicate KeysStrictlyAscending<T>(gs: seq<Grouping<T>>)
  {
    forall i, j :: 0 <= i < j < |gs| ==> gs[i].key < gs[j].key
  }

  predicate NoEmptyGroup<T>(gs: seq<Grouping<T>>)
  {
    forall i :: 0 <= i < |gs| ==> gs[i].items != []
  }

  /** `xs.Where(x => key(x) == k)`: the items with key `k`, in input order. */
  function WithKey<T>(xs: seq<T>, key: T -> int, k: int): (r: seq<T>)
    ensures forall x :: x in r ==> x in xs && key(x) == k
    ensures r == [] <==> forall x :: x in xs ==> key(x) != k
    ensures |r| <= |xs|
    decreases |xs|
  {
    if xs == [] then []
    else
      var last := xs[|xs| - 1];
      WithKey(xs[..|xs| - 1], key, k) + (if key(last) == k then [last] else [])
  }

  /** The items of the group keyed `k`, or none when no group has that key. */
  function Lookup<T>(gs: seq<Grouping<T>>, k: int): (r: seq<T>)
    ensures (forall i :: 0 <= i < |gs| ==> gs[i].key != k) ==> r == []
  {
    if gs == [] then []
    else if gs[0].key == k then gs[0].items
    else Lookup(gs[1..], k)
  }

  /** Adds `x` to the end of the group keyed `k`, opening that group at its place in key order. */
  function Place<T>(gs: seq<Grouping<T>>, k: int, x: T): (r: seq<Grouping<T>>)
    requires KeysStrictlyAscending(gs)
    ensures KeysStrictlyAscending(r)
    ensures |r| > 0 && r[0].key == (if gs == [] || k < gs[0].key then k else gs[0].key)
    ensures NoEmptyGroup(gs) ==> NoEmptyGroup(r)
    ensures forall j :: Lookup(r, j) == Lookup(gs, j) + (if j == k then [x] else [])
  {
    if gs == [] || k < gs[0].key then
      [Grouping(k, [x])] + gs
    else if k == gs[0].key then
      [Grouping(k, gs[0].items + [x])] + gs[1..]
    else
      [gs[0]] + Place(gs[1..], k, x)
  }

  /**
    `xs.GroupBy(key).OrderBy(g => g.Key)`: group keys strictly ascending, no group empty, and
    the group keyed `k` holds exactly the items with key `k`, in their input order.
   */
  function GroupByOrdered<T>(xs: seq<T>, key: T -> int): (r: seq<Grouping<T>>)
    ensures KeysStrictlyAscending(r) && NoEmptyGroup(r)
    ensures r == [] <==> xs == []
    ensures forall k :: Lookup(r, k) == WithKey(xs, key, k)
    decreases |xs|
  {
    if xs == [] then []
    else
      var last := xs[|xs| - 1];
      Place(GroupByOrdered(xs[..|xs| - 1], key), key(last), last)
  }

  /** All items, group after group: `groups.SelectMany(g => g)`. */
  function Flatten<T>(gs: seq<Grouping<T>>): seq<T>
  {
    if gs == [] then [] else gs[0].items + Flatten(gs[1..])
  }

  /** In a key-sorted group list, looking a group's key up finds that group. */
  lemma {:induction false} LookupAt<T>(gs: seq<Grouping<T>>, i: int)
    requires KeysStrictlyAscending(gs) && 0 <= i < |gs|
    ensures Lookup(gs, gs[i].key) == gs[i].items
  {
    if i > 0 {
      assert gs[0].key < gs[i].key;
      LookupAt(gs[1..], i - 1);
    }
  }

  /**
    The ordered grouping stated group by group: each group holds the items with its key in
    input order, and a key has a group exactly when some item carries it.
   */
  lemma GroupByOrderedSpec<T>(xs: seq<T>, key: T -> int)
    ensures var r := GroupByOrdered(xs, key);
      && KeysStrictlyAscending(r)
      && (forall i :: 0 <= i < |r| ==> r[i].items == WithKey(xs, key, r[i].key) != [])
      && (forall i, x :: 0 <= i < |r| && x in r[i].items ==> x in xs && key(x) == r[i].key)
      && (forall x :: x in xs ==> exists i :: 0 <= i < |r| && r[i].key == key(x))
  {
    var r := GroupByOrdered(xs, key);
    forall i | 0 <= i < |r|
      ensures r[i].items == WithKey(xs, key, r[i].key)
    {
      LookupAt(r, i);
    }
    forall x | x in xs
      ensures exists i :: 0 <= i < |r| && r[i].key == key(x)
    {
      assert WithKey(xs, key, key(x)) != [];
      assert Lookup(r, key(x)) != [];
    }
  }

  /** Placing an item adds exactly that item to the flattened contents. */
  lemma {:induction false} PlaceAddsOne<T>(gs: seq<Grouping<T>>, k: int, x: T)
    requires KeysStrictlyAscending(gs)
    ensures multiset(Flatten(Place(gs, k, x))) == multiset(Flatten(gs)) + multiset{x}
  {
    if gs == [] || k < gs[0].key {
      assert ([Grouping(k, [x])] + gs)[1..] == gs;
    } else if k == gs[0].key {
      assert ([Grouping(k, gs[0].items + [x])] + gs[1..])[1..] == gs[1..];
    } else {
      PlaceAddsOne(gs[1..], k, x);
      assert ([gs[0]] + Place(gs[1..], k, x))[1..] == Place(gs[1..], k, x);
    }
  }

  /** Grouping is a partition: the groups together hold exactly the input items. */
  lemma {:induction false} GroupByOrderedPartitions<T>(xs: seq<T>, key: T -> int)
    ensures multiset(Flatten(GroupByOrdered(xs, key))) == multiset(xs)
    decreases |xs|
  {
    if xs != [] {
      var init, last := xs[..|xs| - 1], xs[|xs| - 1];
      GroupByOrderedPartitions(init, key);
      PlaceAddsOne(GroupByOrdered(init, key), key(last), last);
      assert xs == init + [last];
    }
  }

  /** `Where` distributes over concatenation. */
  lemma {:induction false} WithKeyAppend<T>(a: seq<T>, b: seq<T>, key: T -> int, k: int)
    ensures WithKey(a + b, key, k) == WithKey(a, key, k) + WithKey(b, key, k)
    decreases |b|
  {
    if b == [] {
      assert a + b == a;
    } else {
      var init, last := b[..|b| - 1], b[|b| - 1];
      var tail := if key(last) == k then [last] else [];
      WithKeyAppend(a, init, key, k);
      assert (a + b)[..|a + b| - 1] == a + init;
      assert (a + b)[|a + b| - 1] == last;
      assert WithKey(a + b, key, k) == WithKey(a + init, key, k) + tail;
      assert WithKey(b, key, k) == WithKey(init, key, k) + tail;
    }
  }

  /** Filtering items that all carry key `k` by `k` keeps them all. */
  lemma {:induction false} WithKeyAll<T>(xs: seq<T>, key: T -> int, k: int)
    requires forall x :: x in xs ==> key(x) == k
    ensures WithKey(xs, key, k) == xs
    decreases |xs|
  {
    if xs != [] {
      var init, last := xs[..|xs| - 1], xs[|xs| - 1];
      assert xs == init + [last];
      forall x | x in init
        ensures key(x) == k
      {
        assert x in xs;
      }
      WithKeyAll(init, key, k);
      assert key(last) == k;
    }
  }

  /** Every item of every group carries that group's key. */
  ghost predicate ItemsCarryKeys<T>(gs: seq<Grouping<T>>, key: T -> int)
  {
    forall i, x :: 0 <= i < |gs| && x in gs[i].items ==> key(x) == gs[i].key
  }

  /** Over groups whose items carry their group's key, filtering the flattened items by a key gives that key's group. */
  lemma {:induction false} WithKeyOfFlatten<T>(gs: seq<Grouping<T>>, key: T -> int, k: int)
    requires KeysStrictlyAscending(gs) && ItemsCarryKeys(gs, key)
    ensures WithKey(Flatten(gs), key, k) == Lookup(gs, k)
  {
    if gs != [] {
      var tail := gs[1..];
      assert forall i :: 0 <= i < |tail| ==> tail[i] == gs[i + 1];
      WithKeyOfFlatten(tail, key, k);
      WithKeyAppend(gs[0].items, Flatten(tail), key, k);
      if k == gs[0].key {
        WithKeyAll(gs[0].items, key, k);
        assert forall i :: 0 <= i < |tail| ==> tail[i].key != k;
      } else {
        assert forall x :: x in gs[0].items ==> key(x) != k;
      }
    }
  }

  /** Two key-sorted lists of non-empty groups that agree on every lookup are the same list. */
  lemma {:induction false} LookupDetermines<T>(a: seq<Grouping<T>>, b: seq<Grouping<T>>)
    requires KeysStrictlyAscending(a) && NoEmptyGroup(a)
    requires KeysStrictlyAscending(b) && NoEmptyGroup(b)
    requires forall k :: Lookup(a, k) == Lookup(b, k)
    ensures a == b
    decreases |a| + |b|
  {
    if a == [] || b == [] {
      if a != [] {
        LookupAt(a, 0);
        assert false;
      } else if b != [] {
        LookupAt(b, 0);
        assert false;
      }
    } else {
      var ka, kb := a[0].key, b[0].key;
      assert Lookup(a, ka) == a[0].items && Lookup(b, kb) == b[0].items;
      assert Lookup(b, ka) != [] && Lookup(a, kb) != [];
      assert kb <= ka && ka <= kb;
      var at, bt := a[1..], b[1..];
      forall k
        ensures Lookup(at, k) == Lookup(bt, k)
      {
        if k == ka {
          assert forall i :: 0 <= i < |at| ==> at[i].key != k;
          assert forall i :: 0 <= i < |bt| ==> bt[i].key != k;
        } else {
          assert Lookup(a, k) == Lookup(at, k) && Lookup(b, k) == Lookup(bt, k);
        }
      }
      LookupDetermines(at, bt);
      assert a == [a[0]] + at && b == [b[0]] + bt;
    }
  }

  /** Regrouping the flattened items of a key-sorted grouping gives the grouping back. */
  lemma RegroupFlatten<T>(gs: seq<Grouping<T>>, key: T -> int)
    requires KeysStrictlyAscending(gs) && NoEmptyGroup(gs) && ItemsCarryKeys(gs, key)
    ensures GroupByOrdered(Flatten(gs), key) == gs
  {
    var r := GroupByOrdered(Flatten(gs), key);
    forall k
      ensures Lookup(r, k) == Lookup(gs, k)
    {
      WithKeyOfFlatten(gs, key, k);
    }
    LookupDetermines(r, gs);
  }

  /** The groups of an ordered grouping carry their keys. */
  lemma GroupByOrderedCarriesKeys<T>(xs: seq<T>, key: T -> int)
    ensures ItemsCarryKeys(GroupByOrdered(xs, key), key)
  {
    var r := GroupByOrdered(xs, key);
    forall i, x | 0 <= i < |r| && x in r[i].items
      ensures key(x) == r[i].key
    {
      LookupAt(r, i);
    }
  }

  /** Grouping is idempotent: regrouping the flattened groups gives the same groups. */
  lemma RegroupGroupBy<T>(xs: seq<T>, key: T -> int)
    ensures var r := GroupByOrdered(xs, key);
      GroupByOrdered(Flatten(r), key) == r
  {
    GroupByOrderedCarriesKeys(xs, key);
    RegroupFlatten(GroupByOrdered(xs, key), key);
  }
}
