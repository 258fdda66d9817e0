/**
  The two listing views of the controller: `Index` keeps the todos due in the current month
  or later, `PastTodos` the todos due in the month before the current one. Both take the
  rows of the `Todos` table, keep the matching ones, order them by due date and hand them to
  the grouping engine. "Now" is a parameter.
 */
module Listings {
  import opened Wrappers
  import opened Calendar
  import opened Linq
  import opened Models
  import opened TodoGrouping

  /**
    `Index`'s filter: a due date whose (year, month) is not before now's. The comparison is
    lexicographic on (year, month), so the day of the month plays no part.
   */
  predicate IsCurrentOrUpcoming(t: Todo, now: DateTime): (b: bool)
    ensures b <==> t.dueDate.Some? && MonthIndex(t.dueDate.value.year, t.dueDate.value.month) >= MonthIndex(now.year, now.month)
  {
    if t.dueDate.Some? then
      MonthIndexOrder(t.dueDate.value.year, t.dueDate.value.month, now.year, now.month);
      || t.dueDate.value.year > now.year
      || (t.dueDate.value.year == now.year && t.dueDate.value.month >= now.month)
    else
      false
  }

  /** `PastTodos`'s filter: due in the same year and month as `previousMonthDate`. */
  predicate IsDueInMonthOf(t: Todo, previousMonthDate: DateTime): (b: bool)
    ensures b <==> t.dueDate.Some? && MonthIndex(t.dueDate.value.year, t.dueDate.value.month) == MonthIndex(previousMonthDate.year, previousMonthDate.month)
  {
    if t.dueDate.Some? then
      MonthIndexOrder(t.dueDate.value.year, t.dueDate.value.month, previousMonthDate.year, previousMonthDate.month);
      MonthIndexOrder(previousMonthDate.year, previousMonthDate.month, t.dueDate.value.year, t.dueDate.value.month);
      && t.dueDate.value.year == previousMonthDate.year
      && t.dueDate.value.month == previousMonthDate.month
    else
      false
  }

  /**
    With `previousMonthDate = now.AddMonths(-1)` the filter keeps exactly the todos due in the
    calendar month just before now's; in January that is December of the previous year.
   */
  lemma PastFilterIsPreviousMonth(t: Todo, now: DateTime)
    requires AddMonths(now, -1).Some?
    ensures IsDueInMonthOf(t, AddMonths(now, -1).value)
        <==> t.dueDate.Some? && MonthIndex(t.dueDate.value.year, t.dueDate.value.month) == MonthIndex(now.year, now.month) - 1
    ensures IsDueInMonthOf(t, AddMonths(now, -1).value)
        <==> && t.dueDate.Some?
             && (if now.month == 1 then t.dueDate.value.year == now.year - 1 && t.dueDate.value.month == 12
                 else t.dueDate.value.year == now.year && t.dueDate.value.month == now.month - 1)
  {
    var p := AddMonths(now, -1).value;
    PreviousMonth(now);
    if t.dueDate.Some? {
      MonthIndexOrder(t.dueDate.value.year, t.dueDate.value.month, p.year, p.month);
    }
  }

  /**
    `rows.Where(t => IsCurrentOrUpcoming(t, now))`: every row that passes, as often as it
    occurs, and nothing else.
   */
  function WhereCurrentOrUpcoming(rows: seq<Todo>, now: DateTime): (r: seq<DatedTodo>)
    ensures forall t :: t in r <==> t in rows && IsCurrentOrUpcoming(t, now)
    ensures forall t: DatedTodo :: multiset(r)[t] == if IsCurrentOrUpcoming(t, now) then multiset(rows)[t] else 0
  {
    if rows == [] then []
    else
      var rest := WhereCurrentOrUpcoming(rows[1..], now);
      assert rows == [rows[0]] + rows[1..];
      if IsCurrentOrUpcoming(rows[0], now) then [rows[0]] + rest else rest
  }

  /**
    `rows.Where(t => IsDueInMonthOf(t, previousMonthDate))`: every row that passes, as often
    as it occurs, and nothing else.
   */
  function WhereDueInMonthOf(rows: seq<Todo>, previousMonthDate: DateTime): (r: seq<DatedTodo>)
    ensures forall t :: t in r <==> t in rows && IsDueInMonthOf(t, previousMonthDate)
    ensures forall t: DatedTodo :: multiset(r)[t] == if IsDueInMonthOf(t, previousMonthDate) then multiset(rows)[t] else 0
  {
    if rows == [] then []
    else
      var rest := WhereDueInMonthOf(rows[1..], previousMonthDate);
      assert rows == [rows[0]] + rows[1..];
      if IsDueInMonthOf(rows[0], previousMonthDate) then [rows[0]] + rest else rest
  }

  /** Inserts `x` before the first element that is not due earlier, keeping the order by due date. */
  function InsertByDue(x: DatedTodo, xs: seq<DatedTodo>): (r: seq<DatedTodo>)
    requires SortedByDue(xs)
    ensures SortedByDue(r)
    ensures multiset(r) == multiset(xs) + multiset{x}
  {
    if xs == [] || NotAfter(Due(x), Due(xs[0])) then
      [x] + xs
    else
      var rest := InsertByDue(x, xs[1..]);
      assert xs == [xs[0]] + xs[1..];
      FirstIsEarliest(xs[0], xs[1..], x, rest);
      [xs[0]] + rest
  }

  lemma FirstIsEarliest(first: DatedTodo, tail: seq<DatedTodo>, x: DatedTodo, rest: seq<DatedTodo>)
    requires SortedByDue([first] + tail) && SortedByDue(rest)
    requires Before(Due(first), Due(x))
    requires multiset(rest) == multiset(tail) + multiset{x}
    ensures SortedByDue([first] + rest)
  {
    forall t | t in rest
      ensures NotAfter(Due(first), Due(t))
    {
      assert t in multiset(rest);
      if t == x {
        assert NotAfter(Due(first), Due(x));
      } else {
        assert t in multiset(tail);
        var j :| 0 <= j < |tail| && tail[j] == t;
        var whole := [first] + tail;
        assert whole[0] == first && whole[j + 1] == t;
        assert NotAfter(Due(whole[0]), Due(whole[j + 1]));
      }
    }
    forall i, j | 0 <= i < j < |[first] + rest|
      ensures NotAfter(Due(([first] + rest)[i]), Due(([first] + rest)[j]))
    {
      if i == 0 {
        assert ([first] + rest)[j] == rest[j - 1];
        assert rest[j - 1] in rest;
      } else {
        assert ([first] + rest)[i] == rest[i - 1];
        assert ([first] + rest)[j] == rest[j - 1];
      }
    }
  }

  /** `OrderBy(t => t.DueDate)`: sorted by due date and a permutation of its input. */
  function OrderByDue(xs: seq<DatedTodo>): (r: seq<DatedTodo>)
    ensures SortedByDue(r)
    ensures multiset(r) == multiset(xs)
  {
    if xs == [] then []
    else
      assert xs == [xs[0]] + xs[1..];
      InsertByDue(xs[0], OrderByDue(xs[1..]))
  }

  /** A non-empty set of keys has a least element. */
  lemma {:induction false} MinimumExists(ids: set<int>)
    requires ids != {}
    ensures exists m :: m in ids && forall k :: k in ids ==> m <= k
    decreases |ids|
  {
    if forall y :: y !in ids {
      assert false;
    }
    var x :| x in ids;
    var rest := ids - {x};
    if rest == {} {
      assert ids == {x};
      assert x in ids && forall k :: k in ids ==> x <= k;
    } else {
      MinimumExists(rest);
      var r :| r in rest && forall k :: k in rest ==> r <= k;
      var m := if x < r then x else r;
      forall k | k in ids
        ensures m <= k
      {
        if k != x {
          assert k in rest;
        }
      }
      assert m in ids && forall k :: k in ids ==> m <= k;
    }
  }

  /** The keys of the table in ascending order: the order in which the rows are read. */
  function AscendingIds(ids: set<int>): (r: seq<int>)
    ensures |r| == |ids|
    ensures forall k :: k in r <==> k in ids
    ensures forall i, j :: 0 <= i < j < |r| ==> r[i] < r[j]
    decreases |ids|
  {
    if ids == {} then []
    else
      var m := MinimumOf(ids);
      var rest := AscendingIds(ids - {m});
      PrependMinimum(ids, m, rest);
      [m] + rest
  }

  /** The least key followed by the other keys in ascending order is all keys in ascending order. */
  lemma PrependMinimum(ids: set<int>, m: int, rest: seq<int>)
    requires m in ids && forall k :: k in ids ==> m <= k
    requires |rest| == |ids - {m}| && forall k :: k in rest <==> k in ids - {m}
    requires forall i, j :: 0 <= i < j < |rest| ==> rest[i] < rest[j]
    ensures var r := [m] + rest;
      && |r| == |ids|
      && (forall k :: k in r <==> k in ids)
      && (forall i, j :: 0 <= i < j < |r| ==> r[i] < r[j])
  {
    var r := [m] + rest;
    forall i, j | 0 <= i < j < |r|
      ensures r[i] < r[j]
    {
      assert r[j] == rest[j - 1];
      if i > 0 {
        assert r[i] == rest[i - 1];
      } else {
        assert rest[j - 1] in rest;
      }
    }
  }

  function MinimumOf(ids: set<int>): (m: int)
    requires ids != {}
    ensures m in ids && forall k :: k in ids ==> m <= k
  {
    MinimumExists(ids);
    var m :| m in ids && forall k :: k in ids ==> m <= k;
    m
  }

  /** The rows of the table, one per key. */
  function Rows(store: map<int, Todo>): (r: seq<Todo>)
    ensures |r| == |store|
    ensures forall t :: t in r <==> t in store.Values
  {
    var ids := AscendingIds(store.Keys);
    var r := seq(|ids|, i requires 0 <= i < |ids| => store[ids[i]]);
    RowsAreValues(store, ids, r);
    r
  }

  lemma RowsAreValues(store: map<int, Todo>, ids: seq<int>, r: seq<Todo>)
    requires forall k :: k in ids <==> k in store
    requires |r| == |ids| && forall i :: 0 <= i < |r| ==> ids[i] in store && r[i] == store[ids[i]]
    ensures forall t :: t in r <==> t in store.Values
  {
    forall t | t in store.Values
      ensures t in r
    {
      if forall id :: id in store ==> store[id] != t {
        assert false;
      }
      var id :| id in store && store[id] == t;
      var i :| 0 <= i < |ids| && ids[i] == id;
      assert r[i] == t;
    }
  }

  /** The table's rows are keyed by their own `Id`, as the primary key makes them. */
  predicate KeyedById(store: map<int, Todo>)
  {
    forall id :: id in store ==> store[id].id == id
  }

  /** Rows keyed by `Id` are pairwise distinct, so reading the table yields each stored row once. */
  lemma RowsOnce(store: map<int, Todo>)
    requires KeyedById(store)
    ensures forall t :: multiset(Rows(store))[t] == if t in store.Values then 1 else 0
  {
    var ids := AscendingIds(store.Keys);
    var r := Rows(store);
    assert forall i :: 0 <= i < |r| ==> r[i] == store[ids[i]] && r[i].id == ids[i];
    DistinctCount(r);
  }

  lemma {:induction false} DistinctCount<T>(s: seq<T>)
    requires forall i, j :: 0 <= i < j < |s| ==> s[i] != s[j]
    ensures forall x :: multiset(s)[x] == if x in s then 1 else 0
  {
    if s != [] {
      DistinctCount(s[1..]);
      assert s == [s[0]] + s[1..];
      assert s[0] !in s[1..] by {
        forall j | 0 <= j < |s[1..]|
          ensures s[1..][j] != s[0]
        {
          assert s[1..][j] == s[j + 1];
        }
      }
    }
  }

  /**
    `Index`'s model: the current and upcoming todos, ordered by due date and grouped into
    well-formed month groups, strictly ascending by (year, month).
   */
  function CurrentListing(store: map<int, Todo>, now: DateTime): (r: seq<GroupedTodos>)
    ensures forall i, j :: 0 <= i < j < |r| ==> MonthBefore(r[i], r[j])
    ensures forall i :: 0 <= i < |r| ==> IsMonth(r[i])
  {
    var sorted := OrderByDue(WhereCurrentOrUpcoming(Rows(store), now));
    MonthGroupsAscending(sorted);
    MonthAndWeekMembership(sorted);
    GroupTodosByMonthAndWeek(sorted)
  }

  /**
    `PastTodos`'s model: the todos due in the previous month, ordered by due date and grouped
    into well-formed month groups; absent exactly when `now.AddMonths(-1)` leaves the calendar,
    which is in January of year 1.
   */
  function PastListing(store: map<int, Todo>, now: DateTime): (r: Option<seq<GroupedTodos>>)
    ensures r.None? <==> now.year == MinYear && now.month == 1
    ensures r.Some? ==> forall i :: 0 <= i < |r.value| ==> IsMonth(r.value[i])
  {
    PreviousMonth(now);
    match AddMonths(now, -1)
    case None => None
    case Some(previousMonthDate) =>
      var sorted := OrderByDue(WhereDueInMonthOf(Rows(store), previousMonthDate));
      MonthAndWeekMembership(sorted);
      Some(GroupTodosByMonthAndWeek(sorted))
  }

  lemma {:induction false} InFlatten<T>(gs: seq<Grouping<T>>, w: int, x: T)
    requires 0 <= w < |gs| && x in gs[w].items
    ensures x in Flatten(gs)
  {
    if w > 0 {
      InFlatten(gs[1..], w - 1, x);
    }
  }

  lemma {:induction false} InAllTodos(r: seq<GroupedTodos>, i: int, w: int, t: DatedTodo)
    requires 0 <= i < |r| && 0 <= w < |r[i].weeks| && t in r[i].weeks[w].items
    ensures t in AllTodos(r)
  {
    if i == 0 {
      InFlatten(r[0].weeks, w, t);
    } else {
      InAllTodos(r[1..], i - 1, w, t);
    }
  }

  /**
    The grouped view of `xs` as the listings use it: exactly the todos of `xs`, month groups
    strictly ascending, and each month group's todos due in its year and month.
   */
  lemma GroupedView(xs: seq<DatedTodo>)
    ensures var r := GroupTodosByMonthAndWeek(xs);
      && (forall t :: t in AllTodos(r) <==> t in xs)
      && (forall i, j :: 0 <= i < j < |r| ==> MonthBefore(r[i], r[j]))
      && (forall i :: 0 <= i < |r| ==> IsMonth(r[i]))
  {
    var r := GroupTodosByMonthAndWeek(xs);
    GroupingIsPartition(xs);
    assert forall t :: t in AllTodos(r) <==> t in multiset(AllTodos(r));
    MonthGroupsAscending(xs);
    MonthAndWeekMembership(xs);
  }

  /** A month group of the view is represented by one of its todos. */
  lemma SomeTodoOf(r: seq<GroupedTodos>, i: int) returns (t: DatedTodo)
    requires 0 <= i < |r| && IsMonth(r[i])
    ensures t in AllTodos(r)
    ensures Due(t).year == r[i].year && Due(t).month == r[i].month
  {
    t := r[i].weeks[0].items[0];
    InAllTodos(r, i, 0, t);
  }

  /** Ordering and grouping lose and add nothing: the view holds exactly the filtered rows. */
  lemma OrderedViewMembers(ys: seq<DatedTodo>)
    ensures forall t :: t in AllTodos(GroupTodosByMonthAndWeek(OrderByDue(ys))) <==> t in ys
  {
    var sorted := OrderByDue(ys);
    var all := AllTodos(GroupTodosByMonthAndWeek(sorted));
    GroupingIsPartition(sorted);
    forall t
      ensures t in all <==> t in ys
    {
      assert t in all <==> t in multiset(all);
      assert t in ys <==> t in multiset(ys);
    }
  }

  /** `Index` lists exactly the stored todos due this month or later. */
  lemma CurrentListingMembers(store: map<int, Todo>, now: DateTime)
    ensures forall t :: t in AllTodos(CurrentListing(store, now)) <==> t in store.Values && IsCurrentOrUpcoming(t, now)
  {
    OrderedViewMembers(WhereCurrentOrUpcoming(Rows(store), now));
  }

  /** `Index` shows each row it reads that is due this month or later as often as it is read. */
  lemma CurrentListingCounts(store: map<int, Todo>, now: DateTime)
    ensures forall t: DatedTodo :: multiset(AllTodos(CurrentListing(store, now)))[t]
              == if IsCurrentOrUpcoming(t, now) then multiset(Rows(store))[t] else 0
  {
    GroupingIsPartition(OrderByDue(WhereCurrentOrUpcoming(Rows(store), now)));
  }

  /** Over a table keyed by `Id`, `Index` shows every stored todo due this month or later exactly once. */
  lemma CurrentListingOnce(store: map<int, Todo>, now: DateTime)
    requires KeyedById(store)
    ensures forall t: DatedTodo :: multiset(AllTodos(CurrentListing(store, now)))[t]
              == if t in store.Values && IsCurrentOrUpcoming(t, now) then 1 else 0
  {
    CurrentListingCounts(store, now);
    RowsOnce(store);
  }

  /** No month group of `Index` is before now's (year, month). */
  lemma CurrentListingMonths(store: map<int, Todo>, now: DateTime)
    ensures var r := CurrentListing(store, now);
      forall i :: 0 <= i < |r| ==> r[i].year > now.year || (r[i].year == now.year && r[i].month >= now.month)
  {
    var r := CurrentListing(store, now);
    CurrentListingMembers(store, now);
    forall i | 0 <= i < |r|
      ensures r[i].year > now.year || (r[i].year == now.year && r[i].month >= now.month)
    {
      var t := SomeTodoOf(r, i);
      assert IsCurrentOrUpcoming(t, now);
      MonthIndexOrder(r[i].year, r[i].month, now.year, now.month);
    }
  }

  /** Inside every week bucket of `Index`, the todos are in due-date order. */
  lemma CurrentListingBucketsSorted(store: map<int, Todo>, now: DateTime)
    ensures var r := CurrentListing(store, now);
      forall i, w :: 0 <= i < |r| && 0 <= w < |r[i].weeks| ==> SortedByDue(r[i].weeks[w].items)
  {
    BucketsKeepInputOrder(OrderByDue(WhereCurrentOrUpcoming(Rows(store), now)));
  }

  /** `PastTodos` lists exactly the stored todos due in the previous calendar month. */
  lemma PastListingMembers(store: map<int, Todo>, now: DateTime)
    requires PastListing(store, now).Some?
    ensures forall t :: t in AllTodos(PastListing(store, now).value) <==>
      && t in store.Values && t.dueDate.Some?
      && MonthIndex(t.dueDate.value.year, t.dueDate.value.month) == MonthIndex(now.year, now.month) - 1
  {
    var p := AddMonths(now, -1).value;
    OrderedViewMembers(WhereDueInMonthOf(Rows(store), p));
    forall t: Todo
      ensures IsDueInMonthOf(t, p)
        <==> t.dueDate.Some? && MonthIndex(t.dueDate.value.year, t.dueDate.value.month) == MonthIndex(now.year, now.month) - 1
    {
      PastFilterIsPreviousMonth(t, now);
    }
  }

  /** `PastTodos` shows each row it reads that is due in the previous month as often as it is read. */
  lemma PastListingCounts(store: map<int, Todo>, now: DateTime)
    requires PastListing(store, now).Some?
    ensures forall t: DatedTodo :: multiset(AllTodos(PastListing(store, now).value))[t]
              == if MonthIndex(t.dueDate.value.year, t.dueDate.value.month) == MonthIndex(now.year, now.month) - 1
                 then multiset(Rows(store))[t] else 0
  {
    var p := AddMonths(now, -1).value;
    GroupingIsPartition(OrderByDue(WhereDueInMonthOf(Rows(store), p)));
    PreviousMonth(now);
  }

  /** Over a table keyed by `Id`, `PastTodos` shows every stored todo due in the previous month exactly once. */
  lemma PastListingOnce(store: map<int, Todo>, now: DateTime)
    requires KeyedById(store)
    requires PastListing(store, now).Some?
    ensures forall t: DatedTodo :: multiset(AllTodos(PastListing(store, now).value))[t]
              == if t in store.Values && MonthIndex(t.dueDate.value.year, t.dueDate.value.month) == MonthIndex(now.year, now.month) - 1
                 then 1 else 0
  {
    PastListingCounts(store, now);
    RowsOnce(store);
  }

  /** Groups with strictly ascending keys that all carry the same key number at most one. */
  lemma AtMostOneGroup<T>(gs: seq<Grouping<T>>, k: int)
    requires KeysStrictlyAscending(gs)
    requires forall i :: 0 <= i < |gs| ==> gs[i].key == k
    ensures |gs| <= 1
  {
    if |gs| > 1 {
      FirstKeysAscend(gs);
      assert false;
    }
  }

  lemma FirstKeysAscend<T>(gs: seq<Grouping<T>>)
    requires KeysStrictlyAscending(gs) && |gs| > 1
    ensures gs[0].key < gs[1].key
  {
  }

  /** Todos that all share one month form at most one month group, keyed by that month. */
  lemma SingleMonthView(xs: seq<DatedTodo>, k: int)
    requires forall t :: t in xs ==> MonthKey(t) == k
    ensures var r := GroupTodosByMonthAndWeek(xs);
      && |r| <= 1
      && (forall i :: 0 <= i < |r| ==> MonthIndex(r[i].year, r[i].month) == k)
  {
    var months := GroupByOrdered(xs, MonthKey);
    var r := GroupTodosByMonthAndWeek(xs);
    forall i | 0 <= i < |months|
      ensures months[i].key == k
    {
      LookupAt(months, i);
      var t := months[i].items[0];
      assert t in WithKey(xs, MonthKey, months[i].key);
    }
    AtMostOneGroup(months, k);
    forall i | 0 <= i < |r|
      ensures MonthIndex(r[i].year, r[i].month) == k
    {
      assert r[i] == ToMonthGroup(months[i]);
      MonthIndexRoundTrip(YearOfMonthIndex(k), MonthOfMonthIndex(k));
      assert k == 12 * (k / 12) + k % 12;
    }
  }

  /** What `PastTodos` groups: its sorted rows, all due in the month before now's. */
  lemma PastListingInput(store: map<int, Todo>, now: DateTime) returns (sorted: seq<DatedTodo>)
    requires PastListing(store, now).Some?
    ensures PastListing(store, now).value == GroupTodosByMonthAndWeek(sorted)
    ensures forall t :: t in sorted ==> MonthKey(t) == MonthIndex(now.year, now.month) - 1
  {
    var p := AddMonths(now, -1).value;
    var filtered := WhereDueInMonthOf(Rows(store), p);
    sorted := OrderByDue(filtered);
    forall t | t in sorted
      ensures MonthKey(t) == MonthIndex(now.year, now.month) - 1
    {
      assert t in multiset(sorted);
      assert t in filtered;
      PastFilterIsPreviousMonth(t, now);
    }
  }

  /** `PastTodos` shows at most one month group. */
  lemma PastListingSingleMonth(store: map<int, Todo>, now: DateTime)
    requires PastListing(store, now).Some?
    ensures |PastListing(store, now).value| <= 1
  {
    var sorted := PastListingInput(store, now);
    SingleMonthView(sorted, MonthIndex(now.year, now.month) - 1);
  }

  /** `PastTodos`'s month group, if any, is the month before now's. */
  lemma PastListingMonths(store: map<int, Todo>, now: DateTime)
    requires PastListing(store, now).Some?
    ensures var r := PastListing(store, now).value;
      forall i :: 0 <= i < |r| ==> MonthIndex(r[i].year, r[i].month) == MonthIndex(now.year, now.month) - 1
  {
    var sorted := PastListingInput(store, now);
    SingleMonthView(sorted, MonthIndex(now.year, now.month) - 1);
  }

  /** Inside every week bucket of `PastTodos`, the todos are in due-date order. */
  lemma PastListingBucketsSorted(store: map<int, Todo>, now: DateTime)
    requires PastListing(store, now).Some?
    ensures var r := PastListing(store, now).value;
      forall i, w :: 0 <= i < |r| && 0 <= w < |r[i].weeks| ==> SortedByDue(r[i].weeks[w].items)
  {
    BucketsKeepInputOrder(OrderByDue(WhereDueInMonthOf(Rows(store), AddMonths(now, -1).value)));
  }
}
