/**
  The controller's due-date grouping engine: `GetWeekOfMonth` and
  `GroupTodosByMonthAndWeek`. Todos are split by the (year, month) of their due date, the
  month groups are ordered by year and then month, and inside each month the todos are split
  into buckets keyed by the week of the month, in ascending week order.
 */
module TodoGrouping {
  import opened Wrappers
  import opened Calendar
  import opened Linq
  import opened Models

  /** A todo that has a due date; the grouping engine reads `DueDate.Value` of every item. */
  type DatedTodo = t: Todo | t.dueDate.Some?
    witness Todo(0, "", None, Some(DateTimeParts(1, 1, 1, 0)), false, None)

  function Due(t: DatedTodo): DateTime
  {
    t.dueDate.value
  }

  /** Weeks of the year elapsed in `d`'s month before `d`'s week, plus one. */
  function WeekOfMonth(d: DateTime): (w: int)
    ensures 1 <= w <= 6
    ensures d.day == 1 ==> w == 1
  {
    var firstDayOfMonth := Date(d.year, d.month, 1);
    WeekOfMonthClosedForm(d);
    WeekOfYear(d) - WeekOfYear(firstDayOfMonth) + 1
  }

  /** Days from the Monday that starts the year's first week to the first of `d`'s month. */
  function MonthStart(year: int, month: int): (a: int)
    requires MinYear <= year <= MaxYear && 1 <= month <= 12
    ensures a >= 0
  {
    DaysToMonth(year)[month - 1] + Jan1Offset(year)
  }

  lemma DivSplit(q: int, s: int)
    requires s >= 0
    ensures (7 * q + s) / 7 == q + s / 7
  {
  }

  /** The week of the month written over the month's start and the day: always 1..6. */
  lemma WeekOfMonthClosedForm(d: DateTime)
    ensures
      var a := MonthStart(d.year, d.month);
      && WeekOfYear(d) - WeekOfYear(Date(d.year, d.month, 1)) + 1 == (a + d.day - 1) / 7 - a / 7 + 1
      && 1 <= (a + d.day - 1) / 7 - a / 7 + 1 <= 6
  {
    var a := MonthStart(d.year, d.month);
    var q, r := a / 7, a % 7;
    assert a == 7 * q + r;
    DivSplit(q, r + d.day - 1);
    assert a + d.day - 1 == 7 * q + (r + d.day - 1);
  }

  /** Within one month the week of the month never decreases as the day advances. */
  lemma {:induction false} WeekOfMonthMonotone(d1: DateTime, d2: DateTime)
    requires d1.year == d2.year && d1.month == d2.month && d1.day <= d2.day
    ensures WeekOfMonth(d1) <= WeekOfMonth(d2)
  {
    var a := MonthStart(d1.year, d1.month);
    WeekOfMonthClosedForm(d1);
    WeekOfMonthClosedForm(d2);
    DivMonotone(a + d1.day - 1, a + d2.day - 1);
  }

  lemma DivMonotone(x: int, y: int)
    requires 0 <= x <= y
    ensures x / 7 <= y / 7
  {
  }

  /** A day is a Monday exactly when its distance from the year's first Monday-start is a multiple of 7. */
  lemma {:induction false} MondayInMonth(d: DateTime)
    ensures DayOfWeek(d) == Monday <==> (MonthStart(d.year, d.month) + d.day - 1) % 7 == 0
  {
    var doy := DayOfYear(d) - 1;
    var j := Jan1DayOfWeek(d.year);
    DayOfWeekFromJan1(d);
    assert MonthStart(d.year, d.month) + d.day - 1 == doy + (j + 6) % 7;
    ModAddLeft(j + 6, doy);
    ModAddLeft(doy + j, 6);
    var w := (doy + j) % 7;
    assert (MonthStart(d.year, d.month) + d.day - 1) % 7 == (w + 6) % 7;
    assert 0 <= w < 7;
  }

  lemma DivStep(n: int)
    requires n >= 1
    ensures n / 7 == (n - 1) / 7 + (if n % 7 == 0 then 1 else 0)
  {
    var q, r := (n - 1) / 7, (n - 1) % 7;
    assert n == 7 * q + (r + 1);
    DivSplit(q, r + 1);
  }

  /** The next day is in a later week exactly when it is a Monday. */
  lemma {:induction false} WeekOfMonthStep(year: int, month: int, day: int)
    requires MinYear <= year <= MaxYear && 1 <= month <= 12 && 1 <= day < DaysInMonth(year, month)
    ensures WeekOfMonth(Date(year, month, day + 1))
         == WeekOfMonth(Date(year, month, day)) + (if DayOfWeek(Date(year, month, day + 1)) == Monday then 1 else 0)
  {
    var today, tomorrow := Date(year, month, day), Date(year, month, day + 1);
    var a := MonthStart(year, month);
    WeekOfMonthClosedForm(today);
    WeekOfMonthClosedForm(tomorrow);
    MondayInMonth(tomorrow);
    DivStep(a + day);
  }

  /** The Mondays of a month from its second day up to `day`: the reference count of week starts. */
  function MondaysAfterFirst(year: int, month: int, day: int): (n: nat)
    requires MinYear <= year <= MaxYear && 1 <= month <= 12 && 1 <= day <= DaysInMonth(year, month)
    ensures n <= day - 1
    decreases day
  {
    if day == 1 then 0
    else MondaysAfterFirst(year, month, day - 1) + (if DayOfWeek(Date(year, month, day)) == Monday then 1 else 0)
  }

  /**
    The week of the month, stated independently of week-of-year numbering: one plus the
    Mondays that fall after the first of the month, up to and including the day itself.
   */
  lemma {:induction false} WeekOfMonthCountsMondays(d: DateTime)
    ensures WeekOfMonth(d) == 1 + MondaysAfterFirst(d.year, d.month, d.day)
    decreases d.day
  {
    if d.day > 1 {
      var yesterday := Date(d.year, d.month, d.day - 1);
      WeekOfMonthCountsMondays(yesterday);
      WeekOfMonthStep(d.year, d.month, d.day - 1);
      WeekOfMonthIgnoresTime(d);
    }
  }

  /** The week of the month depends on the date only, not on the time of day. */
  lemma WeekOfMonthIgnoresTime(d: DateTime)
    ensures WeekOfMonth(d) == WeekOfMonth(Date(d.year, d.month, d.day))
  {
    WeekOfMonthClosedForm(d);
    WeekOfMonthClosedForm(Date(d.year, d.month, d.day));
  }

  /** The month key of a todo: one number for its due date's (year, month), from which both come back. */
  function MonthKey(t: DatedTodo): (k: int)
    ensures YearOfMonthIndex(k) == Due(t).year && MonthOfMonthIndex(k) == Due(t).month
  {
    MonthIndexRoundTrip(Due(t).year, Due(t).month);
    MonthIndex(Due(t).year, Due(t).month)
  }

  function WeekKey(t: DatedTodo): (k: int)
    ensures 1 <= k <= 6
  {
    WeekOfMonth(Due(t))
  }

  /** One month of the grouped view: its year and month and its week buckets. */
  datatype GroupedTodos = GroupedTodos(year: int, month: int, weeks: seq<Grouping<DatedTodo>>)

  /**
    One month group from the todos sharing a month key: the key's year and month, and the
    group's todos split into non-empty week buckets with strictly ascending week numbers,
    losing and adding none.
   */
  function ToMonthGroup(g: Grouping<DatedTodo>): (r: GroupedTodos)
    ensures r.year == YearOfMonthIndex(g.key) && r.month == MonthOfMonthIndex(g.key)
    ensures KeysStrictlyAscending(r.weeks) && NoEmptyGroup(r.weeks)
    ensures multiset(Flatten(r.weeks)) == multiset(g.items)
  {
    GroupByOrderedPartitions(g.items, WeekKey);
    GroupedTodos(YearOfMonthIndex(g.key), MonthOfMonthIndex(g.key), GroupByOrdered(g.items, WeekKey))
  }

  /**
    Groups by (year, month) of the due date, orders the groups by year then month, and
    splits every group into week-of-month buckets ordered by week.
   */
  function GroupTodosByMonthAndWeek(todos: seq<DatedTodo>): (r: seq<GroupedTodos>)
    ensures r == [] <==> todos == []
  {
    var months := GroupByOrdered(todos, MonthKey);
    seq(|months|, i requires 0 <= i < |months| => ToMonthGroup(months[i]))
  }

  /** Every todo's (year, month) has a month group. */
  lemma {:induction false} EveryTodoHasMonthGroup(todos: seq<DatedTodo>)
    ensures var r := GroupTodosByMonthAndWeek(todos);
      forall t :: t in todos ==>
        exists i :: 0 <= i < |r| && r[i].year == Due(t).year && r[i].month == Due(t).month
  {
    var r := GroupTodosByMonthAndWeek(todos);
    forall t | t in todos
      ensures exists i :: 0 <= i < |r| && r[i].year == Due(t).year && r[i].month == Due(t).month
    {
      var i := GroupOfTodo(todos, t);
      assert 0 <= i < |r| && r[i].year == Due(t).year && r[i].month == Due(t).month;
    }
  }

  /** Every month group has a todo of its (year, month): no group is invented. */
  lemma {:induction false} EveryMonthGroupHasTodo(todos: seq<DatedTodo>)
    ensures var r := GroupTodosByMonthAndWeek(todos);
      forall i :: 0 <= i < |r| ==>
        exists t :: t in todos && Due(t).year == r[i].year && Due(t).month == r[i].month
  {
    var r := GroupTodosByMonthAndWeek(todos);
    forall i | 0 <= i < |r|
      ensures exists t :: t in todos && Due(t).year == r[i].year && Due(t).month == r[i].month
    {
      var t := TodoOfGroup(todos, i);
      assert t in todos && Due(t).year == r[i].year && Due(t).month == r[i].month;
    }
  }

  lemma {:induction false} GroupOfTodo(todos: seq<DatedTodo>, t: DatedTodo) returns (i: int)
    requires t in todos
    ensures var r := GroupTodosByMonthAndWeek(todos);
      0 <= i < |r| && r[i].year == Due(t).year && r[i].month == Due(t).month
  {
    var months := GroupByOrdered(todos, MonthKey);
    assert Lookup(months, MonthKey(t)) != [];
    if forall j :: 0 <= j < |months| ==> months[j].key != MonthKey(t) {
      assert false;
    }
    i :| 0 <= i < |months| && months[i].key == MonthKey(t);
    assert GroupTodosByMonthAndWeek(todos)[i] == ToMonthGroup(months[i]);
  }

  lemma {:induction false} TodoOfGroup(todos: seq<DatedTodo>, i: int) returns (t: DatedTodo)
    requires 0 <= i < |GroupTodosByMonthAndWeek(todos)|
    ensures var r := GroupTodosByMonthAndWeek(todos);
      t in todos && Due(t).year == r[i].year && Due(t).month == r[i].month
  {
    var months := GroupByOrdered(todos, MonthKey);
    LookupAt(months, i);
    t := months[i].items[0];
    assert t in WithKey(todos, MonthKey, months[i].key);
    assert GroupTodosByMonthAndWeek(todos)[i] == ToMonthGroup(months[i]);
  }

  /** Every todo of the grouped view, month after month and week after week. */
  function AllTodos(groups: seq<GroupedTodos>): seq<DatedTodo>
  {
    if groups == [] then [] else Flatten(groups[0].weeks) + AllTodos(groups[1..])
  }

  predicate MonthBefore(a: GroupedTodos, b: GroupedTodos)
  {
    a.year < b.year || (a.year == b.year && a.month < b.month)
  }

  /** Month groups come strictly ascending by (year, month), so no (year, month) appears twice. */
  lemma MonthGroupsAscending(todos: seq<DatedTodo>)
    ensures var r := GroupTodosByMonthAndWeek(todos);
      forall i, j :: 0 <= i < j < |r| ==> MonthBefore(r[i], r[j])
  {
    var months := GroupByOrdered(todos, MonthKey);
    var r := GroupTodosByMonthAndWeek(todos);
    forall i, j | 0 <= i < j < |r|
      ensures MonthBefore(r[i], r[j])
    {
      var ki, kj := months[i].key, months[j].key;
      assert ki < kj;
      var yi, mi := YearOfMonthIndex(ki), MonthOfMonthIndex(ki);
      var yj, mj := YearOfMonthIndex(kj), MonthOfMonthIndex(kj);
      assert ki == MonthIndex(yi, mi) && kj == MonthIndex(yj, mj);
      MonthIndexOrder(yi, mi, yj, mj);
    }
  }

  /**
    A well-formed month group: non-empty week buckets with strictly ascending keys
    between 1 and 6, every todo of the group due in its year and month, and every todo of a
    bucket due in that bucket's week of the month.
   */
  ghost predicate IsMonth(m: GroupedTodos)
  {
    && m.weeks != []
    && KeysStrictlyAscending(m.weeks)
    && (forall w :: 0 <= w < |m.weeks| ==> 1 <= m.weeks[w].key <= 6 && m.weeks[w].items != [])
    && (forall w, t :: 0 <= w < |m.weeks| && t in m.weeks[w].items ==>
          && Due(t).year == m.year && Due(t).month == m.month
          && WeekOfMonth(Due(t)) == m.weeks[w].key)
  }

  lemma MonthGroupOf(g: Grouping<DatedTodo>)
    requires g.items != []
    requires forall t :: t in g.items ==> MonthKey(t) == g.key
    ensures IsMonth(ToMonthGroup(g))
  {
    var m := ToMonthGroup(g);
    assert m.weeks == GroupByOrdered(g.items, WeekKey);
    assert m.year == YearOfMonthIndex(g.key) && m.month == MonthOfMonthIndex(g.key);
    BucketMembers(g);
    BucketKeysInRange(g.items);
  }

  lemma BucketMembers(g: Grouping<DatedTodo>)
    requires forall t :: t in g.items ==> MonthKey(t) == g.key
    ensures var weeks := GroupByOrdered(g.items, WeekKey);
      forall w, t :: 0 <= w < |weeks| && t in weeks[w].items ==>
          && Due(t).year == YearOfMonthIndex(g.key) && Due(t).month == MonthOfMonthIndex(g.key)
          && WeekOfMonth(Due(t)) == weeks[w].key
  {
    var weeks := GroupByOrdered(g.items, WeekKey);
    forall w, t | 0 <= w < |weeks| && t in weeks[w].items
      ensures Due(t).year == YearOfMonthIndex(g.key) && Due(t).month == MonthOfMonthIndex(g.key)
      ensures WeekOfMonth(Due(t)) == weeks[w].key
    {
      LookupAt(weeks, w);
      assert t in g.items && WeekKey(t) == weeks[w].key;
    }
  }

  lemma BucketKeysInRange(items: seq<DatedTodo>)
    ensures var weeks := GroupByOrdered(items, WeekKey);
      forall w :: 0 <= w < |weeks| ==> 1 <= weeks[w].key <= 6
  {
    var weeks := GroupByOrdered(items, WeekKey);
    forall w | 0 <= w < |weeks|
      ensures 1 <= weeks[w].key <= 6
    {
      LookupAt(weeks, w);
      var t := weeks[w].items[0];
      assert t in WithKey(items, WeekKey, weeks[w].key);
    }
  }

  /** The grouping partitions its input into months and, inside each month, into weeks. */
  lemma MonthAndWeekMembership(todos: seq<DatedTodo>)
    ensures var r := GroupTodosByMonthAndWeek(todos);
      forall i :: 0 <= i < |r| ==> IsMonth(r[i])
  {
    var months := GroupByOrdered(todos, MonthKey);
    var r := GroupTodosByMonthAndWeek(todos);
    forall i | 0 <= i < |r|
      ensures IsMonth(r[i])
    {
      var g := months[i];
      LookupAt(months, i);
      assert g.items == WithKey(todos, MonthKey, g.key);
      assert g.items != [];
      MonthGroupOf(g);
      assert r[i] == ToMonthGroup(g);
    }
  }

  lemma {:induction false} AllTodosOfMonthGroups(months: seq<Grouping<DatedTodo>>, r: seq<GroupedTodos>)
    requires |r| == |months|
    requires forall i :: 0 <= i < |r| ==> r[i] == ToMonthGroup(months[i])
    ensures multiset(AllTodos(r)) == multiset(Flatten(months))
  {
    if r != [] {
      AllTodosOfMonthGroups(months[1..], r[1..]);
      GroupByOrderedPartitions(months[0].items, WeekKey);
    }
  }

  /** Flattening all buckets gives back the input, as a multiset. */
  lemma GroupingIsPartition(todos: seq<DatedTodo>)
    ensures multiset(AllTodos(GroupTodosByMonthAndWeek(todos))) == multiset(todos)
  {
    var months := GroupByOrdered(todos, MonthKey);
    AllTodosOfMonthGroups(months, GroupTodosByMonthAndWeek(todos));
    GroupByOrderedPartitions(todos, MonthKey);
  }

  lemma {:induction false} AllTodosIsFlatten(r: seq<GroupedTodos>, ms: seq<Grouping<DatedTodo>>)
    requires |ms| == |r| && forall i :: 0 <= i < |r| ==> ms[i].items == Flatten(r[i].weeks)
    ensures AllTodos(r) == Flatten(ms)
  {
    if r != [] {
      assert forall i :: 0 <= i < |r| - 1 ==> r[1..][i] == r[i + 1] && ms[1..][i] == ms[i + 1];
      AllTodosIsFlatten(r[1..], ms[1..]);
    }
  }

  /**
    Grouping the flattened view by month finds the view's month groups again, each holding its
    todos week after week.
   */
  lemma RegroupMonths(xs: seq<DatedTodo>)
    ensures var months := GroupByOrdered(xs, MonthKey);
      var r := GroupTodosByMonthAndWeek(xs);
      var again := GroupByOrdered(AllTodos(r), MonthKey);
      && |again| == |months|
      && forall i :: 0 <= i < |months| ==> again[i] == Grouping(months[i].key, Flatten(r[i].weeks))
  {
    var months := GroupByOrdered(xs, MonthKey);
    var r := GroupTodosByMonthAndWeek(xs);
    var ms := seq(|months|, i requires 0 <= i < |months| => Grouping(months[i].key, Flatten(r[i].weeks)));
    AllTodosIsFlatten(r, ms);
    GroupByOrderedCarriesKeys(xs, MonthKey);
    forall i | 0 <= i < |ms|
      ensures multiset(ms[i].items) == multiset(months[i].items)
    {
      assert r[i] == ToMonthGroup(months[i]);
    }
    forall i, x | 0 <= i < |ms| && x in ms[i].items
      ensures MonthKey(x) == ms[i].key
    {
      assert x in multiset(ms[i].items);
      assert x in months[i].items;
    }
    forall i | 0 <= i < |ms|
      ensures ms[i].items != []
    {
      var x := months[i].items[0];
      assert x in multiset(months[i].items);
    }
    RegroupFlatten(ms, MonthKey);
  }

  /**
    Grouping the todos of a grouped view again gives the same view: the flattened view lists
    each month's todos week after week, and regrouping them by month and then by week finds
    the same groups with the same todos in the same order.
   */
  lemma RegroupIsIdentity(xs: seq<DatedTodo>)
    ensures GroupTodosByMonthAndWeek(AllTodos(GroupTodosByMonthAndWeek(xs))) == GroupTodosByMonthAndWeek(xs)
  {
    var months := GroupByOrdered(xs, MonthKey);
    var r := GroupTodosByMonthAndWeek(xs);
    var monthsAgain := GroupByOrdered(AllTodos(r), MonthKey);
    RegroupMonths(xs);
    var again := GroupTodosByMonthAndWeek(AllTodos(r));
    forall i | 0 <= i < |r|
      ensures again[i] == r[i]
    {
      assert again[i] == ToMonthGroup(monthsAgain[i]) && r[i] == ToMonthGroup(months[i]);
      RegroupGroupBy(months[i].items, WeekKey);
    }
  }

  predicate SortedByDue(xs: seq<DatedTodo>)
  {
    forall i, j :: 0 <= i < j < |xs| ==> NotAfter(Due(xs[i]), Due(xs[j]))
  }

  /** Keeping items with one key preserves their relative order, so a due-date order survives. */
  lemma {:induction false} WithKeyKeepsOrder(xs: seq<DatedTodo>, key: DatedTodo -> int, k: int)
    requires SortedByDue(xs)
    ensures SortedByDue(WithKey(xs, key, k))
    decreases |xs|
  {
    if xs != [] {
      var init, last := xs[..|xs| - 1], xs[|xs| - 1];
      var kept := WithKey(init, key, k);
      assert SortedByDue(init) by {
        forall i, j | 0 <= i < j < |init|
          ensures NotAfter(Due(init[i]), Due(init[j]))
        {
          assert init[i] == xs[i] && init[j] == xs[j];
        }
      }
      WithKeyKeepsOrder(init, key, k);
      if key(last) == k {
        forall x | x in kept
          ensures NotAfter(Due(x), Due(last))
        {
          var i :| 0 <= i < |init| && init[i] == x;
          assert xs[i] == x;
        }
        SortedAppend(kept, last);
      }
    }
  }

  /** Appending a todo due no earlier than every todo of a sorted list keeps it sorted. */
  lemma SortedAppend(xs: seq<DatedTodo>, x: DatedTodo)
    requires SortedByDue(xs)
    requires forall y :: y in xs ==> NotAfter(Due(y), Due(x))
    ensures SortedByDue(xs + [x])
  {
    var r := xs + [x];
    forall i, j | 0 <= i < j < |r|
      ensures NotAfter(Due(r[i]), Due(r[j]))
    {
      assert r[i] == xs[i];
      if j < |xs| {
        assert r[j] == xs[j];
      } else {
        assert xs[i] in xs;
      }
    }
  }

  /**
    Each week bucket holds the month's todos with that week, in input order: when the input
    is sorted by due date, as both callers sort it, so is every bucket.
   */
  lemma BucketsKeepInputOrder(todos: seq<DatedTodo>)
    ensures var r := GroupTodosByMonthAndWeek(todos);
      forall i, w :: 0 <= i < |r| && 0 <= w < |r[i].weeks| ==>
        r[i].weeks[w].items
          == WithKey(WithKey(todos, MonthKey, MonthIndex(r[i].year, r[i].month)), WeekKey, r[i].weeks[w].key)
    ensures var r := GroupTodosByMonthAndWeek(todos);
      SortedByDue(todos) ==>
        forall i, w :: 0 <= i < |r| && 0 <= w < |r[i].weeks| ==> SortedByDue(r[i].weeks[w].items)
  {
    var months := GroupByOrdered(todos, MonthKey);
    var r := GroupTodosByMonthAndWeek(todos);
    GroupByOrderedSpec(todos, MonthKey);
    forall i, w | 0 <= i < |r| && 0 <= w < |r[i].weeks|
      ensures r[i].weeks[w].items
          == WithKey(WithKey(todos, MonthKey, MonthIndex(r[i].year, r[i].month)), WeekKey, r[i].weeks[w].key)
      ensures SortedByDue(todos) ==> SortedByDue(r[i].weeks[w].items)
    {
      var g := months[i];
      GroupByOrderedSpec(g.items, WeekKey);
      var t :| t in g.items;
      MonthIndexRoundTrip(Due(t).year, Due(t).month);
      assert MonthIndex(r[i].year, r[i].month) == g.key;
      if SortedByDue(todos) {
        WithKeyKeepsOrder(todos, MonthKey, g.key);
        WithKeyKeepsOrder(g.items, WeekKey, r[i].weeks[w].key);
      }
    }
  }

  /** The scenario of two March 2024 todos: the 5th (a Tuesday) is in week 2, the 28th in week 5. */
  lemma March2024Weeks()
    ensures DayOfWeek(Date(2024, 3, 5)) == Tuesday && WeekOfMonth(Date(2024, 3, 5)) == 2
    ensures DayOfWeek(Date(2024, 3, 28)) == Thursday && WeekOfMonth(Date(2024, 3, 28)) == 5
  {
    assert IsLeapYear(2024) && DaysToMonth(2024) == DaysToMonth366;
    assert DayNumber(Date(2024, 1, 1)) == 738_885;
    assert Jan1DayOfWeek(2024) == Monday;
    assert MonthStart(2024, 3) == 60;
    WeekOfMonthClosedForm(Date(2024, 3, 5));
    WeekOfMonthClosedForm(Date(2024, 3, 28));
    assert DayNumber(Date(2024, 3, 5)) == 738_949;
    assert DayNumber(Date(2024, 3, 28)) == 738_972;
  }
}
