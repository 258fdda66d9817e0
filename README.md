# Todo application: due-date grouping and the home controller

This project models the `HomeController` of a small ASP.NET todo application and proves
properties of the model. A todo has a title, an optional description, an optional due date,
a completion flag and a creation time. The controller does two kinds of work:

- It lists todos. `Index` lists the todos due in the current month or later. `PastTodos`
  lists those due in the month before. Both sort by due date and group the todos by
  (year, month), then split each month into week-of-month buckets.
- It changes the `Todos` table. It toggles completion, creates, edits and deletes todos, and
  shows one todo by id. It answers "not found" for missing or unknown ids.

The week of the month is the week of the year of the date minus the week of the year of the
first of its month, plus one. Weeks of the year follow .NET's `CalendarWeekRule.FirstDay`
with Monday as the first day of the week. This is not ISO 8601.

Modules, one file each:

- `Wrappers` (`wrappers.dfy`): `Option`.
- `Calendar` (`calendar.dfy`): the proleptic Gregorian calendar as .NET's `DateTime` uses it
  over years 1..9999. It covers day of year, day of week, week of year and `AddMonths`, all in
  integer arithmetic.
- `Linq` (`linq.dfy`): `GroupBy(key).OrderBy(g => g.Key)` over integer keys.
- `Models` (`models.dfy`): the `Todo` row and the column lengths of its table.
- `TodoGrouping` (`grouping.dfy`): `GetWeekOfMonth` and `GroupTodosByMonthAndWeek`.
- `Listings` (`listings.dfy`): the `Where` filters and `OrderBy` of `Index` and `PastTodos`,
  and what the two listings contain.
- `Controllers` (`controllers.dfy`): the `HomeController` class over the table, plus pure
  functions for each state change so that lemmas can name it.

The table is a `map<int, Todo>` from primary key to row, with the next value of the
identity column beside it. "Now" is a parameter. The ambient culture's calendar is fixed to
the Gregorian calendar. Results are `View(model)`, `NotFound`, `RedirectToIndex`, or
`Failed(fault)` for an exception the action does not catch.

## Model

| member | source | states |
|---|---|---|
| Calendar.WeekOfYear | ToDoApplication/ToDoApplication/ToDoApplication/Controllers/HomeController.cs:155-156 | `GetWeekOfYear(d, FirstDay, Monday)` is between 1 and 54, and January 1 is in week 1 |
| Calendar.WeekOfYearMatchesRuntimeFormula | ToDoApplication/ToDoApplication/ToDoApplication/Controllers/HomeController.cs:155-156 | the week computed from January 1's weekday equals the runtime's formula, which recovers that weekday from the date's own weekday and day of year |
| Calendar.DayOfWeekFromJan1 | ToDoApplication/ToDoApplication/ToDoApplication/Controllers/HomeController.cs:155-156 | a date's weekday is January 1's weekday advanced by the day of the year, mod 7 |
| Calendar.AddMonths | ToDoApplication/ToDoApplication/ToDoApplication/Controllers/HomeController.cs:122 | `AddMonths` fails exactly when `months` is outside +-120000 or the target (year, month) is before January of year 1 or after December of year 9999; otherwise it moves the (year, month) index by exactly `months`, keeps the time of day, and keeps the day unless the target month is shorter, in which case the day becomes that month's last |
| Calendar.PreviousMonth | ToDoApplication/ToDoApplication/ToDoApplication/Controllers/HomeController.cs:122 | `now.AddMonths(-1)` fails only in January of year 1; January goes to December of the previous year, any other month to the month before in the same year |
| Calendar.MonthIndexOrder | ToDoApplication/ToDoApplication/ToDoApplication/Controllers/HomeController.cs:140-141 | ordering by year and then by month is ordering by the month index, and equal indices mean equal (year, month) |
| Linq.GroupByOrdered | ToDoApplication/ToDoApplication/ToDoApplication/Controllers/HomeController.cs:146-147 | group keys strictly ascending, no group empty, no groups exactly for empty input, and the group with key `k` holds exactly the items with key `k`, in input order |
| Linq.GroupByOrderedSpec | ToDoApplication/ToDoApplication/ToDoApplication/Controllers/HomeController.cs:146-147 | each group holds exactly the items with its key, in input order, and every item's key has a group |
| Linq.GroupByOrderedPartitions | ToDoApplication/ToDoApplication/ToDoApplication/Controllers/HomeController.cs:146-147 | the groups together hold exactly the input items, as a multiset |
| Linq.Place | ToDoApplication/ToDoApplication/ToDoApplication/Controllers/HomeController.cs:146-147 | adding one item to a key-sorted group list keeps the keys sorted and adds that item to the end of its key's group only |
| Linq.WithKeyOfFlatten | ToDoApplication/ToDoApplication/ToDoApplication/Controllers/HomeController.cs:146-147 | filtering the flattened items of groups that carry their keys by one key gives exactly that key's group |
| Linq.LookupDetermines | ToDoApplication/ToDoApplication/ToDoApplication/Controllers/HomeController.cs:146-147 | two key-sorted lists of non-empty groups that agree on every key are equal |
| Linq.RegroupFlatten | ToDoApplication/ToDoApplication/ToDoApplication/Controllers/HomeController.cs:146-147 | regrouping the flattened items of a key-sorted grouping whose items carry their keys gives that grouping back |
| Linq.RegroupGroupBy | ToDoApplication/ToDoApplication/ToDoApplication/Controllers/HomeController.cs:146-147 | `GroupBy` then `OrderBy` is idempotent: regrouping the flattened groups gives the same groups |
| TodoGrouping.WeekOfMonth | ToDoApplication/ToDoApplication/ToDoApplication/Controllers/HomeController.cs:152-157 | the week of the month is between 1 and 6, and the first of the month is in week 1 |
| TodoGrouping.WeekOfMonthClosedForm | ToDoApplication/ToDoApplication/ToDoApplication/Controllers/HomeController.cs:152-157 | the difference of the two week-of-year numbers reduces to a closed form in the month's start offset and the day |
| TodoGrouping.WeekOfMonthMonotone | ToDoApplication/ToDoApplication/ToDoApplication/Controllers/HomeController.cs:152-157 | within one month a later day never has an earlier week |
| TodoGrouping.WeekOfMonthStep | ToDoApplication/ToDoApplication/ToDoApplication/Controllers/HomeController.cs:152-157 | from one day to the next the week goes up by one exactly when the next day is a Monday |
| TodoGrouping.MondayInMonth | ToDoApplication/ToDoApplication/ToDoApplication/Controllers/HomeController.cs:152-157 | a day is a Monday exactly when its offset from the Monday that starts the month's first week is a multiple of 7 |
| TodoGrouping.WeekOfMonthCountsMondays | ToDoApplication/ToDoApplication/ToDoApplication/Controllers/HomeController.cs:152-157 | the week of the month is 1 plus the number of Mondays from the 2nd of the month up to the day |
| TodoGrouping.WeekOfMonthIgnoresTime | ToDoApplication/ToDoApplication/ToDoApplication/Controllers/HomeController.cs:152-157 | the week of the month depends on the date only, not on the time of day |
| TodoGrouping.March2024Weeks | ToDoApplication/ToDoApplication/ToDoApplication/Controllers/HomeController.cs:152-157 | 2024-03-05 is a Tuesday in week 2 and 2024-03-28 a Thursday in week 5 |
| TodoGrouping.MonthKey | ToDoApplication/ToDoApplication/ToDoApplication/Controllers/HomeController.cs:139 | a todo's month key gives back its due date's year and month |
| TodoGrouping.WeekKey | ToDoApplication/ToDoApplication/ToDoApplication/Controllers/HomeController.cs:146 | a bucket key is a week number between 1 and 6 |
| TodoGrouping.ToMonthGroup | ToDoApplication/ToDoApplication/ToDoApplication/Controllers/HomeController.cs:142-149 | a month group takes its year and month from the key and splits the group's todos into non-empty week buckets with strictly ascending keys, losing and adding none |
| TodoGrouping.GroupTodosByMonthAndWeek | ToDoApplication/ToDoApplication/ToDoApplication/Controllers/HomeController.cs:136-150 | the grouped view is empty exactly when the input is |
| TodoGrouping.EveryTodoHasMonthGroup | ToDoApplication/ToDoApplication/ToDoApplication/Controllers/HomeController.cs:139-149 | every input todo's (year, month) has a month group |
| TodoGrouping.EveryMonthGroupHasTodo | ToDoApplication/ToDoApplication/ToDoApplication/Controllers/HomeController.cs:139-149 | every month group has an input todo due in its (year, month), so no group is invented |
| TodoGrouping.RegroupMonths | ToDoApplication/ToDoApplication/ToDoApplication/Controllers/HomeController.cs:139-141 | grouping the flattened view by month finds the same month keys again, each group holding its month's todos week after week |
| TodoGrouping.RegroupIsIdentity | ToDoApplication/ToDoApplication/ToDoApplication/Controllers/HomeController.cs:136-150 | grouping the flattened grouped view again gives the same view, month groups, week buckets and the order inside them |
| TodoGrouping.MonthGroupsAscending | ToDoApplication/ToDoApplication/ToDoApplication/Controllers/HomeController.cs:139-141 | month groups are strictly ascending by (year, month), so no (year, month) repeats |
| TodoGrouping.MonthAndWeekMembership | ToDoApplication/ToDoApplication/ToDoApplication/Controllers/HomeController.cs:138-149 | every month group has non-empty buckets with strictly ascending keys from 1 to 6; every todo in it is due in the group's year and month, and in the week its bucket names |
| TodoGrouping.MonthGroupOf | ToDoApplication/ToDoApplication/ToDoApplication/Controllers/HomeController.cs:142-148 | one month group built from items sharing a month is well formed in that sense |
| TodoGrouping.BucketMembers | ToDoApplication/ToDoApplication/ToDoApplication/Controllers/HomeController.cs:146 | every todo of a bucket is due in the group's year and month and in the bucket's week |
| TodoGrouping.BucketKeysInRange | ToDoApplication/ToDoApplication/ToDoApplication/Controllers/HomeController.cs:146-147 | bucket keys are between 1 and 6 |
| TodoGrouping.GroupingIsPartition | ToDoApplication/ToDoApplication/ToDoApplication/Controllers/HomeController.cs:138-149 | flattening all buckets of all months gives back the input multiset |
| TodoGrouping.AllTodosOfMonthGroups | ToDoApplication/ToDoApplication/ToDoApplication/Controllers/HomeController.cs:142-149 | the buckets of the month groups hold exactly the items of the month groupings |
| TodoGrouping.WithKeyKeepsOrder | ToDoApplication/ToDoApplication/ToDoApplication/Controllers/HomeController.cs:139 | keeping the items of one key keeps a due-date order |
| TodoGrouping.BucketsKeepInputOrder | ToDoApplication/ToDoApplication/ToDoApplication/Controllers/HomeController.cs:146-147 | a bucket holds its month's todos of that week in input order, so it is sorted by due date when the input is |
| Listings.IsCurrentOrUpcoming | ToDoApplication/ToDoApplication/ToDoApplication/Controllers/HomeController.cs:26-28 | `Index` keeps a todo exactly when it has a due date whose (year, month) is not before now's, ignoring the day |
| Listings.IsDueInMonthOf | ToDoApplication/ToDoApplication/ToDoApplication/Controllers/HomeController.cs:124-126 | `PastTodos` keeps a todo exactly when it has a due date in the same (year, month) as the given date |
| Listings.PastFilterIsPreviousMonth | ToDoApplication/ToDoApplication/ToDoApplication/Controllers/HomeController.cs:122-126 | `PastTodos` keeps a todo exactly when it is due in the month just before now's, December of the previous year when now is in January |
| Listings.WhereCurrentOrUpcoming | ToDoApplication/ToDoApplication/ToDoApplication/Controllers/HomeController.cs:25-28 | every row that passes `Index`'s filter is kept as often as it occurs, and no other row |
| Listings.WhereDueInMonthOf | ToDoApplication/ToDoApplication/ToDoApplication/Controllers/HomeController.cs:123-126 | every row due in the given date's year and month is kept as often as it occurs, and no other row |
| Listings.InsertByDue | ToDoApplication/ToDoApplication/ToDoApplication/Controllers/HomeController.cs:29 | inserting into a due-date-sorted list keeps it sorted and adds exactly that todo |
| Listings.FirstIsEarliest | ToDoApplication/ToDoApplication/ToDoApplication/Controllers/HomeController.cs:29 | a head due before the inserted todo stays first in sorted order |
| Listings.OrderByDue | ToDoApplication/ToDoApplication/ToDoApplication/Controllers/HomeController.cs:29 | `OrderBy(t => t.DueDate)` yields a due-date-sorted permutation of its input |
| Listings.MinimumExists | ToDoApplication/ToDoApplication/ToDoApplication/Controllers/HomeController.cs:25 | a non-empty set of keys has a least element |
| Listings.AscendingIds | ToDoApplication/ToDoApplication/ToDoApplication/Controllers/HomeController.cs:25 | the table's keys, each once, in strictly ascending order |
| Listings.Rows | ToDoApplication/ToDoApplication/ToDoApplication/Controllers/HomeController.cs:25 | reading the table yields one row per key and exactly the stored rows |
| Listings.RowsOnce | ToDoApplication/ToDoApplication/ToDoApplication/Controllers/HomeController.cs:25 | when every row is stored under its own id, reading the table yields each stored row exactly once |
| Listings.CurrentListing | ToDoApplication/ToDoApplication/ToDoApplication/Controllers/HomeController.cs:25-32 | `Index`'s listing is a sequence of well-formed month groups, strictly ascending by (year, month) |
| Listings.PastListing | ToDoApplication/ToDoApplication/ToDoApplication/Controllers/HomeController.cs:122-130 | `PastTodos`'s listing is absent exactly in January of year 1, where `AddMonths(-1)` fails; otherwise its month groups are well formed |
| Listings.GroupedView | ToDoApplication/ToDoApplication/ToDoApplication/Controllers/HomeController.cs:136-150 | the grouped view holds exactly the input todos, month groups ascending and well formed |
| Listings.OrderedViewMembers | ToDoApplication/ToDoApplication/ToDoApplication/Controllers/HomeController.cs:29-32 | ordering and then grouping neither loses nor adds a todo |
| Listings.CurrentListingMembers | ToDoApplication/ToDoApplication/ToDoApplication/Controllers/HomeController.cs:24-32 | `Index` shows exactly the stored todos due this month or later |
| Listings.CurrentListingCounts | ToDoApplication/ToDoApplication/ToDoApplication/Controllers/HomeController.cs:25-32 | `Index` shows each row it reads that is due this month or later as many times as it is read, and nothing else |
| Listings.CurrentListingOnce | ToDoApplication/ToDoApplication/ToDoApplication/Controllers/HomeController.cs:25-32 | over a table keyed by id, `Index` shows every stored todo due this month or later exactly once, and nothing else |
| Listings.CurrentListingMonths | ToDoApplication/ToDoApplication/ToDoApplication/Controllers/HomeController.cs:24-32 | no month group of `Index` is before now's (year, month) |
| Listings.CurrentListingBucketsSorted | ToDoApplication/ToDoApplication/ToDoApplication/Controllers/HomeController.cs:29-32 | every bucket of `Index` is in due-date order |
| Listings.PastListingMembers | ToDoApplication/ToDoApplication/ToDoApplication/Controllers/HomeController.cs:122-130 | `PastTodos` shows exactly the stored todos due in the previous calendar month |
| Listings.PastListingCounts | ToDoApplication/ToDoApplication/ToDoApplication/Controllers/HomeController.cs:122-130 | `PastTodos` shows each row it reads that is due in the previous calendar month as many times as it is read, and nothing else |
| Listings.PastListingOnce | ToDoApplication/ToDoApplication/ToDoApplication/Controllers/HomeController.cs:122-130 | over a table keyed by id, `PastTodos` shows every stored todo due in the previous calendar month exactly once, and nothing else |
| Listings.SingleMonthView | ToDoApplication/ToDoApplication/ToDoApplication/Controllers/HomeController.cs:139-141 | todos that share one month form at most one month group, keyed by that month |
| Listings.PastListingInput | ToDoApplication/ToDoApplication/ToDoApplication/Controllers/HomeController.cs:122-130 | `PastTodos` groups its sorted rows, all due in the month before now's |
| Listings.PastListingSingleMonth | ToDoApplication/ToDoApplication/ToDoApplication/Controllers/HomeController.cs:122-130 | `PastTodos` has at most one month group |
| Listings.PastListingMonths | ToDoApplication/ToDoApplication/ToDoApplication/Controllers/HomeController.cs:122-130 | `PastTodos`'s month group, if any, is the month before now's |
| Listings.PastListingBucketsSorted | ToDoApplication/ToDoApplication/ToDoApplication/Controllers/HomeController.cs:127-130 | every bucket of `PastTodos` is in due-date order |
| Controllers.ModelStateIsValid | ToDoApplication/ToDoApplication/ToDoApplication/Controllers/HomeController.cs:61 | the form is valid exactly when the title has a visible character and every other posted value converted |
| Controllers.VisibleTitleIsValid | ToDoApplication/ToDoApplication/ToDoApplication/Controllers/HomeController.cs:61 | a title with a visible character passes validation unless another field failed to convert, which always fails it |
| Controllers.NullIfBlank | ToDoApplication/ToDoApplication/ToDoApplication/Controllers/HomeController.cs:59 | a blank posted description binds to no description, any other is kept as posted |
| Controllers.BindCreate | ToDoApplication/ToDoApplication/ToDoApplication/Controllers/HomeController.cs:59 | the created todo has id 0, is not completed, has no creation time, and takes the posted title, due date and description, no description when the posted one is blank |
| Controllers.BindEdit | ToDoApplication/ToDoApplication/ToDoApplication/Controllers/HomeController.cs:89 | the edited todo takes the posted id, completion flag, title, due date and description, no description when the posted one is blank, and has no creation time |
| Controllers.Find | ToDoApplication/ToDoApplication/ToDoApplication/Controllers/HomeController.cs:41 | `FindAsync(id)` yields the row stored under the key, or nothing when the key is absent |
| Controllers.FirstWithId | ToDoApplication/ToDoApplication/ToDoApplication/Controllers/HomeController.cs:178-179 | `FirstOrDefaultAsync(m => m.Id == id)` yields a row with that id, and nothing exactly when no row has it |
| Controllers.FirstWithIdIsFind | ToDoApplication/ToDoApplication/ToDoApplication/Controllers/HomeController.cs:207-208 | under the table invariant, searching rows by id is the same as looking the key up |
| Controllers.AnyWithIdIsKey | ToDoApplication/ToDoApplication/ToDoApplication/Controllers/HomeController.cs:219 | under the table invariant, some row has the id exactly when the id is a key |
| Controllers.Toggle | ToDoApplication/ToDoApplication/ToDoApplication/Controllers/HomeController.cs:41-46 | toggling keeps the set of keys |
| Controllers.ToggleChangesOnlyCompletion | ToDoApplication/ToDoApplication/ToDoApplication/Controllers/HomeController.cs:41-47 | toggling flips the named row's completion flag and changes no other field and no other row; an absent id changes nothing |
| Controllers.ToggleTwiceRestores | ToDoApplication/ToDoApplication/ToDoApplication/Controllers/HomeController.cs:44 | toggling the same id twice gives back the table |
| Controllers.ToggleKeepsInvariant | ToDoApplication/ToDoApplication/ToDoApplication/Controllers/HomeController.cs:44-45 | toggling keeps the table invariant |
| Controllers.Inserted | ToDoApplication/ToDoApplication/ToDoApplication/Controllers/HomeController.cs:63-64 | an inserted row takes the identity value as id and now as creation time, and keeps every other field as posted |
| Controllers.InsertAddsFreshRow | ToDoApplication/ToDoApplication/ToDoApplication/Controllers/HomeController.cs:63-64 | the next identity value is not yet a key; inserting a validated row under it adds one row, keeps every other row and keeps the invariant, non-blank titles included |
| Controllers.UpdatedAsWritten | ToDoApplication/ToDoApplication/ToDoApplication/Controllers/HomeController.cs:100 | as written, the row takes the posted creation time, and differs from the intended edit in that field only |
| Controllers.EditAsWrittenErasesCreatedAt | ToDoApplication/ToDoApplication/ToDoApplication/Controllers/HomeController.cs:100 | as written, every edit leaves the row without a creation time |
| Controllers.EditAsWrittenCounterexample | ToDoApplication/ToDoApplication/ToDoApplication/Controllers/HomeController.cs:100 | a valid edit of a row created on 2024-03-01 loses that creation time |
| Controllers.Updated | ToDoApplication/ToDoApplication/ToDoApplication/Controllers/HomeController.cs:100 | the corrected edit takes every posted field and keeps the row's creation time |
| Controllers.UpdateKeepsInvariant | ToDoApplication/ToDoApplication/ToDoApplication/Controllers/HomeController.cs:100-101 | an edit of an existing row with a validated title that fits its columns keeps the keys, the invariant and every other row |
| Controllers.RemoveKeepsInvariant | ToDoApplication/ToDoApplication/ToDoApplication/Controllers/HomeController.cs:194-195 | removing a row keeps the invariant and every other row |
| Controllers.HomeController.constructor | ToDoApplication/ToDoApplication/ToDoApplication/Controllers/HomeController.cs:15-19 | a controller wraps the injected context's table as it is, any table that satisfies the invariant, including an empty one |
| Controllers.HomeController.Index | ToDoApplication/ToDoApplication/ToDoApplication/Controllers/HomeController.cs:22-36 | `Index` renders the current-and-upcoming listing, whose contents the `CurrentListing` lemmas state |
| Controllers.HomeController.ToggleCompletion | ToDoApplication/ToDoApplication/ToDoApplication/Controllers/HomeController.cs:39-48 | the table becomes `Toggle` of the old table, the invariant holds, and the result is always a redirect to `Index` |
| Controllers.HomeController.CreateGet | ToDoApplication/ToDoApplication/ToDoApplication/Controllers/HomeController.cs:51-54 | the empty Create form is shown |
| Controllers.HomeController.InsertRow | ToDoApplication/ToDoApplication/ToDoApplication/Controllers/HomeController.cs:63-64 | `Add` then `SaveChanges` stores the todo under the next identity value, which was not a key, created now, advances the identity value and keeps the invariant |
| Controllers.HomeController.CreatePost | ToDoApplication/ToDoApplication/ToDoApplication/Controllers/HomeController.cs:59-68 | an invalid form is shown again unchanged with no state change; a field too long for its column fails with no state change; otherwise a fresh row is stored under the next identity value, not completed, created now, and the action redirects |
| Controllers.HomeController.EditGet | ToDoApplication/ToDoApplication/ToDoApplication/Controllers/HomeController.cs:71-84 | not found exactly when the id is missing or unknown; otherwise the stored row is shown |
| Controllers.HomeController.EditPost | ToDoApplication/ToDoApplication/ToDoApplication/Controllers/HomeController.cs:89-117 | not found with no state change when the `id` argument the binder supplies differs from the posted `Id`; an invalid form is shown again; a posted id of 0 is inserted as a new row under the next identity value, created now, unless a field is too long; any other unknown id is not found, or a rethrown conflict when another request created the row meanwhile; a field too long fails; otherwise the row takes the posted fields and the action redirects |
| Controllers.HomeController.PastTodos | ToDoApplication/ToDoApplication/ToDoApplication/Controllers/HomeController.cs:120-134 | `PastTodos` renders the previous-month listing, or fails when `AddMonths(-1)` leaves the calendar |
| Controllers.HomeController.Delete | ToDoApplication/ToDoApplication/ToDoApplication/Controllers/HomeController.cs:171-186 | not found exactly when the id is missing or unknown; otherwise the stored row is shown for confirmation |
| Controllers.HomeController.DeleteConfirmed | ToDoApplication/ToDoApplication/ToDoApplication/Controllers/HomeController.cs:191-197 | an existing row is removed and the action redirects; an unknown id fails on `Remove(null)` and the table is unchanged |
| Controllers.HomeController.Details | ToDoApplication/ToDoApplication/ToDoApplication/Controllers/HomeController.cs:200-215 | not found exactly when the id is missing or unknown; otherwise the stored row is shown |
| Controllers.HomeController.TodoExists | ToDoApplication/ToDoApplication/ToDoApplication/Controllers/HomeController.cs:217-220 | true exactly when the id is a key of the table |

## Left out

- Asynchronous execution, Entity Framework change tracking and SQL: the table is a map, and each action runs alone on it.
- Host start-up, routing, dependency injection and anti-forgery validation (`Program.cs`, the `[ValidateAntiForgeryToken]` attributes): framework configuration outside the controller's logic.
- Views and `ViewData["Title"]`: the rendering layer; a view result carries only its model.
- `GetWeekDescription` and `GetMonthName`: culture-dependent text formatting that no action calls.
- `CultureInfo.CurrentCulture.Calendar`: fixed to the Gregorian calendar; cultures whose calendar is not Gregorian are not modelled.
- `DateTime.Now` and the database's `getdate()`: both are the parameter `now`; time zones and the `datetime` column's 1/300-second precision are not modelled.
- Listings.OrderByDue: SQL leaves the order of rows with equal due dates unspecified; the model reads rows in ascending id order and sorts stably, which is one of the allowed orders.
- Listings.Rows: the order in which the database returns rows is fixed to ascending id, for the same reason.
- Controllers.IsWhiteSpace: only the ASCII white-space characters; Unicode spaces such as U+00A0 count as visible here.
- Controllers.ModelStateIsValid: validation is the implicit requirement on `Title` plus a flag for any value the binder could not convert; the other attribute-driven checks of ASP.NET do not apply to this model class.
- Controllers.BindCreate and Controllers.BindEdit: a blank title is kept as posted, while the binder would set it to `null` before the form is shown again.
- Models.FitsColumns: lengths are counted in Unicode scalar values, while `nvarchar` counts UTF-16 code units, so characters outside the Basic Multilingual Plane count once instead of twice.
- Controllers.HomeController.CreatePost: the identity column is an unbounded counter that goes up by one per insert; 32-bit overflow and gaps left by failed inserts are not modelled.
- Controllers.HomeController.EditPost: the binder's precedence of sources is not modelled; `id` is whatever value the binder supplies, which takes a posted `Id` field before the route value; with a posted `Id` the two agree, so the mismatch branch arises only when the form posts none.
- Controllers.HomeController.EditPost: another request's effect on the table is not modelled; the only trace of concurrency is the flag `rowCreatedMeanwhile`, which stands for the existence check finding a row that this request did not see.
- Controllers.HomeController.EditPost: it stores the corrected `Updated` row, which keeps the creation time; the code as written stores `UpdatedAsWritten` (see Findings).
- Database failures other than a value too long for its column (lost connection, deadlock) are not modelled.
- Edit's concurrency conflict: the `Todo` entity has no concurrency token, so an update fails with a conflict only when no row has the id; a row changed by another request in between is simply overwritten.

## Findings

| source | as written | input that shows it | evidently intended | confidence | as-written member | corrected member |
|---|---|---|---|---|---|---|
| ToDoApplication/ToDoApplication/ToDoApplication/Controllers/HomeController.cs:100 | the Edit form binds no `CreatedAt`, and `Update` writes every column, so the row's creation time becomes `null` | row 7 created at 2024-03-01 12:00, then a valid Edit POST for id 7 with title "Report" | an edit changes title, description, due date and completion, and the creation time stays as the database set it | not executed; high, from the documented behaviour of `Update` on a detached entity | Controllers.EditAsWrittenCounterexample | Controllers.Updated |
