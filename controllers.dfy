/**
  `HomeController`: the actions of the todo application over the `Todos` table. The table is
  a map from primary key to row, together with the next value of the identity column; every
  action works on one request at a time, and "now" is passed in. The pure functions below
  give each state change a name so that lemmas can speak about it; the class performs them.
 */
module Controllers {
  import opened Wrappers
  import opened Calendar
  import opened Models
  import opened TodoGrouping
  import opened Listings

  /** What a view is rendered with. */
  datatype ViewModel = NoModel | TodoModel(todo: Todo) | ListModel(groups: seq<GroupedTodos>)

  /** Exceptions the actions do not catch; the request ends with a server error. */
  datatype Fault =
    | NullEntity           // `Remove(null)` in `DeleteConfirmed` when no row has the id
    | ColumnOverflow       // `SaveChanges` rejects a title or description longer than its column
    | ConcurrencyConflict  // `Edit` rethrows the concurrency exception when the row exists after all
    | DateOutOfRange       // `AddMonths(-1)` leaves the calendar in `PastTodos`

  datatype ActionResult = View(model: ViewModel) | NotFound | RedirectToIndex | Failed(fault: Fault)

  /** The fields the Create form posts (`Bind("Title,Description,DueDate")`). */
  datatype CreateForm = CreateForm(
    title: string,
    description: string,
    dueDate: Option<DateTime>,
    otherErrors: bool)  // some posted value could not be converted, e.g. an unreadable date

  /** The fields the Edit form posts (`Bind("Id,Title,Description,DueDate,IsCompleted")`). */
  datatype EditForm = EditForm(
    id: int,
    title: string,
    description: string,
    dueDate: Option<DateTime>,
    isCompleted: bool,
    otherErrors: bool)

  /** The white-space characters of the ASCII range, as `char.IsWhiteSpace` classifies them. */
  predicate IsWhiteSpace(c: char)
  {
    c == ' ' || c == '\t' || c == '\n' || c == '\r' || c == '\U{0B}' || c == '\U{0C}'
  }

  predicate IsBlank(s: string)
  {
    forall i :: 0 <= i < |s| ==> IsWhiteSpace(s[i])
  }

  /** The model binder turns a blank posted string into `null`. */
  function NullIfBlank(s: string): (r: Option<string>)
    ensures r.None? <==> IsBlank(s)
    ensures r.Some? ==> r.value == s
  {
    if IsBlank(s) then None else Some(s)
  }

  /**
    `ModelState.IsValid`: `Title` is a non-nullable string and so implicitly required, which
    a blank title fails; any value the binder could not convert is an error too.
   */
  predicate ModelStateIsValid(title: string, otherErrors: bool): (b: bool)
    ensures b <==> !otherErrors && exists i :: 0 <= i < |title| && !IsWhiteSpace(title[i])
  {
    !IsBlank(title) && !otherErrors
  }

  /** A title holding one visible character is enough for a form without other errors. */
  lemma VisibleTitleIsValid(title: string, i: int)
    requires 0 <= i < |title| && !IsWhiteSpace(title[i])
    ensures ModelStateIsValid(title, false)
    ensures !ModelStateIsValid(title, true)
  {
  }

  /** The `Todo` the Create action receives: no id (0), not completed, no creation time. */
  function BindCreate(f: CreateForm): (t: Todo)
    ensures t.id == 0 && !t.isCompleted && t.createdAt.None?
    ensures t.title == f.title && t.dueDate == f.dueDate
    ensures t.description.None? <==> IsBlank(f.description)
    ensures t.description.Some? ==> t.description.value == f.description
  {
    Todo(0, f.title, NullIfBlank(f.description), f.dueDate, false, None)
  }

  /** The `Todo` the Edit action receives: `CreatedAt` is not among the bound fields. */
  function BindEdit(f: EditForm): (t: Todo)
    ensures t.id == f.id && t.isCompleted == f.isCompleted && t.createdAt.None?
    ensures t.title == f.title && t.dueDate == f.dueDate
    ensures t.description.None? <==> IsBlank(f.description)
    ensures t.description.Some? ==> t.description.value == f.description
  {
    Todo(f.id, f.title, NullIfBlank(f.description), f.dueDate, f.isCompleted, None)
  }

  /**
    The table's invariant: every row is stored under its own id, ids are positive and below
    the identity column's next value, every row fits its columns, and no stored title is blank,
    since every write happens only after validation.
   */
  predicate StoreInvariant(store: map<int, Todo>, nextId: int)
  {
    && nextId >= 1
    && forall id :: id in store ==>
         && store[id].id == id && 1 <= id < nextId
         && FitsColumns(store[id]) && !IsBlank(store[id].title)
  }

  /** `FindAsync(id)`: the row with primary key `id`, if any. */
  function Find(store: map<int, Todo>, id: int): (r: Option<Todo>)
    ensures r.Some? <==> id in store
    ensures r.Some? ==> r.value == store[id]
  {
    if id in store then Some(store[id]) else None
  }

  /** `FirstOrDefaultAsync(m => m.Id == id)`: the first row, in table order, with that id. */
  function FirstWithId(rows: seq<Todo>, id: int): (r: Option<Todo>)
    ensures r.Some? ==> r.value in rows && r.value.id == id
    ensures r.None? <==> forall t :: t in rows ==> t.id != id
  {
    if rows == [] then None
    else if rows[0].id == id then Some(rows[0])
    else FirstWithId(rows[1..], id)
  }

  /** Under the invariant, searching the rows by id finds exactly the row stored under that key. */
  lemma FirstWithIdIsFind(store: map<int, Todo>, nextId: int, id: int)
    requires StoreInvariant(store, nextId)
    ensures FirstWithId(Rows(store), id) == Find(store, id)
  {
    var r := FirstWithId(Rows(store), id);
    if r.Some? {
      assert r.value in store.Values;
      var k :| k in store && store[k] == r.value;
    }
  }

  /** `Todos.Any(e => e.Id == id)`. */
  predicate AnyWithId(rows: seq<Todo>, id: int)
  {
    exists t :: t in rows && t.id == id
  }

  /** Under the invariant, some row carries the id exactly when the id is a key. */
  lemma AnyWithIdIsKey(store: map<int, Todo>, nextId: int, id: int)
    requires StoreInvariant(store, nextId)
    ensures AnyWithId(Rows(store), id) <==> id in store
  {
    FirstWithIdIsFind(store, nextId, id);
  }

  /** `todo.IsCompleted = !todo.IsCompleted` on the row with key `id`, when there is one. */
  function Toggle(store: map<int, Todo>, id: int): (r: map<int, Todo>)
    ensures r.Keys == store.Keys
  {
    if id in store then store[id := store[id].(isCompleted := !store[id].isCompleted)] else store
  }

  /**
    Toggling changes the completion flag of the one row it names and nothing else; a missing
    id leaves the table as it was.
   */
  lemma ToggleChangesOnlyCompletion(store: map<int, Todo>, id: int)
    ensures var r := Toggle(store, id);
      && r.Keys == store.Keys
      && (forall k :: k in store && k != id ==> r[k] == store[k])
      && (id in store ==>
            && r[id].isCompleted == !store[id].isCompleted
            && r[id].(isCompleted := store[id].isCompleted) == store[id])
      && (id !in store ==> r == store)
  {
  }

  /** Toggling the same row twice gives back the table. */
  lemma ToggleTwiceRestores(store: map<int, Todo>, id: int)
    ensures Toggle(Toggle(store, id), id) == store
  {
    if id in store {
      var r := Toggle(Toggle(store, id), id);
      assert r[id] == store[id];
      assert forall k :: k in r ==> r[k] == store[k];
    }
  }

  lemma ToggleKeepsInvariant(store: map<int, Todo>, nextId: int, id: int)
    requires StoreInvariant(store, nextId)
    ensures StoreInvariant(Toggle(store, id), nextId)
  {
  }

  /**
    The row the database stores for a created todo: the identity column supplies the id, and
    `CreatedAt`, left null, takes the column default `getdate()`.
   */
  function Inserted(t: Todo, id: int, now: DateTime): (r: Todo)
    ensures r.id == id && r.createdAt == Some(now)
    ensures r.(id := t.id, createdAt := t.createdAt) == t
  {
    t.(id := id, createdAt := Some(now))
  }

  /** Inserting under the next identity value adds one fresh row and keeps every other row. */
  lemma InsertAddsFreshRow(store: map<int, Todo>, nextId: int, t: Todo, now: DateTime)
    requires StoreInvariant(store, nextId) && FitsColumns(t) && !IsBlank(t.title)
    ensures nextId !in store
    ensures var r := store[nextId := Inserted(t, nextId, now)];
      && StoreInvariant(r, nextId + 1)
      && r.Keys == store.Keys + {nextId}
      && |r| == |store| + 1
      && (forall k :: k in store ==> r[k] == store[k])
  {
  }

  /**
    The row the Edit action writes as written: `Update` marks every mapped column modified,
    so the row becomes the posted todo, whose `CreatedAt` the form never carries.
   */
  function UpdatedAsWritten(current: Todo, posted: Todo): (r: Todo)
    ensures r.createdAt == posted.createdAt
    ensures r.(createdAt := current.createdAt) == Updated(current, posted)
  {
    posted
  }

  /** Whatever the form posts, the row written as written has lost its creation time. */
  lemma EditAsWrittenErasesCreatedAt(current: Todo, f: EditForm)
    ensures UpdatedAsWritten(current, BindEdit(f)).createdAt == None
  {
  }

  /** A row created at noon on 1 March 2024 and edited afterwards no longer has its creation time. */
  lemma EditAsWrittenCounterexample()
    ensures var current := Todo(7, "Report", None, None, false, Some(DateTimeParts(2024, 3, 1, 432_000_000_000)));
      var f := EditForm(7, "Report", "", None, true, false);
      && ModelStateIsValid(f.title, f.otherErrors)
      && UpdatedAsWritten(current, BindEdit(f)).createdAt != current.createdAt
  {
    var current := Todo(7, "Report", None, None, false, Some(DateTimeParts(2024, 3, 1, 432_000_000_000)));
    var f := EditForm(7, "Report", "", None, true, false);
    VisibleTitleIsValid(f.title, 0);
  }

  /** The edit as intended: the posted fields replace the row's, its creation time stays. */
  function Updated(current: Todo, posted: Todo): (r: Todo)
    ensures r.createdAt == current.createdAt
    ensures r.(createdAt := posted.createdAt) == posted
  {
    posted.(createdAt := current.createdAt)
  }

  lemma UpdateKeepsInvariant(store: map<int, Todo>, nextId: int, posted: Todo)
    requires StoreInvariant(store, nextId)
    requires posted.id in store && FitsColumns(posted) && !IsBlank(posted.title)
    ensures var r := store[posted.id := Updated(store[posted.id], posted)];
      && StoreInvariant(r, nextId)
      && r.Keys == store.Keys
      && (forall k :: k in store && k != posted.id ==> r[k] == store[k])
  {
  }

  /** Removing a row keeps the invariant and every other row. */
  lemma RemoveKeepsInvariant(store: map<int, Todo>, nextId: int, id: int)
    requires StoreInvariant(store, nextId)
    ensures var r := store - {id};
      && StoreInvariant(r, nextId)
      && r.Keys == store.Keys - {id}
      && (forall k :: k in r ==> r[k] == store[k])
  {
  }

  /** The controller with the table it works on. */
  class HomeController {
    var todos: map<int, Todo>
    var nextId: int

    ghost predicate Valid()
      reads this
    {
      StoreInvariant(todos, nextId)
    }

    /** A controller over the injected context's table, which may hold any valid rows. */
    constructor(store: map<int, Todo>, next: int)
      requires StoreInvariant(store, next)
      ensures Valid() && todos == store && nextId == next
    {
      todos := store;
      nextId := next;
    }

    /** `Index`: the todos due this month or later, by due date, grouped by month and week. */
    method Index(now: DateTime) returns (result: ActionResult)
      requires Valid()
      ensures result == View(ListModel(CurrentListing(todos, now)))
    {
      result := View(ListModel(CurrentListing(todos, now)));
    }

    /** `ToggleCompletion`: flips the completion flag of the row, if there is one, and goes back to the list. */
    method ToggleCompletion(id: int) returns (result: ActionResult)
      requires Valid()
      modifies this
      ensures Valid()
      ensures todos == Toggle(old(todos), id) && nextId == old(nextId)
      ensures result == RedirectToIndex
    {
      var todo := Find(todos, id);
      if todo.Some? {
        todos := todos[id := todo.value.(isCompleted := !todo.value.isCompleted)];
      }
      result := RedirectToIndex;
    }

    /** `Create` (GET): the empty form. */
    method CreateGet() returns (result: ActionResult)
      ensures result == View(NoModel)
    {
      result := View(NoModel);
    }

    /** `Add` then `SaveChanges`: the row goes in under the next identity value. */
    method InsertRow(todo: Todo, now: DateTime)
      requires Valid() && FitsColumns(todo) && !IsBlank(todo.title)
      modifies this
      ensures Valid()
      ensures old(nextId) !in old(todos)
      ensures todos == old(todos)[old(nextId) := Inserted(todo, old(nextId), now)]
      ensures nextId == old(nextId) + 1
    {
      InsertAddsFreshRow(todos, nextId, todo, now);
      todos := todos[nextId := Inserted(todo, nextId, now)];
      nextId := nextId + 1;
    }

    /**
      `Create` (POST): an invalid form is shown again with what was posted; a valid one is
      inserted under the next identity value unless a field is too long for its column.
     */
    method CreatePost(form: CreateForm, now: DateTime) returns (result: ActionResult)
      requires Valid()
      modifies this
      ensures Valid()
      ensures var todo := BindCreate(form);
        if !ModelStateIsValid(form.title, form.otherErrors) then
          result == View(TodoModel(todo)) && todos == old(todos) && nextId == old(nextId)
        else if !FitsColumns(todo) then
          result == Failed(ColumnOverflow) && todos == old(todos) && nextId == old(nextId)
        else
          && result == RedirectToIndex
          && old(nextId) !in old(todos)
          && todos == old(todos)[old(nextId) := Inserted(todo, old(nextId), now)]
          && nextId == old(nextId) + 1
    {
      var todo := BindCreate(form);
      if !ModelStateIsValid(form.title, form.otherErrors) {
        return View(TodoModel(todo));
      }
      if !FitsColumns(todo) {
        return Failed(ColumnOverflow);
      }
      InsertRow(todo, now);
      result := RedirectToIndex;
    }

    /** `Edit` (GET): the form for the row, or not found when the id is missing or unknown. */
    method EditGet(id: Option<int>) returns (result: ActionResult)
      requires Valid()
      ensures result == NotFound <==> id.None? || id.value !in todos
      ensures result != NotFound ==> result == View(TodoModel(todos[id.value]))
    {
      if id.None? {
        return NotFound;
      }
      var todo := Find(todos, id.value);
      if todo.None? {
        return NotFound;
      }
      result := View(TodoModel(todo.value));
    }

    /**
      `Edit` (POST): an `id` argument, as the binder supplies it, that differs from the posted
      `Id` is not found; an invalid form is shown again; a valid one replaces the row's
      fields, keeping its creation time.
      A posted id of 0 is the unset value of a store-generated key, so `Update` tracks the
      todo as new and saving inserts it as `Create` does. Any other id no row has makes the
      update touch no row, which the runtime reports as a concurrency conflict; the handler
      then answers not found unless a row with the id exists by the time it looks, which only
      another request can have created (`rowCreatedMeanwhile`), and then it rethrows.
     */
    method EditPost(id: int, form: EditForm, now: DateTime, rowCreatedMeanwhile: bool) returns (result: ActionResult)
      requires Valid()
      modifies this
      ensures Valid()
      ensures var todo := BindEdit(form);
        if id != form.id then
          result == NotFound && todos == old(todos) && nextId == old(nextId)
        else if !ModelStateIsValid(form.title, form.otherErrors) then
          result == View(TodoModel(todo)) && todos == old(todos) && nextId == old(nextId)
        else if !FitsColumns(todo) && (form.id == 0 || form.id in old(todos)) then
          result == Failed(ColumnOverflow) && todos == old(todos) && nextId == old(nextId)
        else if form.id == 0 then
          && result == RedirectToIndex
          && old(nextId) !in old(todos)
          && todos == old(todos)[old(nextId) := Inserted(todo, old(nextId), now)]
          && nextId == old(nextId) + 1
        else if form.id !in old(todos) then
          && result == (if rowCreatedMeanwhile then Failed(ConcurrencyConflict) else NotFound)
          && todos == old(todos) && nextId == old(nextId)
        else
          && result == RedirectToIndex
          && todos == old(todos)[form.id := Updated(old(todos)[form.id], todo)]
          && nextId == old(nextId)
    {
      var todo := BindEdit(form);
      if id != todo.id {
        return NotFound;
      }
      if !ModelStateIsValid(form.title, form.otherErrors) {
        return View(TodoModel(todo));
      }
      if todo.id == 0 {
        if !FitsColumns(todo) {
          return Failed(ColumnOverflow);
        }
        InsertRow(todo, now);
        return RedirectToIndex;
      }
      var current := Find(todos, todo.id);
      if current.None? {
        var found := TodoExists(todo.id);
        if found || rowCreatedMeanwhile {
          return Failed(ConcurrencyConflict);
        }
        return NotFound;
      }
      if !FitsColumns(todo) {
        return Failed(ColumnOverflow);
      }
      UpdateKeepsInvariant(todos, nextId, todo);
      todos := todos[todo.id := Updated(current.value, todo)];
      result := RedirectToIndex;
    }

    /** `PastTodos`: the todos due in the previous calendar month, grouped like `Index`. */
    method PastTodos(now: DateTime) returns (result: ActionResult)
      requires Valid()
      ensures PastListing(todos, now).None? ==> result == Failed(DateOutOfRange)
      ensures PastListing(todos, now).Some? ==> result == View(ListModel(PastListing(todos, now).value))
    {
      var listing := PastListing(todos, now);
      if listing.None? {
        return Failed(DateOutOfRange);
      }
      result := View(ListModel(listing.value));
    }

    /** `Delete` (GET): the confirmation page for the row, or not found. */
    method Delete(id: Option<int>) returns (result: ActionResult)
      requires Valid()
      ensures result == NotFound <==> id.None? || id.value !in todos
      ensures result != NotFound ==> result == View(TodoModel(todos[id.value]))
    {
      if id.None? {
        return NotFound;
      }
      var todo := FirstWithId(Rows(todos), id.value);
      FirstWithIdIsFind(todos, nextId, id.value);
      if todo.None? {
        return NotFound;
      }
      result := View(TodoModel(todo.value));
    }

    /**
      `Delete` (POST): removes the row and goes back to the list. With no such row, `Remove`
      is handed `null` and throws, and the table stays as it was.
     */
    method DeleteConfirmed(id: int) returns (result: ActionResult)
      requires Valid()
      modifies this
      ensures Valid() && nextId == old(nextId)
      ensures id in old(todos) ==> result == RedirectToIndex && todos == old(todos) - {id}
      ensures id !in old(todos) ==> result == Failed(NullEntity) && todos == old(todos)
    {
      var todo := Find(todos, id);
      if todo.None? {
        return Failed(NullEntity);
      }
      RemoveKeepsInvariant(todos, nextId, id);
      todos := todos - {id};
      result := RedirectToIndex;
    }

    /** `Details`: the row, or not found when the id is missing or unknown. */
    method Details(id: Option<int>) returns (result: ActionResult)
      requires Valid()
      ensures result == NotFound <==> id.None? || id.value !in todos
      ensures result != NotFound ==> result == View(TodoModel(todos[id.value]))
    {
      if id.None? {
        return NotFound;
      }
      var todo := FirstWithId(Rows(todos), id.value);
      FirstWithIdIsFind(todos, nextId, id.value);
      if todo.None? {
        return NotFound;
      }
      result := View(TodoModel(todo.value));
    }

    /** `TodoExists`: some row has the id, which under the invariant means the id is a key. */
    method TodoExists(id: int) returns (b: bool)
      requires Valid()
      ensures b <==> id in todos
    {
      AnyWithIdIsKey(todos, nextId, id);
      b := AnyWithId(Rows(todos), id);
    }
  }
}
