/** The `Todo` entity and the column limits its table imposes. */
module Models {
  import opened Wrappers
  import opened Calendar

  /**
    One row of the `Todos` table. `dueDate` and `createdAt` may be absent; `createdAt` is
    filled in by the database when the row is inserted.
   */
  datatype Todo = Todo(
    id: int,
    title: string,
    description: Option<string>,
    dueDate: Option<DateTime>,
    isCompleted: bool,
    createdAt: Option<DateTime>)

  /** Maximum lengths of the `Title` and `Description` columns. */
  const TitleMaxLength: int := 255
  const DescriptionMaxLength: int := 1000

  /** The row fits its columns: the database refuses to store a longer title or description. */
  predicate FitsColumns(t: Todo)
  {
    && |t.title| <= TitleMaxLength
    && (t.description.Some? ==> |t.description.value| <= DescriptionMaxLength)
  }
}
