/** The `task` table row and the two request bodies that create and update it. */
module TaskEntity {
  import opened Results

  /** One row of the `task` table. `id` is the primary key; `owner` is the
      username of the owning user (usernames are unique, so it identifies the user). */
  datatype Task = Task(id: int, title: string, cost: string, completed: bool, date: string, owner: string)

  /** The body of a create request. */
  datatype CreateTaskDto = CreateTaskDto(title: string, cost: string, completed: bool, date: string, username: string)

  /** The body of an update request: every field is optional. */
  datatype UpdateTaskDto = UpdateTaskDto(
    title: Option<string>,
    cost: Option<string>,
    completed: Option<bool>,
    date: Option<string>)

  /** An update request that supplies no field. */
  const NoChange := UpdateTaskDto(None, None, None, None)

  function Supplied<T>(field: Option<T>, current: T): T {
    match field
    case Some(v) => v
    case None => current
  }

  /** `Object.assign(task, dto)`: the fields present in the request overwrite the row's. */
  function ApplyUpdate(t: Task, dto: UpdateTaskDto): (r: Task)
    ensures r.id == t.id && r.owner == t.owner
    ensures dto.title.Some? ==> r.title == dto.title.value
    ensures dto.title.None? ==> r.title == t.title
    ensures dto.cost.Some? ==> r.cost == dto.cost.value
    ensures dto.cost.None? ==> r.cost == t.cost
    ensures dto.completed.Some? ==> r.completed == dto.completed.value
    ensures dto.completed.None? ==> r.completed == t.completed
    ensures dto.date.Some? ==> r.date == dto.date.value
    ensures dto.date.None? ==> r.date == t.date
  {
    t.(title := Supplied(dto.title, t.title),
       cost := Supplied(dto.cost, t.cost),
       completed := Supplied(dto.completed, t.completed),
       date := Supplied(dto.date, t.date))
  }

  /** Sending the same update twice has the effect of sending it once. */
  lemma ApplyUpdateIdempotent(t: Task, dto: UpdateTaskDto)
    ensures ApplyUpdate(ApplyUpdate(t, dto), dto) == ApplyUpdate(t, dto)
  {
  }

  /** An update that supplies no field leaves the row as it was. */
  lemma ApplyNoChange(t: Task)
    ensures ApplyUpdate(t, NoChange) == t
  {
  }
}
