/** The task service: creating, listing, deleting and updating tasks while the
    ids stay the smallest positive integers in use. */
module TasksService {
  import opened Results
  import opened TaskEntity
  import opened Ordering
  import opened TaskTable

  /** The id scan of createTask: walks the ascending ids while each equals its
      1-based position and stops at the first that does not. */
  method NextFreeId(ids: seq<int>) returns (newId: int)
    ensures 1 <= newId <= |ids| + 1
    ensures forall j :: 0 <= j < newId - 1 ==> ids[j] == j + 1
    ensures newId <= |ids| ==> ids[newId - 1] != newId
    ensures (forall j :: 0 <= j < |ids| ==> ids[j] == j + 1) ==> newId == |ids| + 1
    ensures StrictlyAscending(ids) && (forall j :: 0 <= j < |ids| ==> 1 <= ids[j]) ==>
      newId !in ids && forall v :: 1 <= v < newId ==> v in ids
  {
    newId := 1;
    for i := 0 to |ids|
      invariant newId == i + 1
      invariant forall j :: 0 <= j < i ==> ids[j] == j + 1
    {
      if ids[i] == newId {
        newId := newId + 1;
      } else {
        break;
      }
    }
    if StrictlyAscending(ids) && (forall j :: 0 <= j < |ids| ==> 1 <= ids[j]) {
      forall v | 1 <= v < newId ensures v in ids {
        assert ids[v - 1] == v;
      }
      if newId <= |ids| {
        assert newId < ids[newId - 1] by {
          if newId > 1 { assert ids[newId - 2] == newId - 1; }
        }
        forall j | 0 <= j < |ids| ensures ids[j] != newId {
          if j > newId - 1 { assert ids[newId - 1] < ids[j]; }
        }
      }
    }
  }

  /** The row at index `j` of the table being renumbered has already moved down:
      its original id lies above the deleted `k` and below the next id to move. */
  ghost predicate Moved(x: int, k: int, toShift: seq<int>, i: nat)
    requires i <= |toShift|
  {
    k < x && (i == |toShift| || x < toShift[i])
  }

  /** The state after the first `i` renumberings of deleteTask's loop. */
  ghost predicate RenumberedUpTo(rows: seq<Task>, base: seq<Task>, k: int, toShift: seq<int>, i: nat)
    requires i <= |toShift|
  {
    |rows| == |base| &&
    forall j :: 0 <= j < |base| ==> rows[j] == if Moved(base[j].id, k, toShift, i) then Lower(base[j], k) else base[j]
  }

  /** What the renumbering loop works on: the rows left after the delete, and
      every id above `k` among them, ascending. */
  ghost predicate ShiftPlan(base: seq<Task>, k: int, toShift: seq<int>) {
    DistinctIds(base) &&
    (forall j :: 0 <= j < |base| ==> base[j].id != k) &&
    StrictlyAscending(toShift) &&
    (forall x :: x in toShift <==> k < x && exists j :: 0 <= j < |base| && base[j].id == x)
  }

  /** Between any two renumberings the ids remain pairwise distinct. */
  lemma RenumberedDistinct(rows: seq<Task>, base: seq<Task>, k: int, toShift: seq<int>, i: nat)
    requires i <= |toShift| && ShiftPlan(base, k, toShift) && RenumberedUpTo(rows, base, k, toShift, i)
    ensures DistinctIds(rows)
  {
    forall a, b | 0 <= a < b < |rows| ensures rows[a].id != rows[b].id {
      assert base[a].id != base[b].id;
    }
  }

  /** One iteration of the loop: renumbering `toShift[i]` to one less moves exactly
      the row holding it. */
  lemma RenumberStep(rows: seq<Task>, base: seq<Task>, k: int, toShift: seq<int>, i: nat)
    requires i < |toShift| && ShiftPlan(base, k, toShift) && RenumberedUpTo(rows, base, k, toShift, i)
    ensures RenumberedUpTo(Renumber(rows, toShift[i], toShift[i] - 1), base, k, toShift, i + 1)
  {
    var f := toShift[i];
    var rows' := Renumber(rows, f, f - 1);
    assert f in toShift;
    forall j | 0 <= j < |base|
      ensures rows'[j] == if Moved(base[j].id, k, toShift, i + 1) then Lower(base[j], k) else base[j]
    {
      var x := base[j].id;
      if Moved(x, k, toShift, i) {
        assert i + 1 < |toShift| ==> f < toShift[i + 1];
      } else if x > f {
        assert x in toShift;
        var m :| 0 <= m < |toShift| && toShift[m] == x;
        assert m > i;
        assert m > i + 1 ==> toShift[i + 1] < toShift[m];
      }
    }
  }

  /** The rows left by the delete have distinct ids, none of them the deleted one. */
  lemma RemainderDistinct(s: seq<Task>, p: nat)
    requires DistinctIds(s) && p < |s|
    ensures DistinctIds(Remove(s, s[p].id))
    ensures forall j :: 0 <= j < |Remove(s, s[p].id)| ==> Remove(s, s[p].id)[j].id != s[p].id
  {
    var base := Remove(s, s[p].id);
    CompactShape(s, p);
    RemoveIsSlice(s, p);
    assert forall j :: 0 <= j < |base| ==> base[j] == s[Origin(j, p)] by {
      forall j | 0 <= j < |base| ensures base[j] == s[Origin(j, p)] {
        if j < p { assert base[j] == s[..p][j]; } else { assert base[j] == s[p + 1..][j - p]; }
      }
    }
    forall a, b | 0 <= a < b < |base| ensures base[a].id != base[b].id {
      assert Origin(a, p) < Origin(b, p);
    }
  }

  /** The ids above `k`, read in ascending order, are strictly ascending and are
      exactly the ids above `k` in the table. */
  lemma AscendingIdsAbove(base: seq<Task>, k: int)
    requires DistinctIds(base)
    ensures StrictlyAscending(SortAsc(Above(Ids(base), k)))
    ensures forall x :: x in SortAsc(Above(Ids(base), k)) <==> k < x && exists j :: 0 <= j < |base| && base[j].id == x
  {
    var toShift := SortAsc(Above(Ids(base), k));
    assert Distinct(Ids(base));
    forall x ensures x in toShift <==> k < x && exists j :: 0 <= j < |base| && base[j].id == x {
      assert x in toShift <==> x in multiset(Above(Ids(base), k));
      if x in Ids(base) {
        var j :| 0 <= j < |base| && Ids(base)[j] == x;
        assert base[j].id == x;
      }
      if exists j :: 0 <= j < |base| && base[j].id == x {
        var j :| 0 <= j < |base| && base[j].id == x;
        assert Ids(base)[j] == x;
      }
    }
  }

  /** The rows left by the delete and the ascending ids above the deleted one form a plan. */
  lemma PlanAfterDelete(s: seq<Task>, p: nat)
    requires WellFormed(s) && p < |s|
    ensures ShiftPlan(Remove(s, s[p].id), s[p].id, SortAsc(Above(Ids(Remove(s, s[p].id)), s[p].id)))
  {
    RemainderDistinct(s, p);
    AscendingIdsAbove(Remove(s, s[p].id), s[p].id);
  }

  /** Before the loop no row has moved: no id above `k` lies below the smallest one. */
  lemma RenumberedNone(base: seq<Task>, k: int, toShift: seq<int>)
    requires ShiftPlan(base, k, toShift)
    ensures RenumberedUpTo(base, base, k, toShift, 0)
  {
    forall j | 0 <= j < |base| && k < base[j].id ensures !Moved(base[j].id, k, toShift, 0) {
      assert base[j].id in toShift;
      var m :| 0 <= m < |toShift| && toShift[m] == base[j].id;
      assert m > 0 ==> toShift[0] < toShift[m];
    }
  }

  /** When the loop has run through every id, the table is the compacted one. */
  lemma RenumberedAll(rows: seq<Task>, base: seq<Task>, k: int, toShift: seq<int>)
    requires RenumberedUpTo(rows, base, k, toShift, |toShift|)
    ensures rows == ShiftAbove(base, k)
  {
  }

  class TaskService {
    /** The rows of the `task` table, in storage order. */
    var tasks: seq<Task>
    /** The usernames the user service finds (`userService.findOne`). */
    var users: set<string>

    ghost predicate Valid()
      reads this
    {
      WellFormed(tasks)
    }

    constructor (knownUsers: set<string>, rows: seq<Task>)
      requires WellFormed(rows)
      ensures Valid() && users == knownUsers && tasks == rows
    {
      users := knownUsers;
      tasks := rows;
    }

    /** createTask: rejects an unknown owner and a title the owner already uses,
        otherwise stores a new row under the least free id. */
    method CreateTask(dto: CreateTaskDto) returns (r: Result<Task>)
      requires Valid()
      modifies this`tasks
      ensures Valid()
      ensures dto.username !in users ==> r == Err(UserNotFound) && tasks == old(tasks)
      ensures dto.username in users && HasTitle(old(tasks), dto.username, dto.title) ==>
        r == Err(TitleConflict) && tasks == old(tasks)
      ensures dto.username in users && !HasTitle(old(tasks), dto.username, dto.title) ==>
        && r.Ok?
        && r.value == Task(r.value.id, dto.title, dto.cost, dto.completed, dto.date, dto.username)
        && IsLeastFreeId(r.value.id, IdSet(old(tasks)))
        && r.value.id <= |old(tasks)| + 1
        && tasks == old(tasks) + [r.value]
      ensures old(Dense(tasks)) ==> Dense(tasks) && (r.Ok? ==> r.value.id == |old(tasks)| + 1)
      ensures old(TitlesUniquePerOwner(tasks)) ==> TitlesUniquePerOwner(tasks)
    {
      if dto.username !in users {
        return Err(UserNotFound);
      }
      if HasTitle(tasks, dto.username, dto.title) {
        return Err(TitleConflict);
      }
      var existing := SortAsc(Ids(tasks));
      SortedIds(tasks);
      var newId := NextFreeId(existing);
      var task := Task(newId, dto.title, dto.cost, dto.completed, dto.date, dto.username);
      AppendKeepsWellFormed(tasks, task);
      if TitlesUniquePerOwner(tasks) {
        AppendKeepsTitlesUnique(tasks, task);
      }
      if Dense(tasks) {
        AppendKeepsDense(tasks, task);
        DenseLeastFreeId(tasks, newId);
      }
      tasks := tasks + [task];
      r := Ok(task);
    }

    /** findTasksByUser: the tasks whose owner is `username`, each as often as it is stored. */
    function FindTasksByUser(username: string): (r: seq<Task>)
      reads this
      ensures forall t :: t in r <==> t in tasks && t.owner == username
      ensures forall t :: multiset(r)[t] == if t.owner == username then multiset(tasks)[t] else 0
    {
      OwnedBy(tasks, username)
    }

    /** deleteTask: rejects an absent id; otherwise, as one transaction, deletes the
        row and moves every larger id down by one, smallest first. */
    method DeleteTask(id: int) returns (r: Result<()>)
      requires Valid()
      modifies this`tasks
      ensures Valid()
      ensures id !in IdSet(old(tasks)) ==> r == Err(TaskNotFound) && tasks == old(tasks)
      ensures id in IdSet(old(tasks)) ==> r == Ok(()) && tasks == Compact(old(tasks), id)
      ensures old(Dense(tasks)) ==> Dense(tasks)
    {
      var table := tasks;
      var found := FindById(table, id);
      if found.None? {
        return Err(TaskNotFound);
      }
      // The transaction works on its own copy of the table and commits it at the end.
      RemoveIsSlice(table, found.value);
      var rows := Remove(table, id);
      ghost var base := rows;
      var toShift := SortAsc(Above(Ids(rows), id));
      PlanAfterDelete(table, found.value);
      RenumberedNone(base, id, toShift);
      var i := 0;
      while i < |toShift|
        invariant 0 <= i <= |toShift|
        invariant RenumberedUpTo(rows, base, id, toShift, i)
        invariant DistinctIds(rows)
      {
        RenumberStep(rows, base, id, toShift, i);
        rows := Renumber(rows, toShift[i], toShift[i] - 1);
        i := i + 1;
        RenumberedDistinct(rows, base, id, toShift, i);
      }
      RenumberedAll(rows, base, id, toShift);
      CompactKeepsWellFormed(table, found.value);
      if Dense(table) {
        CompactKeepsDense(table, found.value);
      }
      tasks := rows;
      r := Ok(());
    }

    /** updateTask: rejects an absent id; otherwise merges the supplied fields into
        the row and saves it. The id space is not touched. */
    method UpdateTask(id: int, dto: UpdateTaskDto) returns (r: Result<Task>)
      requires Valid()
      modifies this`tasks
      ensures Valid()
      ensures id !in IdSet(old(tasks)) ==> r == Err(TaskNotFound) && tasks == old(tasks)
      ensures id in IdSet(old(tasks)) ==>
        FindById(old(tasks), id).Some? &&
        var p := FindById(old(tasks), id).value;
        && r == Ok(ApplyUpdate(old(tasks)[p], dto))
        && tasks == old(tasks)[p := r.value]
      ensures Ids(tasks) == Ids(old(tasks))
      ensures old(Dense(tasks)) ==> Dense(tasks)
    {
      var found := FindById(tasks, id);
      if found.None? {
        return Err(TaskNotFound);
      }
      var task := ApplyUpdate(tasks[found.value], dto);
      ghost var before := tasks;
      tasks := tasks[found.value := task];
      assert Ids(tasks) == Ids(before);
      assert forall v :: v in IdSet(tasks) <==> v in IdSet(before) by {
        forall v ensures v in IdSet(tasks) <==> v in IdSet(before) {
          if v in IdSet(before) {
            var j :| 0 <= j < |before| && before[j].id == v;
            assert tasks[j].id == v;
          }
        }
      }
      r := Ok(task);
    }
  }
}
