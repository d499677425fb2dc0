/** Callers of the task service that rely on its contracts alone. */
module Scenarios {
  import opened Results
  import opened TaskEntity
  import opened TaskTable
  import opened TasksService

  /** Tasks 1:A, 2:B, 3:C; deleting 2 leaves 1:A, 2:C; the next task takes id 3. */
  method DeleteThenCreate() {
    var a := Task(1, "A", "10", false, "2024-01-01", "ana");
    var b := Task(2, "B", "20", false, "2024-01-02", "ana");
    var c := Task(3, "C", "30", true, "2024-01-03", "bo");
    var service := new TaskService({"ana", "bo"}, [a, b, c]);
    assert [a, b, c][1].id == 2;
    var deleted := service.DeleteTask(2);
    CompactExample(a, b, c);
    var survivors := [a, c.(id := 2)];
    assert service.tasks == survivors;
    var created := service.CreateTask(CreateTaskDto("D", "40", false, "2024-01-04", "bo"));
    assert !HasTitle(survivors, "bo", "D");
    LeastFreeAfterOneTwo(survivors, created.value.id);
    assert created.value.id == 3;
  }

  /** Deleting an id that is not in use fails and changes nothing. */
  method DeleteAbsent() {
    var a := Task(1, "A", "", false, "", "ana");
    var service := new TaskService({"ana"}, [a]);
    var missing := service.DeleteTask(7);
    assert missing == Err(TaskNotFound) && service.tasks == [a];
  }

  lemma CompactExample(a: Task, b: Task, c: Task)
    requires a.id == 1 && b.id == 2 && c.id == 3
    ensures Compact([a, b, c], 2) == [a, c.(id := 2)]
  {
    assert [a, b, c][1..] == [b, c] && [b, c][1..] == [c] && [c][1..] == [];
    assert Remove([c], 2) == [c];
    assert Remove([b, c], 2) == [c];
    assert Remove([a, b, c], 2) == [a] + [c];
  }

  /** With ids 1 and 2 in use the least free id is 3. */
  lemma LeastFreeAfterOneTwo(s: seq<Task>, x: int)
    requires |s| == 2 && s[0].id == 1 && s[1].id == 2 && IsLeastFreeId(x, IdSet(s))
    ensures x == 3
  {
    assert 1 in IdSet(s) && 2 in IdSet(s);
    assert 3 !in IdSet(s);
  }

  /** With ids 1, 2 and 4 in use the least free id is 3. */
  lemma LeastFreeInOneTwoFour(s: seq<Task>, x: int)
    requires |s| == 3 && s[0].id == 1 && s[1].id == 2 && s[2].id == 4 && IsLeastFreeId(x, IdSet(s))
    ensures x == 3
  {
    assert 1 in IdSet(s) && 2 in IdSet(s);
    assert 3 !in IdSet(s);
  }

  /** An owner the user service does not know, and a title the owner already
      uses, are both rejected. */
  method CreateRejects() {
    var a := Task(1, "A", "", false, "", "ana");
    var service := new TaskService({"ana"}, [a]);
    var clash := service.CreateTask(CreateTaskDto("A", "", false, "", "ana"));
    assert [a][0].owner == "ana" && [a][0].title == "A";
    assert clash == Err(TitleConflict);
    var stranger := service.CreateTask(CreateTaskDto("E", "", false, "", "eve"));
    assert stranger == Err(UserNotFound);
    assert service.tasks == [a];
  }

  /** With ids 1, 2, 4 in the table the next task reuses the free id 3, not 5. */
  method CreateFillsGap() {
    var a := Task(1, "A", "", false, "", "ana");
    var b := Task(2, "B", "", false, "", "ana");
    var d := Task(4, "D", "", false, "", "ana");
    var service := new TaskService({"ana"}, [a, b, d]);
    var created := service.CreateTask(CreateTaskDto("C", "", false, "", "ana"));
    assert !HasTitle([a, b, d], "ana", "C");
    LeastFreeInOneTwoFour([a, b, d], created.value.id);
    assert created.value.id == 3;
  }
}
