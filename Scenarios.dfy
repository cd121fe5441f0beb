/** Client runs of the store, each a short sequence of operations on a store
    opened on a new file, with the outcome the store's contracts imply
    asserted after each step. */
module Scenarios {
  import opened Records
  import opened Scan
  import opened Db

  /** Adding a task: the first id is 1 and the new task is active. */
  method AddFirstTask() {
    var db := new Store();
    var t := db.CreateTask("buy milk", 100);
    assert t == Task(1, "buy milk", 100, false, []);
    var active := db.ActiveTasks();
    ghost var m := db.tasks;
    assert m == map[1 := t];
    assert Ascending(m, 1) == Ascending(m, 0) + [t];
    assert active == [t];
  }

  /** A completed task leaves the active list ... */
  method CompletedNotActive() {
    var db := new Store();
    var t := db.CreateTask("buy milk", 100);
    var d := db.MarkDone(1);
    assert d == t.(completed := true) && db.tasks == map[1 := d];
    ghost var m := db.tasks;
    assert Ascending(m, 1) == [] + [d];
    SelectSnoc([], d, Active);
    assert Select(Ascending(m, 1), Active) == [];
    var active := db.ActiveTasks();
    assert active == [];
  }

  /** ... and joins the completed list. */
  method CompletedListed() {
    var db := new Store();
    var t := db.CreateTask("buy milk", 100);
    var d := db.MarkDone(1);
    assert d == t.(completed := true) && db.tasks == map[1 := d];
    ghost var m := db.tasks;
    assert Ascending(m, 1) == [] + [d];
    SelectSnoc([], d, Done);
    assert Select(Ascending(m, 1), Done) == [d];
    var completed := db.CompletedTasks();
    assert completed == [d];
  }

  /** A second MarkDone returns the same task and changes nothing; marking a
      missing id returns the zero task. */
  method CompleteTwice() {
    var db := new Store();
    var t := db.CreateTask("buy milk", 100);
    var d := db.MarkDone(1);
    var again := db.MarkDone(1);
    assert again == d && db.tasks == map[1 := d];
    var missing := db.MarkActive(5);
    assert missing == ZeroTask && db.tasks == map[1 := d];
  }

  /** Tasks and tags draw ids from separate counters. */
  method IndependentCounters() {
    var db := new Store();
    var t1 := db.CreateTask("a", 1);
    var t2 := db.CreateTask("b", 2);
    var g := db.CreateTag("home");
    assert t1.key == 1 && t2.key == 2 && g.key == 1;
    assert g.tasks == [];
  }

  /** A tag lists its tasks in the order they were added, duplicates
      included, and the task record does not learn about the tag. */
  method TagDuplicates() {
    var db := new Store();
    var t := db.CreateTask("a", 1);
    var g := db.CreateTag("home");
    db.AddTaskToTag(1, 1);
    assert db.tags[1].tasks == [1];
    db.AddTaskToTag(1, 1);
    assert db.tags[1].tasks == [1, 1];
    assert db.tasks == map[1 := t] && t.tags == [];
    var r := db.GetTasksForTag(1);
    ResolveAllPresent(db.tasks, [1, 1]);
    assert r == [t, t];
  }

  /** Naming a missing task or a missing tag adds nothing. */
  method TagMissingIds() {
    var db := new Store();
    var t := db.CreateTask("a", 1);
    var g := db.CreateTag("home");
    db.AddTaskToTag(9, 1);
    db.AddTaskToTag(1, 4);
    assert db.tags == map[1 := g];
  }

  /** A deleted task is skipped when its tag is resolved. */
  method TagAfterDelete() {
    var db := new Store();
    var t := db.CreateTask("a", 1);
    var g := db.CreateTag("home");
    db.AddTaskToTag(1, 1);
    assert db.tags[1].tasks == [1];
    db.DeleteTask(1);
    assert db.tasks == map[];
    var r := db.GetTasksForTag(1);
    assert [1][..0] == [];
    assert r == [];
  }

  /** A tag that does not exist resolves to nothing. */
  method MissingTag() {
    var db := new Store();
    var t := db.CreateTask("a", 1);
    var r := db.GetTasksForTag(7);
    assert r == [];
  }

  /** Deleting twice is the same as deleting once, and the next task does not
      reuse the deleted id. */
  method DeleteThenCreate() {
    var db := new Store();
    var t1 := db.CreateTask("a", 1);
    db.DeleteTask(1);
    assert db.tasks == map[];
    db.DeleteTask(1);
    assert db.tasks == map[];
    var t2 := db.CreateTask("b", 2);
    assert t2.key == 2 && t2.key != t1.key;
    var all := db.AllTasks();
    ghost var m := db.tasks;
    assert m == map[2 := t2];
    assert Ascending(m, 1) == [];
    assert Ascending(m, 2) == [t2];
    assert all == [t2];
  }
}
