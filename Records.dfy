/** The two record types the store persists, and the three-way status
    filter applied to tasks during a scan. */
module Records {

  /** `time.Time` is replaced by an abstract instant supplied by the caller;
      0 stands for Go's zero `time.Time`. */
  type Timestamp = int

  const ZeroTime: Timestamp := 0

  datatype Task = Task(key: int, value: string, timeAdded: Timestamp, completed: bool, tags: seq<int>)
  {
    /** Task.AddTag: the tag id goes at the end of the task's own tag list. */
    function AddTag(id: int): (t: Task)
      ensures |t.tags| == |tags| + 1 && t.tags[..|tags|] == tags && t.tags[|tags|] == id
      ensures t.key == key && t.value == value && t.timeAdded == timeAdded && t.completed == completed
    {
      this.(tags := tags + [id])
    }
  }

  /** The value `Task{}` that updateStatus returns for a missing key. */
  const ZeroTask: Task := Task(0, "", ZeroTime, false, [])

  datatype Tag = Tag(key: int, value: string, tasks: seq<int>)
  {
    /** Tag.AddTask: the task id goes at the end, even if already present. */
    function AddTask(id: int): (t: Tag)
      ensures |t.tasks| == |tasks| + 1 && t.tasks[..|tasks|] == tasks && t.tasks[|tasks|] == id
      ensures t.key == key && t.value == value
      ensures multiset(t.tasks) == multiset(tasks) + multiset{id}
    {
      this.(tasks := tasks + [id])
    }
  }

  /** The closed form of the `status` enumeration (active, done, all). */
  datatype Status = Active | Done | All

  /** Whether a scan in mode s keeps task t: mode all keeps every task, and
      each task is kept by exactly one of active and done. */
  predicate Includes(s: Status, t: Task): (b: bool)
    ensures b <==> s == All || t.completed == (s == Done)
  {
    match s
    case Active => !t.completed
    case Done => t.completed
    case All => true
  }

  /** updateStatus's switch: active clears Completed, done sets it, and all
      (no case in the switch) leaves the record as it was. */
  function WithStatus(t: Task, s: Status): (r: Task)
    ensures r == t.(completed := r.completed)
    ensures s == Active ==> !r.completed
    ensures s == Done ==> r.completed
    ensures s == All ==> r == t
  {
    match s
    case Active => t.(completed := false)
    case Done => t.(completed := true)
    case All => t
  }

  /** A status update that has been applied once changes nothing when it is
      applied again. */
  lemma WithStatusIdempotent(t: Task, s: Status)
    ensures WithStatus(WithStatus(t, s), s) == WithStatus(t, s)
  {
  }

  /** After a status update in mode active or done, a scan in the same mode
      keeps the task and a scan in the opposite mode drops it. */
  lemma WithStatusSelects(t: Task, s: Status)
    ensures Includes(s, WithStatus(t, s))
    ensures s == Active ==> !Includes(Done, WithStatus(t, s))
    ensures s == Done ==> !Includes(Active, WithStatus(t, s))
  {
  }
}
