/** The task/tag store of package db: a "tasks" bucket and a "tags" bucket,
    each keyed by an integer id and each with its own NextSequence counter.
    Every exported operation runs in one bbolt transaction and is modelled as
    one atomic step on the in-memory state. */
module Db {
  import opened Records
  import opened Scan
  import Codec

  class Store {
    /** The "tasks" bucket by id; on disk the key is Codec.Itob(id). */
    var tasks: map<int, Task>
    /** The "tags" bucket by id. */
    var tags: map<int, Tag>
    /** The buckets' sequence counters: the last id each has handed out. */
    var taskSeq: nat
    var tagSeq: nat

    /** Every record sits under its own `Key`, every key was handed out by
        its bucket's counter, and a tag only names task ids that were handed
        out (it may name tasks deleted since). */
    ghost predicate Valid()
      reads this
    {
      && KeysWithin(tasks, taskSeq) && KeyedBy(tasks, TaskKey)
      && KeysWithin(tags, tagSeq) && KeyedBy(tags, TagKey)
      && (forall k, i | k in tags && 0 <= i < |tags[k].tasks| :: 1 <= tags[k].tasks[i] <= taskSeq)
    }

    /** Open on a new file: both buckets created empty. */
    constructor ()
      ensures Valid()
      ensures tasks == map[] && tags == map[] && taskSeq == 0 && tagSeq == 0
    {
      tasks, tags := map[], map[];
      taskSeq, tagSeq := 0, 0;
    }

    /** CreateTask: takes the next id of the task bucket and stores an
        active task with no tags under it. */
    method CreateTask(text: string, now: Timestamp) returns (task: Task)
      requires Valid()
      modifies this`tasks, this`taskSeq
      ensures Valid()
      ensures task == Task(old(taskSeq) + 1, text, now, false, [])
      ensures forall k | k in old(tasks) :: k < task.key
      ensures taskSeq == task.key && tasks == old(tasks)[task.key := task]
    {
      taskSeq := taskSeq + 1;
      var id := taskSeq;
      task := Task(id, text, now, false, []);
      tasks := tasks[id := task];
    }

    /** CreateTag: takes the next id of the tag bucket (independent of the
        task counter) and stores a tag with no tasks under it. */
    method CreateTag(text: string) returns (tag: Tag)
      requires Valid()
      modifies this`tags, this`tagSeq
      ensures Valid()
      ensures tag == Tag(old(tagSeq) + 1, text, [])
      ensures forall k | k in old(tags) :: k < tag.key
      ensures tagSeq == tag.key && tags == old(tags)[tag.key := tag]
    {
      tagSeq := tagSeq + 1;
      var id := tagSeq;
      tag := Tag(id, text, []);
      tags := tags[id := tag];
    }

    /** AddTaskToTag: when both records exist, appends the task id to the
        tag's list; the task record itself is not touched. When either is
        missing, nothing happens and no error is reported. */
    method AddTaskToTag(taskID: int, tagID: int)
      requires Valid()
      modifies this`tags
      ensures Valid()
      ensures taskID in tasks && tagID in old(tags) ==> tags == old(tags)[tagID := old(tags)[tagID].AddTask(taskID)]
      ensures !(taskID in tasks && tagID in old(tags)) ==> tags == old(tags)
    {
      if taskID in tasks && tagID in tags {
        var tag := tags[tagID].AddTask(taskID);
        tags := tags[tagID := tag];
      }
    }

    /** GetTasksForTag: the stored tasks named by the tag, in the tag's
        order, skipping ids whose task is gone; empty for a missing tag. */
    method GetTasksForTag(tagID: int) returns (result: seq<Task>)
      requires Valid()
      ensures tagID !in tags ==> result == []
      ensures tagID in tags ==> result == Resolve(tasks, tags[tagID].tasks)
      ensures tagID in tags ==> forall t :: t in result <==>
                exists i | 0 <= i < |tags[tagID].tasks| :: tags[tagID].tasks[i] in tasks && tasks[tags[tagID].tasks[i]] == t
      ensures forall t | t in result :: t.key in tasks && tasks[t.key] == t
    {
      result := [];
      if tagID in tags {
        var ids := tags[tagID].tasks;
        var i := 0;
        while i < |ids|
          invariant 0 <= i <= |ids|
          invariant result == Resolve(tasks, ids[..i])
        {
          var id := ids[i];
          assert ids[..i + 1][..i] == ids[..i];
          if id in tasks {
            result := result + [tasks[id]];
          }
          i := i + 1;
        }
        assert ids[..|ids|] == ids;
        ResolveStored(tasks, ids);
        forall t ensures t in result <==> exists i | 0 <= i < |ids| :: ids[i] in tasks && tasks[ids[i]] == t {
          if t in result {
            ResolveNamed(tasks, ids, t);
          } else if i :| 0 <= i < |ids| && ids[i] in tasks && tasks[ids[i]] == t {
            ResolveFinds(tasks, ids, i);
          }
        }
      }
    }

    /** DeleteTask: removes the key if present; a missing key is a
        successful no-op. The counter is not rewound. */
    method DeleteTask(key: int)
      requires Valid()
      modifies this`tasks
      ensures Valid()
      ensures tasks == old(tasks) - {key}
    {
      tasks := tasks - {key};
    }

    /** list: a cursor walk over the task bucket in ascending key order,
        keeping the records that mode s includes. Every key lies in
        1..taskSeq, so visiting 1..taskSeq and skipping absent keys visits
        exactly the stored keys, in cursor order (see CursorOrder). */
    method List(s: Status) returns (result: seq<Task>)
      requires Valid()
      ensures result == Select(Ascending(tasks, taskSeq), s)
      ensures forall t :: t in result <==> t.key in tasks && tasks[t.key] == t && Includes(s, t)
      ensures SortedBy(result, TaskKey)
      ensures taskSeq < Codec.TwoTo63 ==> forall i, j | 0 <= i < j < |result| :: Codec.KeyBefore(result[i].key, result[j].key)
    {
      result := [];
      var k := 0;
      while k < taskSeq
        invariant k <= taskSeq
        invariant result == Select(Ascending(tasks, k), s)
      {
        k := k + 1;
        if k in tasks {
          var task := tasks[k];
          assert Ascending(tasks, k) == Ascending(tasks, k - 1) + [task];
          SelectSnoc(Ascending(tasks, k - 1), task, s);
          if Includes(s, task) {
            result := result + [task];
          }
        } else {
          assert Ascending(tasks, k) == Ascending(tasks, k - 1);
        }
      }
      ListFacts(tasks, taskSeq, s);
    }

    method AllTasks() returns (result: seq<Task>)
      requires Valid()
      ensures result == Select(Ascending(tasks, taskSeq), All)
      ensures forall t :: t in result <==> t.key in tasks && tasks[t.key] == t
      ensures SortedBy(result, TaskKey)
      ensures taskSeq < Codec.TwoTo63 ==> forall i, j | 0 <= i < j < |result| :: Codec.KeyBefore(result[i].key, result[j].key)
    {
      result := List(All);
    }

    method ActiveTasks() returns (result: seq<Task>)
      requires Valid()
      ensures result == Select(Ascending(tasks, taskSeq), Active)
      ensures forall t :: t in result <==> t.key in tasks && tasks[t.key] == t && !t.completed
      ensures SortedBy(result, TaskKey)
      ensures taskSeq < Codec.TwoTo63 ==> forall i, j | 0 <= i < j < |result| :: Codec.KeyBefore(result[i].key, result[j].key)
    {
      result := List(Active);
    }

    method CompletedTasks() returns (result: seq<Task>)
      requires Valid()
      ensures result == Select(Ascending(tasks, taskSeq), Done)
      ensures forall t :: t in result <==> t.key in tasks && tasks[t.key] == t && t.completed
      ensures SortedBy(result, TaskKey)
      ensures taskSeq < Codec.TwoTo63 ==> forall i, j | 0 <= i < j < |result| :: Codec.KeyBefore(result[i].key, result[j].key)
    {
      result := List(Done);
    }

    /** AllTags: ForEach over the tag bucket, in ascending key order. */
    method AllTags() returns (result: seq<Tag>)
      requires Valid()
      ensures result == Ascending(tags, tagSeq)
      ensures forall t :: t in result <==> t.key in tags && tags[t.key] == t
      ensures SortedBy(result, TagKey)
      ensures tagSeq < Codec.TwoTo63 ==> forall i, j | 0 <= i < j < |result| :: Codec.KeyBefore(result[i].key, result[j].key)
    {
      result := [];
      var k := 0;
      while k < tagSeq
        invariant k <= tagSeq
        invariant result == Ascending(tags, k)
      {
        k := k + 1;
        if k in tags {
          result := result + [tags[k]];
        }
      }
      forall t ensures t in result <==> t.key in tags && tags[t.key] == t {
        AscendingMembers(tags, tagSeq, TagKey, t);
      }
      AscendingSorted(tags, tagSeq, TagKey);
      if tagSeq < Codec.TwoTo63 {
        CursorOrder(result, TagKey);
      }
    }

    /** updateStatus: a read-modify-write of one record. For a missing key
        nothing changes and the zero Task comes back without an error. */
    method UpdateStatus(key: int, s: Status) returns (task: Task)
      requires Valid()
      modifies this`tasks
      ensures Valid()
      ensures tasks == StatusUpdated(old(tasks), key, s)
      ensures key in old(tasks) ==> task == WithStatus(old(tasks)[key], s) && tasks[key] == task
      ensures key !in old(tasks) ==> task == ZeroTask
    {
      task := ZeroTask;
      if key in tasks {
        task := WithStatus(tasks[key], s);
        tasks := tasks[key := task];
      }
    }

    method MarkDone(key: int) returns (task: Task)
      requires Valid()
      modifies this`tasks
      ensures Valid()
      ensures key in old(tasks) ==> task == old(tasks)[key].(completed := true) && tasks == old(tasks)[key := task]
      ensures key !in old(tasks) ==> task == ZeroTask && tasks == old(tasks)
    {
      task := UpdateStatus(key, Done);
    }

    method MarkActive(key: int) returns (task: Task)
      requires Valid()
      modifies this`tasks
      ensures Valid()
      ensures key in old(tasks) ==> task == old(tasks)[key].(completed := false) && tasks == old(tasks)[key := task]
      ensures key !in old(tasks) ==> task == ZeroTask && tasks == old(tasks)
    {
      task := UpdateStatus(key, Active);
    }
  }

  /** The task bucket after updateStatus(key, s). */
  function StatusUpdated(m: map<int, Task>, key: int, s: Status): (r: map<int, Task>)
    ensures r.Keys == m.Keys
    ensures forall k | k in m && k != key :: r[k] == m[k]
    ensures key in m ==> r[key] == m[key].(completed := r[key].completed)
  {
    if key in m then m[key := WithStatus(m[key], s)] else m
  }

  /** Marking a task done (or active) a second time changes nothing. */
  lemma StatusUpdateIdempotent(m: map<int, Task>, key: int, s: Status)
    ensures StatusUpdated(StatusUpdated(m, key, s), key, s) == StatusUpdated(m, key, s)
  {
    if key in m {
      WithStatusIdempotent(m[key], s);
    }
  }

  /** What the scan in mode s returns, for a bucket whose records sit under
      their own keys in 1..n: exactly the stored records that s includes,
      in strictly ascending key order. */
  lemma ListFacts(m: map<int, Task>, n: nat, s: Status)
    requires KeysWithin(m, n) && KeyedBy(m, TaskKey)
    ensures forall t :: t in Select(Ascending(m, n), s) <==> t.key in m && m[t.key] == t && Includes(s, t)
    ensures forall i | 0 <= i < |Select(Ascending(m, n), s)| :: 1 <= Select(Ascending(m, n), s)[i].key <= n
    ensures SortedBy(Select(Ascending(m, n), s), TaskKey)
    ensures n < Codec.TwoTo63 ==> var r := Select(Ascending(m, n), s);
      forall i, j | 0 <= i < j < |r| :: Codec.KeyBefore(r[i].key, r[j].key)
  {
    var ts := Ascending(m, n);
    forall t ensures t in Select(ts, s) <==> t.key in m && m[t.key] == t && Includes(s, t) {
      SelectMembers(ts, s, t);
      AscendingMembers(m, n, TaskKey, t);
    }
    AscendingSorted(m, n, TaskKey);
    SelectBelow(ts, s, n + 1);
    SelectAscending(ts, s);
    forall i | 0 <= i < |Select(ts, s)| ensures 1 <= Select(ts, s)[i].key {
      SelectMembers(ts, s, Select(ts, s)[i]);
      AscendingMembers(m, n, TaskKey, Select(ts, s)[i]);
    }
    if n < Codec.TwoTo63 {
      CursorOrder(Select(ts, s), TaskKey);
    }
  }

  /** ActiveTasks and CompletedTasks split AllTasks: every task scanned
      lands in exactly one of the two. */
  lemma StatusListsPartition(m: map<int, Task>, n: nat)
    ensures multiset(Select(Ascending(m, n), Active)) + multiset(Select(Ascending(m, n), Done))
         == multiset(Select(Ascending(m, n), All))
    ensures forall t | t in Select(Ascending(m, n), All) ::
              (t in Select(Ascending(m, n), Active)) != (t in Select(Ascending(m, n), Done))
  {
    var ts := Ascending(m, n);
    SelectPartition(ts);
    SelectAll(ts);
    forall t | t in ts ensures (t in Select(ts, Active)) != (t in Select(ts, Done)) {
      SelectMembers(ts, Active, t);
      SelectMembers(ts, Done, t);
    }
  }

  /** Records listed in strictly ascending id order, with ids in
      [0, 2^63), have bucket keys (Codec.Itob) that are strictly increasing
      under bytes.Compare: the walk over ascending ids that List and AllTags
      perform visits records in the order bbolt's cursor and ForEach do. */
  lemma CursorOrder<V>(rs: seq<V>, key: V -> int)
    requires SortedBy(rs, key)
    requires forall i | 0 <= i < |rs| :: 0 <= key(rs[i]) < Codec.TwoTo63
    ensures forall i, j | 0 <= i < j < |rs| :: Codec.KeyBefore(key(rs[i]), key(rs[j]))
  {
    forall i, j | 0 <= i < j < |rs| ensures Codec.KeyBefore(key(rs[i]), key(rs[j])) {
      Codec.ItobOrdered(key(rs[i]), key(rs[j]));
    }
  }
}
