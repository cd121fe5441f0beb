/** What the read operations of the store return, as functions of the bucket
    contents: the ascending cursor scan, the status filter applied to it, and
    the resolution of a tag's task ids. */
module Scan {
  import opened Records

  /** The records of a bucket whose ids lie in 1..n, in ascending id order:
      what a cursor (First/Next) or ForEach over the bucket visits when no
      id lies outside 1..n. */
  function Ascending<V>(m: map<int, V>, n: nat): (r: seq<V>)
    ensures |r| <= n
  {
    if n == 0 then [] else Ascending(m, n - 1) + (if n in m then [m[n]] else [])
  }

  /** Every id of the bucket lies in 1..n. */
  ghost predicate KeysWithin<V>(m: map<int, V>, n: nat) {
    forall k | k in m :: 1 <= k <= n
  }

  /** The `Key` field of each record type. */
  function TaskKey(t: Task): int { t.key }

  function TagKey(t: Tag): int { t.key }

  /** Each record of the bucket is stored under its own `Key` field. */
  ghost predicate KeyedBy<V>(m: map<int, V>, key: V -> int) {
    forall k | k in m :: key(m[k]) == k
  }

  /** x is the record stored under its own key. */
  ghost predicate StoredAt<V>(m: map<int, V>, key: V -> int, x: V) {
    key(x) in m && m[key(x)] == x
  }

  /** The records' keys are strictly increasing along the sequence. */
  ghost predicate SortedBy<V>(rs: seq<V>, key: V -> int) {
    forall i, j | 0 <= i < j < |rs| :: key(rs[i]) < key(rs[j])
  }

  /** The scan up to n returns exactly the stored records with keys in 1..n. */
  lemma {:induction false} AscendingMembers<V>(m: map<int, V>, n: nat, key: V -> int, x: V)
    requires KeyedBy(m, key)
    ensures x in Ascending(m, n) <==> 1 <= key(x) <= n && StoredAt(m, key, x)
  {
    if n > 0 {
      AscendingMembers(m, n - 1, key, x);
      if n in m && m[n] == x {
        assert key(m[n]) == n;
      }
    }
  }

  /** The scan lists records in strictly ascending `Key` order, every key
      in 1..n. */
  lemma {:induction false} AscendingSorted<V>(m: map<int, V>, n: nat, key: V -> int)
    requires KeyedBy(m, key)
    ensures forall i | 0 <= i < |Ascending(m, n)| :: 1 <= key(Ascending(m, n)[i]) <= n
    ensures SortedBy(Ascending(m, n), key)
  {
    if n > 0 {
      AscendingSorted(m, n - 1, key);
      if n in m {
        assert key(m[n]) == n;
      }
    }
  }

  /** The status filter of `list`, applied record by record in scan order. */
  function Select(ts: seq<Task>, s: Status): (r: seq<Task>)
    ensures |r| <= |ts|
  {
    if ts == [] then []
    else Select(ts[..|ts| - 1], s) + (if Includes(s, ts[|ts| - 1]) then [ts[|ts| - 1]] else [])
  }

  /** Scanning one more record extends the filtered result by that record
      when the mode keeps it. */
  lemma SelectSnoc(init: seq<Task>, last: Task, s: Status)
    ensures Select(init + [last], s) == Select(init, s) + (if Includes(s, last) then [last] else [])
  {
    assert (init + [last])[..|init|] == init;
  }

  lemma {:induction false} SelectMembers(ts: seq<Task>, s: Status, t: Task)
    ensures t in Select(ts, s) <==> t in ts && Includes(s, t)
  {
    if ts != [] {
      var init := ts[..|ts| - 1];
      SelectMembers(init, s, t);
      assert ts == init + [ts[|ts| - 1]];
    }
  }

  /** Mode all keeps every record, in scan order. */
  lemma {:induction false} SelectAll(ts: seq<Task>)
    ensures Select(ts, All) == ts
  {
    if ts != [] {
      SelectAll(ts[..|ts| - 1]);
      assert ts == ts[..|ts| - 1] + [ts[|ts| - 1]];
    }
  }

  /** Modes active and done split the scanned records between them: each
      record lands in exactly one of the two, as often as it was scanned. */
  lemma {:induction false} SelectPartition(ts: seq<Task>)
    ensures multiset(Select(ts, Active)) + multiset(Select(ts, Done)) == multiset(ts)
  {
    if ts != [] {
      var init, last := ts[..|ts| - 1], ts[|ts| - 1];
      SelectPartition(init);
      assert ts == init + [last];
      PartitionStep(init, last);
    }
  }

  lemma PartitionStep(init: seq<Task>, last: Task)
    requires multiset(Select(init, Active)) + multiset(Select(init, Done)) == multiset(init)
    ensures multiset(Select(init + [last], Active)) + multiset(Select(init + [last], Done)) == multiset(init + [last])
  {
    SelectSnoc(init, last, Active);
    SelectSnoc(init, last, Done);
    var a, d := Select(init, Active), Select(init, Done);
    assert multiset(init + [last]) == multiset(init) + multiset{last};
    if last.completed {
      assert Select(init + [last], Active) == a;
      assert multiset(Select(init + [last], Done)) == multiset(d) + multiset{last};
    } else {
      assert Select(init + [last], Done) == d;
      assert multiset(Select(init + [last], Active)) == multiset(a) + multiset{last};
    }
  }

  /** Filtering never lets through a key the input did not stay under. */
  lemma {:induction false} SelectBelow(ts: seq<Task>, s: Status, b: int)
    requires forall i | 0 <= i < |ts| :: ts[i].key < b
    ensures forall i | 0 <= i < |Select(ts, s)| :: Select(ts, s)[i].key < b
  {
    if ts != [] {
      SelectBelow(ts[..|ts| - 1], s, b);
    }
  }

  /** Filtering keeps the scan's ascending `Key` order. */
  lemma {:induction false} SelectAscending(ts: seq<Task>, s: Status)
    requires SortedBy(ts, TaskKey)
    ensures SortedBy(Select(ts, s), TaskKey)
  {
    if ts != [] {
      var init, last := ts[..|ts| - 1], ts[|ts| - 1];
      SelectAscending(init, s);
      SelectBelow(init, s, last.key);
    }
  }

  /** GetTasksForTag's loop: the stored task for each id of the list, in
      list order, skipping ids with no stored task. */
  function Resolve(m: map<int, Task>, ids: seq<int>): (r: seq<Task>)
    ensures |r| <= |ids|
  {
    if ids == [] then []
    else Resolve(m, ids[..|ids| - 1]) + (if ids[|ids| - 1] in m then [m[ids[|ids| - 1]]] else [])
  }

  /** Every resolved task is a stored one, at most one per id. */
  lemma {:induction false} ResolveStored(m: map<int, Task>, ids: seq<int>)
    requires KeyedBy(m, TaskKey)
    ensures forall i | 0 <= i < |Resolve(m, ids)| :: StoredAt(m, TaskKey, Resolve(m, ids)[i])
  {
    if ids != [] {
      ResolveStored(m, ids[..|ids| - 1]);
      var id := ids[|ids| - 1];
      if id in m {
        assert m[id].key == id;
      }
    }
  }

  /** A stored task named by the list is in the result. */
  lemma {:induction false} ResolveFinds(m: map<int, Task>, ids: seq<int>, i: int)
    requires 0 <= i < |ids| && ids[i] in m
    ensures m[ids[i]] in Resolve(m, ids)
  {
    if i < |ids| - 1 {
      var init := ids[..|ids| - 1];
      assert init[i] == ids[i];
      ResolveFinds(m, init, i);
    }
  }

  /** Conversely, every task in the result is the stored task of an id the
      list names. */
  lemma {:induction false} ResolveNamed(m: map<int, Task>, ids: seq<int>, t: Task)
    requires t in Resolve(m, ids)
    ensures exists i | 0 <= i < |ids| :: ids[i] in m && m[ids[i]] == t
  {
    var init, id := ids[..|ids| - 1], ids[|ids| - 1];
    if t in Resolve(m, init) {
      ResolveNamed(m, init, t);
      var i :| 0 <= i < |init| && init[i] in m && m[init[i]] == t;
      assert ids[i] == init[i];
    } else {
      assert id in m && m[id] == t;
    }
  }

  /** When every id has a stored task, nothing is skipped: the result lines
      up with the id list position by position. */
  lemma {:induction false} ResolveAllPresent(m: map<int, Task>, ids: seq<int>)
    requires forall i | 0 <= i < |ids| :: ids[i] in m
    ensures |Resolve(m, ids)| == |ids|
    ensures forall i | 0 <= i < |ids| :: Resolve(m, ids)[i] == m[ids[i]]
  {
    if ids != [] {
      var init := ids[..|ids| - 1];
      ResolveAllPresent(m, init);
    }
  }

  /** The tasks of ts whose `Key` is not k, in order. */
  function DropKey(ts: seq<Task>, k: int): (r: seq<Task>)
    ensures forall i | 0 <= i < |r| :: r[i].key != k
  {
    if ts == [] then []
    else DropKey(ts[..|ts| - 1], k) + (if ts[|ts| - 1].key == k then [] else [ts[|ts| - 1]])
  }

  /** Deleting task k changes a tag's resolution only by dropping task k
      from it: the deleted task is skipped and the others keep their order. */
  lemma {:induction false} ResolveAfterDelete(m: map<int, Task>, ids: seq<int>, k: int)
    requires KeyedBy(m, TaskKey)
    ensures Resolve(m - {k}, ids) == DropKey(Resolve(m, ids), k)
  {
    if ids != [] {
      var init := ids[..|ids| - 1];
      var id := ids[|ids| - 1];
      ResolveAfterDelete(m, init, k);
      var before := Resolve(m, init);
      if id in m {
        assert m[id].key == id;
        assert Resolve(m, ids) == before + [m[id]];
        assert (before + [m[id]])[..|before|] == before;
      } else {
        assert Resolve(m, ids) == before;
      }
    }
  }
}
