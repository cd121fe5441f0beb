# tsk task store, modelled in Dafny

This project models `db/db.go` from tsk, a terminal to-do list. That package
persists tasks and tags in a bbolt file with two buckets, "tasks" and
"tags". Each bucket maps an 8-byte big-endian key to a JSON record and has its
own `NextSequence` counter.

The files:

- `Codec.dfy` (module `Codec`) models `itob`/`btoi`. It covers Go's
  `uint64(i)` / `int(u)` conversions, big-endian byte order, and the
  `bytes.Compare` order a bbolt cursor uses.
  - It proves that a key is always 8 bytes and that the codec round-trips
    in both directions.
  - It proves that, for non-negative ids, key order is numeric order.
- `Records.dfy` (module `Records`) models `Task`, `Tag`, `Task.AddTag`,
  `Tag.AddTask`, the three-way `status`, and the switches on it in `list`
  and `updateStatus`.
- `Scan.dfy` (module `Scan`) holds the specification functions of the read
  operations, with their properties:
  - `Ascending` is the cursor walk over a bucket.
  - `Select` is the status filter applied during the walk.
  - `Resolve` turns a tag's id list into tasks.
- `Store.dfy` (module `Db`) holds the store itself: class `Store`.
  - It has two maps, one per bucket, and two counters.
  - Each exported function is one method that performs one atomic step, as
    one bbolt transaction does.
  - The read methods (`List` and its three wrappers, `AllTags`,
    `GetTasksForTag`) are proved against the specification functions of
    `Scan`. Each mutator's ensures gives the new buckets and counters in
    terms of the old ones.
- `Scenarios.dfy` (module `Scenarios`) holds short client methods on a fresh
  store; the verifier proves the asserted outcome of each step. Examples:
  add "buy milk", complete it, tag it twice, delete it.

Buckets are maps keyed by the integer id rather than by the 8-byte key. This
loses nothing, for two reasons:

- `Codec.ItobInjective` shows that distinct ids have distinct keys.
- `Codec.ItobOrdered` shows that, on the ids the counters hand out, key order
  is numeric order.

Every stored id lies in `1..counter` (`Store.Valid`). A cursor walk over the
bucket therefore visits the same records, in the same order, as a walk over
ids `1..counter` that skips absent ids. `List` and `AllTags` are written as
that walk. Their contracts, through `Db.CursorOrder`, state that the records
they return have strictly increasing keys under `bytes.Compare`, which is the
order in which bbolt's cursor and `ForEach` visit the buckets.

`time.Now()` becomes a `now` parameter of `CreateTask`. The timestamp is an
abstract integer; 0 stands for the zero `time.Time`.

The model keeps these behaviours of the code as written:

- `AddTaskToTag` and the mark operations silently do nothing for a missing
  record.
- `CreateTag` accepts any label, including an empty one.
- `AddTaskToTag` appends duplicates.
- `AddTaskToTag` changes only the tag record, so a task's own `Tags` list
  stays as it was.

## Model

| member | source | states |
|---|---|---|
| Codec.ToUint64 | db/db.go:298 | `uint64(i)` of a 64-bit int is below 2^64 and congruent to i modulo 2^64 (two's complement) |
| Codec.ToInt64 | db/db.go:303 | `int(u)` of a uint64 is a 64-bit int congruent to u modulo 2^64 |
| Codec.FromBigEndian | db/db.go:303 | a big-endian read of n bytes is below 256^n |
| Codec.BigEndian | db/db.go:298 | the n low-order base-256 digits of v, most significant first, exactly n of them |
| Codec.Itob | db/db.go:296-300 | `itob` always yields exactly 8 bytes |
| Codec.Btoi | db/db.go:302-304 | `btoi` of a slice of at least 8 bytes is a 64-bit int (a shorter slice panics in Go and is excluded) |
| Codec.BigEndianRoundTrip | db/db.go:298 | reading back n big-endian digits of v < 256^n gives v |
| Codec.FromBigEndianRoundTrip | db/db.go:303 | writing back the value read from n bytes gives the same bytes |
| Codec.ItobBtoi | db/db.go:296-304 | `btoi(itob(i)) == i` for every 64-bit int i |
| Codec.BtoiItob | db/db.go:296-304 | `itob(btoi(b)) == b` for every 8-byte key b |
| Codec.ItobInjective | db/db.go:296-300 | distinct ids get distinct bucket keys |
| Codec.LessExtend | db/db.go:298 | appending one byte to equal-length keys keeps a `bytes.Compare` order, or decides it when the prefixes are equal |
| Codec.BigEndianMonotone | db/db.go:298 | big-endian encoding preserves numeric order as `bytes.Compare` order |
| Codec.Less | db/db.go:197 | `bytes.Compare(a, b) < 0`: lexicographic, a proper prefix sorts first; the order is irreflexive |
| Codec.KeyBefore | db/db.go:197 | the 8-byte key of id i sorts before that of id j under `bytes.Compare`; never holds for i == j |
| Codec.ItobOrdered | db/db.go:296-300 | for 0 <= i < j < 2^63, `itob(i)` sorts before `itob(j)` under `bytes.Compare`, so the cursor visits ids in ascending order |
| Codec.ItobNegativeLast | db/db.go:296-300 | a negative id's key sorts after every non-negative id's key, so the numeric order holds only on non-negative ids |
| Records.Task.AddTag | db/db.go:25-27 | the id is appended at the end of the task's tag list; every other field is kept |
| Records.Tag.AddTask | db/db.go:35-37 | the id is appended at the end of the tag's task list, even when already present (one more occurrence); key and label are kept |
| Records.Includes | db/db.go:204-215 | the status switch of `list`: mode all keeps every task, active keeps exactly the tasks not completed, done exactly the completed ones |
| Records.WithStatus | db/db.go:267-272 | only `Completed` can change: done sets it, active clears it, all leaves the task as it was |
| Records.WithStatusIdempotent | db/db.go:267-272 | applying the same status update twice equals applying it once |
| Records.WithStatusSelects | db/db.go:204-215 | after an update in mode active (done), the active (done) scan keeps the task and the opposite scan drops it |
| Scan.Ascending | db/db.go:197 | the cursor walk (and the `ForEach` at db/db.go:233) over a bucket whose ids lie in 1..n: the stored records in ascending id order, at most n of them |
| Scan.AscendingMembers | db/db.go:197 | the cursor walk up to n returns exactly the records stored under their own key in 1..n |
| Scan.AscendingSorted | db/db.go:197 | the cursor walk returns records with keys in 1..n in strictly ascending key order, for tasks and tags alike |
| Scan.Select | db/db.go:204-215 | the status switch applied record by record during the scan; the result is never longer than the scan |
| Scan.SelectSnoc | db/db.go:204-215 | visiting one more record appends it to the result exactly when the mode keeps it |
| Scan.SelectMembers | db/db.go:204-215 | a task is in a mode's result iff it was scanned and the mode keeps it |
| Scan.SelectAll | db/db.go:213-214 | mode all returns every scanned record, in scan order |
| Scan.SelectPartition | db/db.go:204-212 | the active and done results together hold each scanned record exactly as often as it was scanned |
| Scan.PartitionStep | db/db.go:204-212 | the partition of active and done results survives one more scanned record |
| Scan.SelectBelow | db/db.go:204-215 | filtering never produces a key outside the bound the scan obeyed |
| Scan.SelectAscending | db/db.go:204-215 | filtering keeps the scan's ascending key order |
| Scan.Resolve | db/db.go:158-168 | the range loop over a tag's ids: the stored task of each id in list order, skipping ids with no stored task, at most one task per id |
| Scan.ResolveStored | db/db.go:158-168 | each resolved task is the stored task under its own key |
| Scan.ResolveNamed | db/db.go:158-168 | every resolved task is the stored task of some id in the list (the converse of `ResolveFinds`) |
| Scan.ResolveFinds | db/db.go:158-168 | every id of the list that has a stored task contributes that task to the result |
| Scan.ResolveAllPresent | db/db.go:158-168 | when every id has a stored task, the result lines up with the id list position by position |
| Scan.ResolveAfterDelete | db/db.go:158-168 | after deleting task k, a tag resolves to its former result with task k dropped and the rest in order |
| Db.Store.constructor | db/db.go:43-65 | opening a new file creates both buckets empty, with both counters at 0 |
| Db.Store.CreateTask | db/db.go:67-92 | the new task has key = old counter + 1, above every stored key; it has the given text and time, is not completed and has no tags; it is added under its key; nothing else changes; the tag bucket is untouched |
| Db.Store.CreateTag | db/db.go:94-113 | the new tag takes its key from the tag counter alone, above every stored tag key, with an empty task list; it is added under its key; tasks and the task counter are untouched |
| Db.Store.AddTaskToTag | db/db.go:115-141 | with both records present, the tag's list gains the task id at the end; otherwise nothing changes; the task bucket, including the task's own `Tags`, is never touched |
| Db.Store.GetTasksForTag | db/db.go:143-174 | for a missing tag the result is empty; otherwise it is the stored tasks for the tag's ids, in list order, skipping ids with no stored task, and a task is in it exactly when some id of the tag names it; the store is unchanged |
| Db.Store.DeleteTask | db/db.go:176-182 | the key is removed and every other record is kept; a missing key changes nothing; the counter is not rewound |
| Db.Store.List | db/db.go:192-223 | the result is the cursor walk filtered by the mode; it contains exactly the stored tasks the mode keeps, in strictly ascending key order, which for counters below 2^63 is strictly ascending `bytes.Compare` order of their bucket keys |
| Db.Store.AllTasks | db/db.go:225-227 | exactly the stored tasks, in strictly ascending key order |
| Db.Store.ActiveTasks | db/db.go:250-252 | exactly the stored tasks with `Completed == false`, in ascending key order |
| Db.Store.CompletedTasks | db/db.go:246-248 | exactly the stored tasks with `Completed == true`, in ascending key order |
| Db.Store.AllTags | db/db.go:229-244 | exactly the stored tags, in strictly ascending key order, which for counters below 2^63 is the `bytes.Compare` order of their bucket keys that `ForEach` follows |
| Db.Store.UpdateStatus | db/db.go:254-286 | for a present key, only that record's `Completed` changes, and the updated task is returned; for a missing key nothing changes and the zero Task is returned |
| Db.Store.MarkDone | db/db.go:288-290 | for a present key, `Completed` becomes true, nothing else changes, and the updated task is returned; for a missing key the store is unchanged and the zero Task is returned |
| Db.Store.MarkActive | db/db.go:292-294 | for a present key, `Completed` becomes false, nothing else changes, and the updated task is returned; for a missing key the store is unchanged and the zero Task is returned |
| Db.StatusUpdated | db/db.go:254-286 | the task bucket after `updateStatus` has the same keys; every other record is the same; the updated record differs at most in `Completed` |
| Db.StatusUpdateIdempotent | db/db.go:288-294 | marking a task done (or active) twice leaves the same bucket as marking it once |
| Db.ListFacts | db/db.go:192-223 | on a bucket whose records sit under their own keys in 1..n, the filtered scan returns exactly the stored tasks the mode keeps, with keys in 1..n, in strictly ascending order, which for n < 2^63 is strictly ascending `bytes.Compare` order of their keys |
| Db.StatusListsPartition | db/db.go:225-252 | the active and completed lists split the full list: as multisets they add up to it, and each listed task is in exactly one of the two |
| Db.CursorOrder | db/db.go:197 | records (tasks or tags) listed in strictly ascending id order with ids in [0, 2^63) have strictly increasing bucket keys under `bytes.Compare`, the order in which the cursor and `ForEach` visit keys |

## Left out

- bbolt itself is not part of this model: the file, its 0600 mode, the one-second lock timeout, and transaction isolation. Each operation is one atomic step on the in-memory state.
- Db.Store.constructor: models `Open` on a new file only. Reopening an existing file, which keeps its buckets and counters, is not modelled.
- JSON encoding and decoding are not modelled. Records are stored as the `Task`/`Tag` values themselves, and encoding is treated as infallible.
- Every error return is left out, because with infallible encoding and an in-memory state none can arise. Operations return plain values instead of `(value, error)` pairs.
  - This includes the marshal error `CreateTag` swallows (db/db.go:106-108).
  - It also includes the ignored `NextSequence` errors (db/db.go:71, db/db.go:98).
- `time.Now()` and `time.Time` are not modelled. The caller supplies an abstract integer instant.
- Db.Store.CreateTask: the counter is an unbounded natural. `int(id64)` wrapping to a negative id after 2^63 allocations is not modelled.
- Db.Store.CreateTag: same as CreateTask; the tag counter is unbounded.
- Db.Store.UpdateStatus: follows how the gc compiler evaluates `return task, db.Update(...)`. The call runs before the `task` operand is read, so the caller gets the updated record. The Go language leaves that order unspecified.
- Db.Store.List: its cursor-order clause is stated only while the task counter is below 2^63; a negative id's key would sort last (`Codec.ItobNegativeLast`).
- Db.Store.AllTags: its cursor-order clause is stated only while the tag counter is below 2^63, for the same reason.
- `Task.FilterValue` (db/db.go:39-41) is not modelled. It only feeds the list widget of the UI.
- The UI (`app/`) and the command line (`cmd/`, `main.go`) are not modelled. Both are presentation around calls into the store.
