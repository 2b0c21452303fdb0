/** What PUT, PATCH and the two deletes do to the task collection, as
    functions of the collection before the request; the store's methods for
    those requests are proved to produce exactly these. */
module Edits {
  import opened Model
  import opened Filters
  import opened Queries

  function Pick<T>(field: Option<T>, current: T): (r: T)
  {
    if field.Some? then field.value else current
  }

  /** The PUT rule for one task: each field present in the body replaces the
      stored one, absent fields keep their value; id, owner and creation time
      are never touched, and no field is validated. */
  function ApplyPatch(t: Task, p: TaskPatch): (r: Task)
    ensures r.id == t.id && r.userId == t.userId && r.createdAt == t.createdAt
  {
    Task(t.id, t.userId, Pick(p.title, t.title), Pick(p.description, t.description),
         Pick(p.dueDate, t.dueDate), Pick(p.completed, t.completed), t.createdAt)
  }

  /** The patch a PATCH request amounts to: only `completed`. */
  function CompletedOnly(b: bool): (p: TaskPatch)
  {
    TaskPatch(None, None, Some(b), None)
  }

  /** The collection after a PUT: the first task with the id is patched. */
  function UpdateTask(tasks: seq<Task>, taskId: string, p: TaskPatch): (r: seq<Task>)
  {
    var i := FindTaskIndex(tasks, taskId);
    if i == -1 then tasks else tasks[i := ApplyPatch(tasks[i], p)]
  }

  /** The collection after a DELETE by id: the first task with the id is cut out. */
  function DeleteTask(tasks: seq<Task>, taskId: string): (r: seq<Task>)
  {
    var i := FindTaskIndex(tasks, taskId);
    if i == -1 then tasks else tasks[..i] + tasks[i + 1..]
  }

  /** The collection after deleting all tasks of a user. */
  function DeleteAllOf(tasks: seq<Task>, userId: string): (r: seq<Task>)
  {
    Filter(tasks, NotOwnedBy(userId))
  }

  /** The index lookup depends on the ids alone. */
  lemma FindTaskIndexReadsIdsOnly(s: seq<Task>, s': seq<Task>, taskId: string)
    requires |s| == |s'| && forall i :: 0 <= i < |s| ==> s[i].id == s'[i].id
    ensures FindTaskIndex(s, taskId) == FindTaskIndex(s', taskId)
  {
  }

  /** A PUT changes only the one task it finds, keeps the length, and only the
      fields the body supplies. */
  lemma UpdateTouchesOneTask(tasks: seq<Task>, taskId: string, p: TaskPatch)
    ensures var r := UpdateTask(tasks, taskId, p);
            var i := FindTaskIndex(tasks, taskId);
            |r| == |tasks|
            && (forall j :: 0 <= j < |tasks| && j != i ==> r[j] == tasks[j])
            && (i != -1 ==> r[i] == ApplyPatch(tasks[i], p))
            && (i == -1 ==> r == tasks)
  {
  }

  /** Sending the same PUT twice leaves the collection as sending it once. */
  lemma UpdateIsIdempotent(tasks: seq<Task>, taskId: string, p: TaskPatch)
    ensures UpdateTask(UpdateTask(tasks, taskId, p), taskId, p) == UpdateTask(tasks, taskId, p)
  {
    var once := UpdateTask(tasks, taskId, p);
    FindTaskIndexReadsIdsOnly(tasks, once, taskId);
  }

  /** Setting `completed` to the same value twice is the same as once. */
  lemma SetCompletedIsIdempotent(tasks: seq<Task>, taskId: string, b: bool)
    ensures UpdateTask(UpdateTask(tasks, taskId, CompletedOnly(b)), taskId, CompletedOnly(b))
         == UpdateTask(tasks, taskId, CompletedOnly(b))
  {
    UpdateIsIdempotent(tasks, taskId, CompletedOnly(b));
  }

  /** A PUT keeps ids distinct and the creation order, and every task after
      it has the owner and creation time of a task before it. */
  lemma UpdateKeepsInvariants(tasks: seq<Task>, taskId: string, p: TaskPatch)
    ensures DistinctTaskIds(tasks) ==> DistinctTaskIds(UpdateTask(tasks, taskId, p))
    ensures OldestFirst(tasks) ==> OldestFirst(UpdateTask(tasks, taskId, p))
    ensures forall t :: t in UpdateTask(tasks, taskId, p) ==>
      exists o :: o in tasks && o.userId == t.userId && o.createdAt == t.createdAt
  {
    var r := UpdateTask(tasks, taskId, p);
    forall t | t in r ensures exists o :: o in tasks && o.userId == t.userId && o.createdAt == t.createdAt {
      var k :| 0 <= k < |r| && r[k] == t;
      assert tasks[k] in tasks && tasks[k].userId == t.userId && tasks[k].createdAt == t.createdAt;
    }
  }

  /** A DELETE by id takes out exactly one occurrence of the first task with
      that id and keeps the others in their order. */
  lemma {:induction false} DeleteRemovesFirstMatch(tasks: seq<Task>, taskId: string)
    requires FindTaskIndex(tasks, taskId) != -1
    ensures var i := FindTaskIndex(tasks, taskId);
            var r := DeleteTask(tasks, taskId);
            |r| == |tasks| - 1
            && r[..i] == tasks[..i] && r[i..] == tasks[i + 1..]
            && multiset(r) + multiset{tasks[i]} == multiset(tasks)
  {
    var i := FindTaskIndex(tasks, taskId);
    assert tasks == tasks[..i] + [tasks[i]] + tasks[i + 1..];
  }

  /** Position `j` of the collection after a DELETE holds the task that stood
      at this position of the collection before it. */
  function Before(i: nat, j: nat): (k: nat)
  {
    if j < i then j else j + 1
  }

  lemma DeleteShift(tasks: seq<Task>, i: nat)
    requires i < |tasks|
    ensures var r := tasks[..i] + tasks[i + 1..];
            |r| == |tasks| - 1 && forall j :: 0 <= j < |r| ==> r[j] == tasks[Before(i, j)]
  {
  }

  /** A DELETE keeps the creation order. */
  lemma DeleteKeepsOrder(tasks: seq<Task>, taskId: string)
    requires OldestFirst(tasks)
    ensures OldestFirst(DeleteTask(tasks, taskId))
  {
    var i := FindTaskIndex(tasks, taskId);
    if i != -1 {
      var r := DeleteTask(tasks, taskId);
      DeleteShift(tasks, i);
      forall a, b | 0 <= a < b < |r| ensures r[a].createdAt < r[b].createdAt {
        assert Before(i, a) < Before(i, b);
      }
    }
  }

  /** A DELETE keeps ids distinct. */
  lemma DeleteKeepsDistinctIds(tasks: seq<Task>, taskId: string)
    requires DistinctTaskIds(tasks)
    ensures DistinctTaskIds(DeleteTask(tasks, taskId))
  {
    var i := FindTaskIndex(tasks, taskId);
    if i != -1 {
      var r := DeleteTask(tasks, taskId);
      DeleteShift(tasks, i);
      forall a, b | 0 <= a < b < |r| ensures r[a].id != r[b].id {
        assert Before(i, a) < Before(i, b);
      }
    }
  }

  /** A DELETE keeps only stored tasks; with distinct ids, none of them has
      the deleted id. */
  lemma DeleteKeepsOnlyStored(tasks: seq<Task>, taskId: string)
    ensures forall t :: t in DeleteTask(tasks, taskId) ==> t in tasks
    ensures DistinctTaskIds(tasks) ==> forall t :: t in DeleteTask(tasks, taskId) ==> t.id != taskId
  {
    var i := FindTaskIndex(tasks, taskId);
    if i != -1 {
      var r := DeleteTask(tasks, taskId);
      DeleteShift(tasks, i);
      forall t | t in r ensures t in tasks && (DistinctTaskIds(tasks) ==> t.id != taskId) {
        var k :| 0 <= k < |r| && r[k] == t;
        assert Before(i, k) != i;
      }
    }
  }

  /** With distinct ids, after a DELETE no task with that id remains, and
      ids stay distinct and the creation order is kept. */
  lemma DeleteKeepsInvariants(tasks: seq<Task>, taskId: string)
    ensures OldestFirst(tasks) ==> OldestFirst(DeleteTask(tasks, taskId))
    ensures DistinctTaskIds(tasks) ==> DistinctTaskIds(DeleteTask(tasks, taskId))
    ensures DistinctTaskIds(tasks) ==> forall t :: t in DeleteTask(tasks, taskId) ==> t.id != taskId
    ensures forall t :: t in DeleteTask(tasks, taskId) ==> t in tasks
  {
    if OldestFirst(tasks) {
      DeleteKeepsOrder(tasks, taskId);
    }
    if DistinctTaskIds(tasks) {
      DeleteKeepsDistinctIds(tasks, taskId);
    }
    DeleteKeepsOnlyStored(tasks, taskId);
  }

  /** Deleting a user's tasks removes as many tasks as the user had, leaves
      none of theirs, and leaves every other user's tasks as they were. */
  lemma DeleteAllCounts(tasks: seq<Task>, userId: string)
    ensures |FindTasksByUserId(tasks, userId)| + |DeleteAllOf(tasks, userId)| == |tasks|
    ensures FindTasksByUserId(DeleteAllOf(tasks, userId), userId) == []
    ensures forall other :: other != userId ==>
      FindTasksByUserId(DeleteAllOf(tasks, userId), other) == FindTasksByUserId(tasks, other)
  {
    FilterPartitionSizes(tasks, OwnedBy(userId), NotOwnedBy(userId));
    var r := DeleteAllOf(tasks, userId);
    FilterMembership(tasks, NotOwnedBy(userId));
    assert forall k :: 0 <= k < |r| ==> r[k] in r;
    FilterNoneHolds(r, OwnedBy(userId));
    forall other | other != userId
      ensures FindTasksByUserId(r, other) == FindTasksByUserId(tasks, other)
    {
      FilterAbsorbs(tasks, NotOwnedBy(userId), OwnedBy(other));
    }
  }

  /** Deleting a user's tasks keeps ids distinct and the creation order. */
  lemma DeleteAllKeepsInvariants(tasks: seq<Task>, userId: string)
    ensures OldestFirst(tasks) ==> OldestFirst(DeleteAllOf(tasks, userId))
    ensures DistinctTaskIds(tasks) ==> DistinctTaskIds(DeleteAllOf(tasks, userId))
    ensures forall t :: t in DeleteAllOf(tasks, userId) ==> t in tasks
  {
    FilterMembership(tasks, NotOwnedBy(userId));
    if OldestFirst(tasks) { FilterKeepsOldestFirst(tasks, NotOwnedBy(userId)); }
    if DistinctTaskIds(tasks) { FilterKeepsDistinctIds(tasks, NotOwnedBy(userId)); }
  }
}
