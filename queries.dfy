/** The read-only side of the backend: the lookups the handlers share and the
    task listing pipeline (owner, status filter, title search, newest first). */
module Queries {
  import opened Model
  import opened Text
  import opened Filters

  /** The first user registered with exactly this email (case-sensitive), as
      `findUserByEmail` returns it. */
  function FindUserByEmail(users: seq<User>, email: string): (r: Option<User>)
    ensures r.None? <==> forall i :: 0 <= i < |users| ==> users[i].email != email
    ensures r.Some? ==> exists k :: 0 <= k < |users| && users[k] == r.value && r.value.email == email
                                    && forall j :: 0 <= j < k ==> users[j].email != email
  {
    if users == [] then None
    else if users[0].email == email then Some(users[0])
    else
      var r := FindUserByEmail(users[1..], email);
      assert r.Some? ==> exists k :: 0 <= k < |users| && users[k] == r.value && r.value.email == email
                                    && forall j :: 0 <= j < k ==> users[j].email != email by {
        if r.Some? {
          var k :| 0 <= k < |users[1..]| && users[1..][k] == r.value && r.value.email == email
                   && forall j :: 0 <= j < k ==> users[1..][j].email != email;
          assert users[k + 1] == r.value;
          assert forall j :: 0 <= j < k + 1 ==> users[j].email != email by {
            forall j | 0 < j < k + 1 ensures users[j].email != email {
              assert users[j] == users[1..][j - 1];
            }
          }
        }
      }
      r
  }

  /** The first user with this id, as the inline `users.find` by id returns it. */
  function FindUserById(users: seq<User>, userId: string): (r: Option<User>)
    ensures r.None? <==> forall i :: 0 <= i < |users| ==> users[i].id != userId
    ensures r.Some? ==> exists k :: 0 <= k < |users| && users[k] == r.value && r.value.id == userId
                                    && forall j :: 0 <= j < k ==> users[j].id != userId
  {
    if users == [] then None
    else if users[0].id == userId then Some(users[0])
    else
      var r := FindUserById(users[1..], userId);
      assert forall i :: 0 < i < |users| ==> users[i] == users[1..][i - 1];
      assert r.Some? ==> exists k :: 0 <= k < |users| && users[k] == r.value && r.value.id == userId
                                    && forall j :: 0 <= j < k ==> users[j].id != userId by {
        if r.Some? {
          var k :| 0 <= k < |users[1..]| && users[1..][k] == r.value && r.value.id == userId
                   && forall j :: 0 <= j < k ==> users[1..][j].id != userId;
          assert users[k + 1] == r.value;
        }
      }
      r
  }

  /** The position of the first task with this id, or -1 when there is none, as
      `findIndex` returns it. */
  function FindTaskIndex(tasks: seq<Task>, taskId: string): (r: int)
    ensures -1 <= r < |tasks|
    ensures r == -1 <==> forall i :: 0 <= i < |tasks| ==> tasks[i].id != taskId
    ensures r >= 0 ==> tasks[r].id == taskId && forall j :: 0 <= j < r ==> tasks[j].id != taskId
  {
    if tasks == [] then -1
    else if tasks[0].id == taskId then 0
    else
      var k := FindTaskIndex(tasks[1..], taskId);
      assert forall i :: 0 < i < |tasks| ==> tasks[i] == tasks[1..][i - 1];
      if k == -1 then -1 else k + 1
  }

  /** The tasks of one user, in storage order, as `findTasksByUserId` returns them. */
  function FindTasksByUserId(tasks: seq<Task>, userId: string): (r: seq<Task>)
    ensures forall t :: t in r <==> t in tasks && t.userId == userId
  {
    FilterMembership(tasks, OwnedBy(userId));
    Filter(tasks, OwnedBy(userId))
  }

  /** The status filter of the listing: only the exact values "completed" and
      "pending" select; any other value, or none, keeps every task. */
  function ByStatus(s: seq<Task>, status: Option<string>): (r: seq<Task>)
  {
    if Given(status) then
      if status.value == "completed" then Filter(s, Completed)
      else if status.value == "pending" then Filter(s, Pending)
      else s
    else s
  }

  /** The title search of the listing: a non-empty search keeps the tasks whose
      case-folded title contains the case-folded search text. */
  function BySearch(s: seq<Task>, search: Option<string>): (r: seq<Task>)
  {
    if Given(search) then Filter(s, TitleContains(Lower(search.value))) else s
  }

  /** Whether the status parameter lets a task through. */
  predicate StatusAdmits(status: Option<string>, t: Task)
  {
    Given(status) ==>
      (status.value == "completed" ==> t.completed) && (status.value == "pending" ==> !t.completed)
  }

  /** Whether the search parameter lets a task through. */
  predicate SearchAdmits(search: Option<string>, t: Task)
  {
    Given(search) ==> Includes(Lower(t.title), Lower(search.value))
  }

  /** The user's tasks that pass both filters, still in storage order. */
  function Selected(tasks: seq<Task>, userId: string, status: Option<string>, search: Option<string>): (r: seq<Task>)
  {
    BySearch(ByStatus(FindTasksByUserId(tasks, userId), status), search)
  }

  /** Places `x` after every task at least as recent, before the first older one. */
  function InsertNewest(x: Task, s: seq<Task>): (r: seq<Task>)
  {
    if s == [] then [x]
    else if s[0].createdAt < x.createdAt then [x] + s
    else [s[0]] + InsertNewest(x, s[1..])
  }

  /** The stable sort by creation time, most recent first: tasks taken in
      input order and each inserted after the ones at least as recent. */
  function SortNewestFirst(s: seq<Task>): (r: seq<Task>)
  {
    if s == [] then [] else InsertNewest(s[|s| - 1], SortNewestFirst(s[..|s| - 1]))
  }

  /** What the listing returns for an existing user. */
  function Listing(tasks: seq<Task>, userId: string, status: Option<string>, search: Option<string>): (r: seq<Task>)
  {
    SortNewestFirst(Selected(tasks, userId, status, search))
  }

  function Reverse(s: seq<Task>): (r: seq<Task>)
  {
    if s == [] then [] else [s[|s| - 1]] + Reverse(s[..|s| - 1])
  }

  lemma {:induction false} InsertNewestPermutes(x: Task, s: seq<Task>)
    ensures multiset(InsertNewest(x, s)) == multiset(s) + multiset{x}
  {
    if s != [] && s[0].createdAt >= x.createdAt {
      InsertNewestPermutes(x, s[1..]);
      assert s == [s[0]] + s[1..];
    }
  }

  lemma {:induction false} InsertNewestKeepsOrder(x: Task, s: seq<Task>)
    requires NewestFirst(s)
    ensures NewestFirst(InsertNewest(x, s))
  {
    if s != [] && s[0].createdAt >= x.createdAt {
      InsertNewestKeepsOrder(x, s[1..]);
      InsertNewestPermutes(x, s[1..]);
      var rest := InsertNewest(x, s[1..]);
      forall k | 0 <= k < |rest| ensures s[0].createdAt >= rest[k].createdAt {
        assert rest[k] in multiset(s[1..]) + multiset{x};
        if rest[k] != x {
          assert rest[k] in s[1..];
        }
      }
    }
  }

  /** The sort returns a permutation of its input. */
  lemma {:induction false} SortPermutes(s: seq<Task>)
    ensures multiset(SortNewestFirst(s)) == multiset(s)
  {
    if s != [] {
      SortPermutes(s[..|s| - 1]);
      InsertNewestPermutes(s[|s| - 1], SortNewestFirst(s[..|s| - 1]));
      assert s == s[..|s| - 1] + [s[|s| - 1]];
    }
  }

  /** The sort returns its input most recent first. */
  lemma {:induction false} SortOrders(s: seq<Task>)
    ensures NewestFirst(SortNewestFirst(s))
  {
    if s != [] {
      SortOrders(s[..|s| - 1]);
      InsertNewestKeepsOrder(s[|s| - 1], SortNewestFirst(s[..|s| - 1]));
    }
  }

  /** On tasks in creation order the sort is a reversal. */
  lemma {:induction false} SortReversesOldestFirst(s: seq<Task>)
    requires OldestFirst(s)
    ensures SortNewestFirst(s) == Reverse(s)
  {
    if s != [] {
      var init := s[..|s| - 1];
      assert OldestFirst(init);
      SortReversesOldestFirst(init);
      if init != [] {
        assert Reverse(init)[0] == init[|init| - 1];
      }
    }
  }

  /** A task is listed exactly when it belongs to the user and passes the
      status and search parameters. */
  lemma ListingMembership(tasks: seq<Task>, userId: string, status: Option<string>, search: Option<string>)
    ensures forall t :: t in Listing(tasks, userId, status, search) <==>
      t in tasks && t.userId == userId && StatusAdmits(status, t) && SearchAdmits(search, t)
  {
    var owned := FindTasksByUserId(tasks, userId);
    var byStatus := ByStatus(owned, status);
    var sel := BySearch(byStatus, search);
    FilterMembership(owned, Completed);
    FilterMembership(owned, Pending);
    if Given(search) {
      FilterMembership(byStatus, TitleContains(Lower(search.value)));
    }
    SortPermutes(sel);
    forall t ensures t in Listing(tasks, userId, status, search) <==> t in sel {
      assert t in multiset(SortNewestFirst(sel)) <==> t in multiset(sel);
    }
  }

  /** The listing is ordered most recent first. */
  lemma ListingIsNewestFirst(tasks: seq<Task>, userId: string, status: Option<string>, search: Option<string>)
    ensures NewestFirst(Listing(tasks, userId, status, search))
  {
    SortOrders(Selected(tasks, userId, status, search));
  }

  /** When the store holds tasks in creation order, the listing is exactly the
      selected tasks in reverse storage order. */
  lemma ListingReversesStorage(tasks: seq<Task>, userId: string, status: Option<string>, search: Option<string>)
    requires OldestFirst(tasks)
    ensures Listing(tasks, userId, status, search) == Reverse(Selected(tasks, userId, status, search))
  {
    var owned := FindTasksByUserId(tasks, userId);
    FilterKeepsOldestFirst(tasks, OwnedBy(userId));
    FilterKeepsOldestFirst(owned, Completed);
    FilterKeepsOldestFirst(owned, Pending);
    var byStatus := ByStatus(owned, status);
    if Given(search) {
      FilterKeepsOldestFirst(byStatus, TitleContains(Lower(search.value)));
    }
    SortReversesOldestFirst(Selected(tasks, userId, status, search));
  }

  /** Only "completed" and "pending" filter: every other status value lists
      the same as no status at all. */
  lemma OtherStatusIsNoFilter(tasks: seq<Task>, userId: string, status: Option<string>, search: Option<string>)
    requires status != Some("completed") && status != Some("pending")
    ensures Listing(tasks, userId, status, search) == Listing(tasks, userId, None, search)
  {
  }

  /** The completed and the pending listings are disjoint and together hold
      every task of the unfiltered listing, each as often. */
  lemma StatusPartitionsListing(tasks: seq<Task>, userId: string, search: Option<string>)
    ensures var done := Listing(tasks, userId, Some("completed"), search);
            var open := Listing(tasks, userId, Some("pending"), search);
            var all := Listing(tasks, userId, None, search);
            multiset(done) + multiset(open) == multiset(all)
            && (forall t :: t in done ==> t.completed)
            && (forall t :: t in open ==> !t.completed)
  {
    var owned := FindTasksByUserId(tasks, userId);
    var done := Selected(tasks, userId, Some("completed"), search);
    var open := Selected(tasks, userId, Some("pending"), search);
    var all := Selected(tasks, userId, None, search);
    assert Given(Some("completed")) && Given(Some("pending"));
    if Given(search) {
      var c := TitleContains(Lower(search.value));
      FilterCommutes(owned, Completed, c);
      FilterCommutes(owned, Pending, c);
      FilterPartition(Filter(owned, c), Completed, Pending);
    } else {
      FilterPartition(owned, Completed, Pending);
    }
    assert multiset(done) + multiset(open) == multiset(all);
    SortPermutes(done);
    SortPermutes(open);
    SortPermutes(all);
    ListingMembership(tasks, userId, Some("completed"), search);
    ListingMembership(tasks, userId, Some("pending"), search);
  }
}
