/** The selections the handlers make of the task collection, written once: a
    criterion names the test, `Filter` keeps the tasks that pass it in their
    original order, as the array `filter` operation does. */
module Filters {
  import opened Model
  import opened Text

  datatype Criterion =
    | OwnedBy(userId: string)
    | NotOwnedBy(userId: string)
    | Completed
    | Pending
    | TitleContains(needle: string)

  predicate Holds(c: Criterion, t: Task)
  {
    match c
    case OwnedBy(u) => t.userId == u
    case NotOwnedBy(u) => t.userId != u
    case Completed => t.completed
    case Pending => !t.completed
    case TitleContains(n) => Includes(Lower(t.title), n)
  }

  function Filter(s: seq<Task>, c: Criterion): (r: seq<Task>)
  {
    if s == [] then [] else (if Holds(c, s[0]) then [s[0]] else []) + Filter(s[1..], c)
  }

  /** Two criteria that every task passes exactly one of. */
  ghost predicate Complementary(c: Criterion, d: Criterion)
  {
    forall t :: Holds(c, t) != Holds(d, t)
  }

  /** A task is kept exactly when it is in the input and passes the criterion. */
  lemma {:induction false} FilterMembership(s: seq<Task>, c: Criterion)
    ensures forall t :: t in Filter(s, c) <==> t in s && Holds(c, t)
  {
    if s != [] {
      FilterMembership(s[1..], c);
      assert s == [s[0]] + s[1..];
    }
  }

  /** Filtering by two complementary criteria splits the input: every task
      lands in exactly one part, as often as it occurs in the input. */
  lemma FilterPartition(s: seq<Task>, c: Criterion, d: Criterion)
    requires Complementary(c, d)
    ensures multiset(Filter(s, c)) + multiset(Filter(s, d)) == multiset(s)
  {
    forall t ensures (multiset(Filter(s, c)) + multiset(Filter(s, d)))[t] == multiset(s)[t] {
      FilterMultiplicity(s, c, t);
      FilterMultiplicity(s, d, t);
    }
  }

  /** The two parts of a complementary split have as many tasks together as
      the input. */
  lemma FilterPartitionSizes(s: seq<Task>, c: Criterion, d: Criterion)
    requires Complementary(c, d)
    ensures |Filter(s, c)| + |Filter(s, d)| == |s|
  {
    FilterPartition(s, c, d);
    assert |multiset(Filter(s, c))| + |multiset(Filter(s, d))| == |multiset(s)|;
  }

  /** Filtering a concatenation filters each part: the kept tasks keep their
      relative order, for every input. */
  lemma {:induction false} FilterDistributes(a: seq<Task>, b: seq<Task>, c: Criterion)
    ensures Filter(a + b, c) == Filter(a, c) + Filter(b, c)
  {
    if a != [] {
      FilterDistributes(a[1..], b, c);
      assert a + b == [a[0]] + (a[1..] + b);
      FilterCons(a[0], a[1..] + b, c);
    } else {
      assert a + b == b;
    }
  }

  /** A task occurs in the result as often as in the input when it passes,
      and not at all otherwise. */
  lemma {:induction false} FilterMultiplicity(s: seq<Task>, c: Criterion, t: Task)
    ensures multiset(Filter(s, c))[t] == if Holds(c, t) then multiset(s)[t] else 0
  {
    if s != [] {
      var x, r := s[0], s[1..];
      FilterMultiplicity(r, c, t);
      assert s == [x] + r;
      assert multiset(s)[t] == multiset{x}[t] + multiset(r)[t];
      if Holds(c, x) {
        assert Filter(s, c) == [x] + Filter(r, c);
        assert multiset(Filter(s, c))[t] == multiset{x}[t] + multiset(Filter(r, c))[t];
      } else {
        assert Filter(s, c) == Filter(r, c);
      }
    }
  }

  /** Nothing is kept when no task passes. */
  lemma {:induction false} FilterNoneHolds(s: seq<Task>, c: Criterion)
    requires forall k :: 0 <= k < |s| ==> !Holds(c, s[k])
    ensures Filter(s, c) == []
  {
    if s != [] {
      FilterNoneHolds(s[1..], c);
    }
  }

  lemma FilterCons(x: Task, r: seq<Task>, c: Criterion)
    ensures Filter([x] + r, c) == (if Holds(c, x) then [x] else []) + Filter(r, c)
  {
    assert ([x] + r)[1..] == r;
  }

  /** The order in which two filters are applied does not matter. */
  lemma {:induction false} FilterCommutes(s: seq<Task>, c: Criterion, d: Criterion)
    ensures Filter(Filter(s, c), d) == Filter(Filter(s, d), c)
  {
    if s != [] {
      FilterCommutes(s[1..], c, d);
      var x, r := s[0], s[1..];
      FilterCons(x, Filter(r, c), d);
      FilterCons(x, Filter(r, d), c);
      if Holds(c, x) {
        assert Filter(s, c) == [x] + Filter(r, c);
      } else {
        assert Filter(s, c) == Filter(r, c);
      }
      if Holds(d, x) {
        assert Filter(s, d) == [x] + Filter(r, d);
      } else {
        assert Filter(s, d) == Filter(r, d);
      }
    }
  }

  /** A filter is absorbed by a narrower one applied after it. */
  lemma {:induction false} FilterAbsorbs(s: seq<Task>, c: Criterion, d: Criterion)
    requires forall t :: Holds(d, t) ==> Holds(c, t)
    ensures Filter(Filter(s, c), d) == Filter(s, d)
  {
    if s != [] {
      FilterAbsorbs(s[1..], c, d);
      var x, r := s[0], s[1..];
      FilterCons(x, Filter(r, c), d);
      if Holds(c, x) {
        assert Filter(s, c) == [x] + Filter(r, c);
      } else {
        assert Filter(s, c) == Filter(r, c);
      }
    }
  }

  /** Filtering keeps the creation order of what it keeps. */
  lemma {:induction false} FilterKeepsOldestFirst(s: seq<Task>, c: Criterion)
    requires OldestFirst(s)
    ensures OldestFirst(Filter(s, c))
  {
    if s != [] {
      FilterKeepsOldestFirst(s[1..], c);
      FilterMembership(s[1..], c);
      var rest := Filter(s[1..], c);
      forall t | t in rest ensures s[0].createdAt < t.createdAt {
        var k :| 0 <= k < |s[1..]| && s[1..][k] == t;
        assert s[k + 1] == t;
      }
    }
  }

  /** Filtering keeps task ids distinct. */
  lemma {:induction false} FilterKeepsDistinctIds(s: seq<Task>, c: Criterion)
    requires DistinctTaskIds(s)
    ensures DistinctTaskIds(Filter(s, c))
  {
    if s != [] {
      FilterKeepsDistinctIds(s[1..], c);
      FilterMembership(s[1..], c);
      var rest := Filter(s[1..], c);
      forall t | t in rest ensures s[0].id != t.id {
        var k :| 0 <= k < |s[1..]| && s[1..][k] == t;
        assert s[k + 1] == t;
      }
    }
  }
}
