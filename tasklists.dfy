/** Lists of tasks as the screens and the priority manager handle them: Kotlin's `filter` and deadline order. */
module TaskLists {
  import opened TaskModel

  /** Ascending by deadline, as `getAllTasks` orders them. */
  ghost predicate SortedByDeadline(ts: seq<Task>) {
    forall i, j :: 0 <= i < j < |ts| ==> ts[i].deadlineDateTime <= ts[j].deadlineDateTime
  }

  /** Kotlin's `List.filter`: the elements that satisfy `keep`, in their original order. */
  function Filter(ts: seq<Task>, keep: Task -> bool): (r: seq<Task>)
    ensures |r| <= |ts|
    ensures forall t :: t in r <==> t in ts && keep(t)
  {
    if ts == [] then []
    else if keep(ts[0]) then [ts[0]] + Filter(ts[1..], keep)
    else Filter(ts[1..], keep)
  }

  /** Filtering distributes over concatenation, so it keeps the relative order of what it keeps. */
  lemma {:induction false} FilterAppend(a: seq<Task>, b: seq<Task>, keep: Task -> bool)
    ensures Filter(a + b, keep) == Filter(a, keep) + Filter(b, keep)
  {
    if a != [] {
      assert (a + b)[0] == a[0];
      assert (a + b)[1..] == a[1..] + b;
      FilterAppend(a[1..], b, keep);
    } else {
      assert a + b == b;
    }
  }

  /** Filtering a deadline-ordered list yields a deadline-ordered list. */
  lemma {:induction false} FilterKeepsDeadlineOrder(ts: seq<Task>, keep: Task -> bool)
    requires SortedByDeadline(ts)
    ensures SortedByDeadline(Filter(ts, keep))
  {
    if ts != [] {
      var rest := ts[1..];
      assert SortedByDeadline(rest) by {
        forall i, j | 0 <= i < j < |rest| ensures rest[i].deadlineDateTime <= rest[j].deadlineDateTime {
          assert rest[i] == ts[i + 1] && rest[j] == ts[j + 1];
        }
      }
      FilterKeepsDeadlineOrder(rest, keep);
      if keep(ts[0]) {
        var r := Filter(rest, keep);
        forall j | 0 <= j < |r| ensures ts[0].deadlineDateTime <= r[j].deadlineDateTime {
          assert r[j] in rest;
          var k :| 0 <= k < |rest| && rest[k] == r[j];
          assert rest[k] == ts[k + 1];
        }
        assert [ts[0]] + r == Filter(ts, keep);
      }
    }
  }

  /** No two tasks share an id. */
  ghost predicate DistinctIds(ts: seq<Task>) {
    forall i, j :: 0 <= i < j < |ts| ==> ts[i].id != ts[j].id
  }

  /** Filtering a list without repeated ids yields a list without repeated ids. */
  lemma {:induction false} FilterKeepsDistinctIds(ts: seq<Task>, keep: Task -> bool)
    requires DistinctIds(ts)
    ensures DistinctIds(Filter(ts, keep))
  {
    if ts != [] {
      var rest := ts[1..];
      assert DistinctIds(rest) by {
        forall i, j | 0 <= i < j < |rest| ensures rest[i].id != rest[j].id {
          assert rest[i] == ts[i + 1] && rest[j] == ts[j + 1];
        }
      }
      FilterKeepsDistinctIds(rest, keep);
      if keep(ts[0]) {
        var r := Filter(rest, keep);
        forall j | 0 <= j < |r| ensures ts[0].id != r[j].id {
          assert r[j] in rest;
          var k :| 0 <= k < |rest| && rest[k] == r[j];
          assert rest[k] == ts[k + 1];
        }
        assert [ts[0]] + r == Filter(ts, keep);
      }
    }
  }
}
