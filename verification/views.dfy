/**
 * The orderings under which tasks are listed and addressed by number.
 * `list` and `complete` use the pending tasks under
 * `ORDER BY due_date ASC, created_at DESC`, `done` the completed tasks under the
 * same order, `all` every task under it, and `delete` every task under
 * `ORDER BY completed ASC, due_date ASC, created_at DESC`. SQLite puts NULL
 * before every value in ascending order, so tasks without a due date come first.
 * Rows equal on every ORDER BY column come back in an order SQL leaves open;
 * the model breaks such ties by ascending row id.
 */
module Views {
  import opened Wrappers
  import opened Model
  import opened Sorting
  import opened Lex
  import opened Dates

  /** due_date ASC (NULL first), created_at DESC, then id. */
  function DueKey(t: Task): (k: seq<int>)
    ensures |k| == 4 && k[3] == t.id
  {
    [if t.due.None? then 0 else 1, t.due.GetOr(0), -t.created, t.id]
  }

  /** completed ASC, then the due order. */
  function CompletionKey(t: Task): (k: seq<int>)
    ensures |k| == 5 && k[4] == t.id
  {
    [if t.completed then 1 else 0] + DueKey(t)
  }

  /** `WHERE completed = ?`, keeping table order. */
  function WithStatus(ts: seq<Task>, done: bool): (r: seq<Task>)
    ensures forall t :: t in r <==> t in ts && t.completed == done
    ensures |r| <= |ts|
  {
    if |ts| == 0 then []
    else (if ts[0].completed == done then [ts[0]] else []) + WithStatus(ts[1..], done)
  }

  /** The status filter on a non-empty table, one record at a time. */
  lemma WithStatusFirst(ts: seq<Task>, done: bool)
    requires |ts| > 0
    ensures multiset(WithStatus(ts, done)) ==
              (if ts[0].completed == done then multiset{ts[0]} else multiset{}) + multiset(WithStatus(ts[1..], done))
  {
  }

  /** The first record goes to exactly one of the two status filters. */
  lemma StatusFirst(ts: seq<Task>)
    requires |ts| > 0
    ensures multiset(WithStatus(ts, false)) + multiset(WithStatus(ts, true)) ==
              multiset{ts[0]} + (multiset(WithStatus(ts[1..], false)) + multiset(WithStatus(ts[1..], true)))
  {
    WithStatusFirst(ts, false);
    WithStatusFirst(ts, true);
  }

  lemma MultisetFirst(ts: seq<Task>)
    requires |ts| > 0
    ensures multiset(ts) == multiset{ts[0]} + multiset(ts[1..])
  {
    assert ts == [ts[0]] + ts[1..];
  }

  /** Every task is pending or completed, never both. */
  lemma {:induction false} StatusPartition(ts: seq<Task>)
    ensures multiset(WithStatus(ts, false)) + multiset(WithStatus(ts, true)) == multiset(ts)
  {
    if |ts| > 0 {
      StatusPartition(ts[1..]);
      StatusFirst(ts);
      MultisetFirst(ts);
    }
  }

  /** The sort keys order any selection from a store with distinct ids totally. */
  lemma DueTotal(s: seq<Task>, all: seq<Task>)
    requires DistinctTaskIds(all) && forall t :: t in s ==> t in all
    ensures TotalOn(s, ByKey(DueKey)) && TotalOn(s, ByKey(CompletionKey))
  {
    forall x, y | x in s && y in s && x != y ensures x.id != y.id {
      DistinctIdsElements(all, x, y);
    }
    ByKeyTotal(s, DueKey);
    ByKeyTotal(s, CompletionKey);
  }

  /** The tasks `list` shows and `complete <n>` counts. */
  function PendingView(st: Store): (v: seq<Task>)
    ensures multiset(v) == multiset(WithStatus(st.tasks, false))
    ensures forall t :: t in v ==> t in st.tasks && !t.completed
  {
    var v := Sort(WithStatus(st.tasks, false), ByKey(DueKey));
    assert forall t :: t in v ==> t in multiset(WithStatus(st.tasks, false));
    v
  }

  lemma PendingElement(st: Store, k: int)
    requires 0 <= k < |PendingView(st)|
    ensures PendingView(st)[k] in st.tasks && !PendingView(st)[k].completed
  {
    assert PendingView(st)[k] in PendingView(st);
  }

  /** The tasks `done` shows. */
  function CompletedView(st: Store): (v: seq<Task>)
    ensures multiset(v) == multiset(WithStatus(st.tasks, true))
    ensures forall t :: t in v ==> t in st.tasks && t.completed
  {
    var v := Sort(WithStatus(st.tasks, true), ByKey(DueKey));
    assert forall t :: t in v ==> t in multiset(WithStatus(st.tasks, true));
    v
  }

  /** The tasks `all` shows: no completed column in its ORDER BY. */
  function AllView(st: Store): (v: seq<Task>)
    ensures multiset(v) == multiset(st.tasks)
  {
    Sort(st.tasks, ByKey(DueKey))
  }

  /** The tasks `delete <n>` counts. */
  function DeleteView(st: Store): (v: seq<Task>)
    ensures multiset(v) == multiset(st.tasks)
  {
    Sort(st.tasks, ByKey(CompletionKey))
  }

  /** `list` runs by due date, undated first, then newest first. */
  lemma PendingSorted(st: Store)
    ensures SortedBy(PendingView(st), ByKey(DueKey))
  {
    ByKeyOrder(DueKey);
    SortSorted(WithStatus(st.tasks, false), ByKey(DueKey));
  }

  /** `done` runs in the same order. */
  lemma CompletedSorted(st: Store)
    ensures SortedBy(CompletedView(st), ByKey(DueKey))
  {
    ByKeyOrder(DueKey);
    SortSorted(WithStatus(st.tasks, true), ByKey(DueKey));
  }

  /** `all` runs in the same order, pending and completed tasks interleaved. */
  lemma AllSorted(st: Store)
    ensures SortedBy(AllView(st), ByKey(DueKey))
  {
    ByKeyOrder(DueKey);
    SortSorted(st.tasks, ByKey(DueKey));
  }

  /** The delete numbering runs pending before completed, each by the due order. */
  lemma DeleteSorted(st: Store)
    ensures SortedBy(DeleteView(st), ByKey(CompletionKey))
  {
    ByKeyOrder(CompletionKey);
    SortSorted(st.tasks, ByKey(CompletionKey));
  }

  /** Within one completion status the delete order is the due order; a
      pending task comes before every completed one. */
  lemma CompletionVersusDue(x: Task, y: Task)
    ensures x.completed == y.completed ==>
              (ByKey(CompletionKey)(x, y) <==> ByKey(DueKey)(x, y))
    ensures !x.completed && y.completed ==> ByKey(CompletionKey)(x, y) && !ByKey(CompletionKey)(y, x)
  {
    assert CompletionKey(x)[1..] == DueKey(x);
    assert CompletionKey(y)[1..] == DueKey(y);
  }

  lemma SortedWithinStatus(v: seq<Task>, done: bool)
    requires SortedBy(v, ByKey(DueKey))
    requires forall t :: t in v ==> t.completed == done
    ensures SortedBy(v, ByKey(CompletionKey))
  {
    forall i, j | 0 <= i < j < |v| ensures !ByKey(CompletionKey)(v[j], v[i]) {
      assert v[i] in v && v[j] in v;
      CompletionVersusDue(v[j], v[i]);
    }
  }

  /** `delete` numbers the pending tasks exactly as `list` does, then the
      completed tasks in the order `done` shows them. */
  lemma DeleteViewSplit(st: Store)
    requires DistinctTaskIds(st.tasks)
    ensures DeleteView(st) == PendingView(st) + CompletedView(st)
  {
    var p := PendingView(st);
    var c := CompletedView(st);
    PendingSorted(st);
    CompletedSorted(st);
    SortedWithinStatus(p, false);
    SortedWithinStatus(c, true);
    forall x, y | x in p && y in c ensures !ByKey(CompletionKey)(y, x) {
      CompletionVersusDue(x, y);
    }
    SortedConcat(p, c, ByKey(CompletionKey));
    StatusPartition(st.tasks);
    DueTotal(st.tasks, st.tasks);
    ByKeyOrder(CompletionKey);
    SortIsUnique(st.tasks, p + c, ByKey(CompletionKey));
  }

  lemma ConcatIndexRight(p: seq<Task>, c: seq<Task>, i: int, j: int)
    requires 0 <= j < |c| && i == |p| + j
    ensures i < |p + c| && (p + c)[i] == c[j]
  {
  }

  lemma PendingInDeleteView(st: Store, n: nat)
    requires DistinctTaskIds(st.tasks)
    requires 1 <= n <= |PendingView(st)|
    ensures n <= |DeleteView(st)| && DeleteView(st)[n - 1] == PendingView(st)[n - 1]
  {
    DeleteViewSplit(st);
  }

  lemma CompletedInDeleteView(st: Store, n: nat, m: nat)
    requires DistinctTaskIds(st.tasks)
    requires 1 <= n <= |CompletedView(st)| && m == |PendingView(st)| + n
    ensures m <= |DeleteView(st)| && DeleteView(st)[m - 1] == CompletedView(st)[n - 1]
  {
    DeleteViewSplit(st);
    ConcatIndexRight(PendingView(st), CompletedView(st), m - 1, n - 1);
  }

  /** Undated tasks come first, and dated tasks appear by non-decreasing day, so
      the badges run Overdue, Due Today, Due Tomorrow, then later days. */
  lemma DueOrderOfView(v: seq<Task>, i: nat, j: nat, today: int)
    requires SortedBy(v, ByKey(DueKey))
    requires i < j < |v|
    ensures v[j].due.None? ==> v[i].due.None?
    ensures v[i].due.Some? && v[j].due.Some? ==>
              v[i].due.value <= v[j].due.value &&
              Rank(BucketOf(v[i].due.value, today)) <= Rank(BucketOf(v[j].due.value, today))
  {
    var a := DueKey(v[i]);
    var b := DueKey(v[j]);
    assert !LexLess(b, a);
    if v[i].due.Some? && v[j].due.Some? {
      assert a[0] == 1 && b[0] == 1;
      assert a[1..][0] == v[i].due.value && b[1..][0] == v[j].due.value;
      BucketMonotone(v[i].due.value, v[j].due.value, today);
    }
  }
}
