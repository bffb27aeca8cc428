/**
 * The three commands that change tasks: `add` (handleAddTask), `complete <n>`
 * (handleCompleteTask) and `delete <n>` (handleDeleteTask). A task number is
 * a 1-based position in the view the command counts in.
 */
module Tasks {
  import opened Wrappers
  import opened Text
  import opened Numbers
  import opened Model
  import opened Sorting
  import opened Lex
  import opened Dates
  import opened AddArgs
  import opened Categories
  import opened Views

  // ---------------------------------------------------------------- add

  const NoTitleReply: string := "❌ Please provide a task title." + "\n\nExample: `add Buy groceries`"

  /** The confirmation of an added task. The date line uses formatDate; the
      category line is left out when the name is empty. */
  function AddedReply(title: string, due: Option<int>, categoryName: Option<string>, env: Env): string {
    "✅ Task added: *" + title + "*"
    + (if due.Some? then "\n📅 Due: " + FormatDate(due.value, env) else "")
    + (if categoryName.Some? && categoryName.value != "" then "\n📁 Category: " + categoryName.value else "")
    + "\n\nType `list` to see all your tasks!"
  }

  /** The due day of an add request: the due clause's text, resolved. */
  function DueOf(args: AddArgs, env: Env): (due: Option<int>)
    ensures args.dateText.None? ==> due.None?
  {
    match args.dateText
    case None => None
    case Some(text) => ParseDate(text, env)
  }

  /** The store after the category step of an add request, and the category id. */
  function CategoryStep(st: Store, args: AddArgs): (r: (Store, Option<nat>))
    ensures r.0.tasks == st.tasks && r.0.nextTaskId == st.nextTaskId
    ensures args.categoryName.None? <==> r.1.None?
    ensures args.categoryName.None? ==> r.0 == st
  {
    match args.categoryName
    case None => (st, None)
    case Some(name) => (FindOrCreate(st, name).0, Some(FindOrCreate(st, name).1))
  }

  /** handleAddTask once the arguments are extracted. The category is found or
      created before the title is checked, so a request with a category clause
      and an empty title still creates the category. */
  function AddWith(st: Store, args: AddArgs, env: Env): (r: Outcome)
    ensures args.title == "" ==> r.store.tasks == st.tasks && r.reply == NoTitleReply
    ensures args.title != "" ==>
              && r.store.tasks == st.tasks + [NewTask(st, args, env)]
              && r.store.nextTaskId == st.nextTaskId + 1
              && r.reply == AddedReply(args.title, DueOf(args, env), args.categoryName, env)
    ensures r.store.categories == CategoryStep(st, args).0.categories
    ensures r.store.nextCategoryId == CategoryStep(st, args).0.nextCategoryId
  {
    var st1 := CategoryStep(st, args).0;
    if args.title == "" then Outcome(st1, NoTitleReply)
    else
      Outcome(st1.(tasks := st1.tasks + [NewTask(st, args, env)], nextTaskId := st1.nextTaskId + 1),
              AddedReply(args.title, DueOf(args, env), args.categoryName, env))
  }

  /** handleAddTask: a task is appended exactly when a title is left once the
      clauses are removed; it is new, pending and carries that title. Otherwise
      the tasks are untouched and the reply asks for a title. Only a cat clause
      can change the categories. */
  function HandleAddTask(st: Store, input: string, env: Env): (r: Outcome)
    ensures r.store.tasks == st.tasks <==> ExtractTitle(input) == ""
    ensures ExtractTitle(input) == "" ==> r.reply == NoTitleReply && r.store.nextTaskId == st.nextTaskId
    ensures ExtractTitle(input) != "" ==>
              && |r.store.tasks| == |st.tasks| + 1
              && r.store.tasks[..|st.tasks|] == st.tasks
              && r.store.tasks[|st.tasks|].id == st.nextTaskId
              && !r.store.tasks[|st.tasks|].completed
              && r.store.tasks[|st.tasks|].title == ExtractTitle(input)
              && r.store.nextTaskId == st.nextTaskId + 1
    ensures r.store.categories != st.categories ==> HasClause(input, "cat", EndOnly)
  {
    var args := ExtractAdd(input);
    var r := AddWith(st, args, env);
    assert args.title != "" ==> r.store.tasks[..|st.tasks|] == st.tasks;
    r
  }

  lemma AddedReplyNotEmpty(title: string, due: Option<int>, categoryName: Option<string>, env: Env)
    ensures AddedReply(title, due, categoryName, env) != ""
  {
    assert AddedReply(title, due, categoryName, env)[0] == '\U{2705}';
  }

  lemma AddTaskReplies(st: Store, args: AddArgs, env: Env)
    ensures AddWith(st, args, env).reply != ""
  {
    if args.title == "" {
      assert NoTitleReply[0] == '\U{274C}';
    } else {
      AddedReplyNotEmpty(args.title, DueOf(args, env), args.categoryName, env);
    }
  }

  /** The task an add request with a title appends: new, pending, created and
      updated now. */
  function NewTask(st: Store, args: AddArgs, env: Env): (t: Task)
    ensures t.id == st.nextTaskId && !t.completed && t.title == args.title
    ensures t.due == DueOf(args, env) && t.category == CategoryStep(st, args).1
  {
    Task(st.nextTaskId, args.title, DueOf(args, env), CategoryStep(st, args).1, false, env.now, env.now)
  }

  /** The category of an added task matches the cat clause up to case. */
  lemma AddedCategoryMatches(st: Store, args: AddArgs, env: Env)
    requires args.title != "" && args.categoryName.Some?
    ensures var st' := AddWith(st, args, env).store;
            exists k :: 0 <= k < |st'.categories| && Some(st'.categories[k].id) == NewTask(st, args, env).category
                     && SameName(st'.categories[k].name, args.categoryName.value)
  {
    FindOrCreateMatches(st, args.categoryName.value);
  }

  /** What `add` extracts from the message ends up in the new task. */
  lemma AddTaskFields(st: Store, input: string, env: Env)
    ensures var t := NewTask(st, ExtractAdd(input), env);
            ExtractAdd(input).title != "" ==>
              && HandleAddTask(st, input, env).store.tasks == st.tasks + [t]
              && t.title == Trim(t.title) && t.title != ""
              && (!HasClause(input, "due", CatOrEnd) ==> t.due.None?)
              && (!HasClause(input, "cat", EndOnly) ==> t.category.None?)
  {
  }

  lemma AddTaskPreserves(st: Store, args: AddArgs, env: Env)
    requires Valid(st) && NamesUnique(st.categories)
    ensures Valid(AddWith(st, args, env).store) && NamesUnique(AddWith(st, args, env).store.categories)
  {
    if args.categoryName.Some? {
      FindOrCreatePreserves(st, args.categoryName.value);
    }
    var st1 := CategoryStep(st, args).0;
    assert Valid(st1) && NamesUnique(st1.categories);
    if args.title != "" {
      var st' := AddWith(st, args, env).store;
      var t := NewTask(st, args, env);
      assert st'.tasks == st1.tasks + [t] && t.id == st1.nextTaskId;
      forall i, j | 0 <= i < |st'.tasks| && 0 <= j < |st'.tasks| && i != j
        ensures st'.tasks[i].id != st'.tasks[j].id
      {
        if i < |st1.tasks| && j < |st1.tasks| {
        } else if i < |st1.tasks| {
          assert st1.tasks[i] in st1.tasks;
        } else {
          assert st1.tasks[j] in st1.tasks;
        }
      }
    }
  }

  /** `list` shows the added task; nothing else about the pending tasks changes. */
  lemma AddTaskPending(st: Store, args: AddArgs, env: Env)
    requires args.title != ""
    ensures multiset(PendingView(AddWith(st, args, env).store)) ==
              multiset(PendingView(st)) + multiset{NewTask(st, args, env)}
    ensures CompletedView(AddWith(st, args, env).store) == CompletedView(st)
  {
    var t := NewTask(st, args, env);
    var st' := AddWith(st, args, env).store;
    assert st'.tasks == st.tasks + [t];
    WithStatusAppend(st.tasks, t, false);
    WithStatusAppend(st.tasks, t, true);
    assert WithStatus(st'.tasks, true) == WithStatus(st.tasks, true);
    assert WithStatus(st'.tasks, false) == WithStatus(st.tasks, false) + [t];
  }

  /** A due clause the date parser rejects still adds the task, undated. */
  lemma UnparseableDueStillAdds(st: Store, args: AddArgs, env: Env)
    requires args.title != "" && args.dateText.Some?
    requires Lower(args.dateText.value) != "today" && Lower(args.dateText.value) != "tomorrow"
    requires env.parseLiteral(args.dateText.value).None?
    ensures var r := AddWith(st, args, env);
            && |r.store.tasks| == |st.tasks| + 1
            && r.store.tasks[|st.tasks|].due.None?
            && r.store.tasks[|st.tasks|].title == args.title
  {
  }

  lemma {:induction false} WithStatusAppend(ts: seq<Task>, t: Task, done: bool)
    ensures WithStatus(ts + [t], done) == WithStatus(ts, done) + (if t.completed == done then [t] else [])
    decreases |ts|
  {
    if |ts| == 0 {
      assert ts + [t] == [t];
    } else {
      assert (ts + [t])[1..] == ts[1..] + [t];
      WithStatusAppend(ts[1..], t, done);
    }
  }

  // ---------------------------------------------------------------- numbers

  /** `!taskNumber || taskNumber < 1`: NaN, zero and negative numbers. */
  predicate ValidNumber(n: Option<int>) {
    n.Some? && n.value >= 1
  }

  function InvalidNumberReply(command: string): string {
    "❌ Please provide a valid " + "task number.\n\nExample: `" + command + " 2`"
  }

  function NotFoundReply(n: int, count: nat, kind: string): string {
    "❌ Task " + IntToString(n) + " not found. You have " + NatToString(count) + " " + kind + " tasks."
  }

  lemma NumberRepliesNotEmpty(command: string, n: int, count: nat, kind: string)
    ensures InvalidNumberReply(command) != "" && NotFoundReply(n, count, kind) != ""
  {
    assert InvalidNumberReply(command)[0] == '\U{274C}';
    assert NotFoundReply(n, count, kind)[0] == '\U{274C}';
  }

  // ---------------------------------------------------------------- complete

  /** `UPDATE tasks SET completed = 1, updated_at = now WHERE id = ?`. */
  function MarkDone(ts: seq<Task>, id: nat, now: int): (r: seq<Task>)
    ensures |r| == |ts|
  {
    if |ts| == 0 then [] else
      [if ts[0].id == id then ts[0].(completed := true, updated := now) else ts[0]] + MarkDone(ts[1..], id, now)
  }

  /** The row with the id is marked done and stamped; every other row is unchanged. */
  lemma {:induction false} MarkDoneAt(ts: seq<Task>, id: nat, now: int, i: int)
    requires 0 <= i < |ts|
    ensures MarkDone(ts, id, now)[i] == if ts[i].id == id then ts[i].(completed := true, updated := now) else ts[i]
    decreases |ts|
  {
    if i > 0 {
      MarkDoneAt(ts[1..], id, now, i - 1);
      assert MarkDone(ts, id, now)[i] == MarkDone(ts[1..], id, now)[i - 1];
    }
  }

  lemma MarkDoneEach(ts: seq<Task>, id: nat, now: int)
    ensures forall i :: 0 <= i < |ts| ==>
              MarkDone(ts, id, now)[i] == if ts[i].id == id then ts[i].(completed := true, updated := now) else ts[i]
  {
    forall i | 0 <= i < |ts|
      ensures MarkDone(ts, id, now)[i] == if ts[i].id == id then ts[i].(completed := true, updated := now) else ts[i]
    {
      MarkDoneAt(ts, id, now, i);
    }
  }

  function CompletedReply(title: string): string {
    "🎉 Completed: *" + title + "*\n\nGreat job! Type `list` to see remaining tasks."
  }

  /** handleCompleteTask. */
  function HandleCompleteTask(st: Store, n: Option<int>, env: Env): (r: Outcome)
    ensures !ValidNumber(n) ==> r == Outcome(st, InvalidNumberReply("complete"))
    ensures ValidNumber(n) && n.value > |PendingView(st)| ==>
              r == Outcome(st, NotFoundReply(n.value, |PendingView(st)|, "pending"))
    ensures ValidNumber(n) && n.value <= |PendingView(st)| ==>
              var t := PendingView(st)[n.value - 1];
              && r.reply == CompletedReply(t.title)
              && r.store == st.(tasks := MarkDone(st.tasks, t.id, env.now))
  {
    if !ValidNumber(n) then Outcome(st, InvalidNumberReply("complete"))
    else
      var v := PendingView(st);
      if n.value > |v| then Outcome(st, NotFoundReply(n.value, |v|, "pending"))
      else
        var t := v[n.value - 1];
        Outcome(st.(tasks := MarkDone(st.tasks, t.id, env.now)), CompletedReply(t.title))
  }

  lemma MarkDoneAbsent(ts: seq<Task>, id: nat, now: int)
    requires forall x :: x in ts ==> x.id != id
    ensures MarkDone(ts, id, now) == ts
  {
  }

  /** The rest of a table with distinct ids has distinct ids and none equal to
      the first row's. */
  lemma DistinctTail(ts: seq<Task>)
    requires DistinctTaskIds(ts) && |ts| > 0
    ensures DistinctTaskIds(ts[1..])
    ensures forall x :: x in ts[1..] ==> x.id != ts[0].id
  {
    forall x | x in ts[1..] ensures x.id != ts[0].id {
      var k :| 0 <= k < |ts[1..]| && ts[1..][k] == x;
      assert ts[k + 1] == x;
    }
  }

  /** A record of the table other than the first is in the rest. */
  lemma InTail(ts: seq<Task>, t: Task)
    requires t in ts && ts[0] != t
    ensures t in ts[1..]
  {
    var k :| 0 <= k < |ts| && ts[k] == t;
    assert ts[1..][k - 1] == t;
  }

  lemma MarkDoneFirst(ts: seq<Task>, id: nat, now: int)
    requires |ts| > 0
    ensures var m := MarkDone(ts, id, now);
            m[1..] == MarkDone(ts[1..], id, now)
            && m[0] == if ts[0].id == id then ts[0].(completed := true, updated := now) else ts[0]
  {
  }

  lemma RemoveFromRest(head: multiset<Task>, rest: multiset<Task>, t: Task)
    requires t in rest
    ensures head + (rest - multiset{t}) == (head + rest) - multiset{t}
  {
    assert forall x :: (head + (rest - multiset{t}))[x] == ((head + rest) - multiset{t})[x];
  }

  /** Marking one pending task done removes exactly that task from the pending ones. */
  lemma {:induction false} PendingAfterMark(ts: seq<Task>, t: Task, now: int)
    requires DistinctTaskIds(ts)
    requires t in ts && !t.completed
    ensures multiset(WithStatus(MarkDone(ts, t.id, now), false)) == multiset(WithStatus(ts, false)) - multiset{t}
    decreases |ts|
  {
    var m := MarkDone(ts, t.id, now);
    MarkDoneFirst(ts, t.id, now);
    WithStatusFirst(m, false);
    WithStatusFirst(ts, false);
    DistinctTail(ts);
    var rest := multiset(WithStatus(ts[1..], false));
    if ts[0] == t {
      MarkDoneAbsent(ts[1..], t.id, now);
      assert multiset(WithStatus(m, false)) == rest;
      assert multiset(WithStatus(ts, false)) == multiset{t} + rest;
    } else {
      InTail(ts, t);
      PendingAfterMark(ts[1..], t, now);
      var head := if ts[0].completed then multiset{} else multiset{ts[0]};
      assert t in rest;
      assert multiset(WithStatus(m, false)) == head + (rest - multiset{t});
      assert multiset(WithStatus(ts, false)) == head + rest;
      RemoveFromRest(head, rest, t);
    }
  }

  /** Marking one pending task done adds the marked record to the completed ones. */
  lemma {:induction false} CompletedAfterMark(ts: seq<Task>, t: Task, now: int)
    requires DistinctTaskIds(ts)
    requires t in ts && !t.completed
    ensures multiset(WithStatus(MarkDone(ts, t.id, now), true)) ==
              multiset(WithStatus(ts, true)) + multiset{t.(completed := true, updated := now)}
    decreases |ts|
  {
    var m := MarkDone(ts, t.id, now);
    MarkDoneFirst(ts, t.id, now);
    WithStatusFirst(m, true);
    WithStatusFirst(ts, true);
    DistinctTail(ts);
    if ts[0] == t {
      MarkDoneAbsent(ts[1..], t.id, now);
    } else {
      InTail(ts, t);
      CompletedAfterMark(ts[1..], t, now);
    }
  }

  lemma MarkDoneDistinct(ts: seq<Task>, id: nat, now: int)
    requires DistinctTaskIds(ts)
    ensures DistinctTaskIds(MarkDone(ts, id, now))
  {
    MarkDoneEach(ts, id, now);
  }

  /** `complete n` for a number in range marks the n-th task of the pending order. */
  lemma CompleteAt(st: Store, n: nat, env: Env)
    requires 1 <= n <= |PendingView(st)|
    ensures var t := PendingView(st)[n - 1];
            && HandleCompleteTask(st, Some(n), env).reply == CompletedReply(t.title)
            && HandleCompleteTask(st, Some(n), env).store == st.(tasks := MarkDone(st.tasks, t.id, env.now))
  {
    CompleteSome(st, Some(n), env);
  }

  lemma CompleteSome(st: Store, n: Option<int>, env: Env)
    requires n.Some? && 1 <= n.value <= |PendingView(st)|
    ensures var t := PendingView(st)[n.value - 1];
            && HandleCompleteTask(st, n, env).reply == CompletedReply(t.title)
            && HandleCompleteTask(st, n, env).store == st.(tasks := MarkDone(st.tasks, t.id, env.now))
  {
  }

  /** Completing task n closes the gap: the pending list loses its n-th line and
      keeps the others in order. */
  lemma CompleteShrinksPending(st: Store, n: nat, env: Env)
    requires DistinctTaskIds(st.tasks)
    requires 1 <= n <= |PendingView(st)|
    ensures var v := PendingView(st);
            PendingView(HandleCompleteTask(st, Some(n), env).store) == v[..n - 1] + v[n..]
  {
    var v := PendingView(st);
    var k: int := n - 1;
    var t := v[k];
    CompleteAt(st, n, env);
    var st' := HandleCompleteTask(st, Some(n), env).store;
    var rest := v[..k] + v[k + 1..];
    assert rest == v[..n - 1] + v[n..];
    assert t in v;
    PendingAfterMark(st.tasks, t, env.now);
    PendingSorted(st);
    SortedRemove(v, k, ByKey(DueKey));
    RemoveMultiset(v, k);
    MarkDoneDistinct(st.tasks, t.id, env.now);
    var pending' := WithStatus(st'.tasks, false);
    DueTotal(pending', st'.tasks);
    ByKeyOrder(DueKey);
    SortIsUnique(pending', rest, ByKey(DueKey));
  }

  /** The completed task shows up in `done`, marked and stamped. */
  lemma CompleteGrowsCompleted(st: Store, n: nat, env: Env)
    requires DistinctTaskIds(st.tasks)
    requires 1 <= n <= |PendingView(st)|
    ensures var t := PendingView(st)[n - 1];
            multiset(CompletedView(HandleCompleteTask(st, Some(n), env).store)) ==
              multiset(CompletedView(st)) + multiset{t.(completed := true, updated := env.now)}
  {
    var t := PendingView(st)[n - 1];
    CompleteAt(st, n, env);
    PendingElement(st, n - 1);
    CompletedViewAfterMark(st, t, env.now);
  }

  lemma CompletedViewAfterMark(st: Store, t: Task, now: int)
    requires DistinctTaskIds(st.tasks)
    requires t in st.tasks && !t.completed
    ensures multiset(CompletedView(st.(tasks := MarkDone(st.tasks, t.id, now)))) ==
              multiset(CompletedView(st)) + multiset{t.(completed := true, updated := now)}
  {
    CompletedAfterMark(st.tasks, t, now);
  }

  lemma CompletePreserves(st: Store, n: Option<int>, env: Env)
    requires Valid(st) && NamesUnique(st.categories)
    ensures Valid(HandleCompleteTask(st, n, env).store) && NamesUnique(HandleCompleteTask(st, n, env).store.categories)
  {
    if ValidNumber(n) && n.value <= |PendingView(st)| {
      var t := PendingView(st)[n.value - 1];
      var ts := MarkDone(st.tasks, t.id, env.now);
      MarkDoneDistinct(st.tasks, t.id, env.now);
      forall x | x in ts ensures x.id < st.nextTaskId {
        var k :| 0 <= k < |ts| && ts[k] == x;
        MarkDoneAt(st.tasks, t.id, env.now, k);
        assert st.tasks[k] in st.tasks;
      }
    }
  }

  lemma CompleteReplies(st: Store, n: Option<int>, env: Env)
    ensures HandleCompleteTask(st, n, env).reply != ""
  {
    NumberRepliesNotEmpty("complete", n.GetOr(0), |PendingView(st)|, "pending");
    if ValidNumber(n) && n.value <= |PendingView(st)| {
      var title := PendingView(st)[n.value - 1].title;
      assert CompletedReply(title)[0] == '\U{1F389}';
    }
  }

  // ---------------------------------------------------------------- delete

  /** `DELETE FROM tasks WHERE id = ?`. */
  function RemoveId(ts: seq<Task>, id: nat): (r: seq<Task>)
    ensures forall x :: x in r <==> x in ts && x.id != id
    ensures |r| <= |ts|
  {
    if |ts| == 0 then []
    else (if ts[0].id == id then [] else [ts[0]]) + RemoveId(ts[1..], id)
  }

  function DeletedReply(title: string): string {
    "🗑️ Deleted: *" + title + "*\n\nType `list` to see remaining tasks."
  }

  /** handleDeleteTask. */
  function HandleDeleteTask(st: Store, n: Option<int>, env: Env): (r: Outcome)
    ensures !ValidNumber(n) ==> r == Outcome(st, InvalidNumberReply("delete"))
    ensures ValidNumber(n) && n.value > |DeleteView(st)| ==>
              r == Outcome(st, NotFoundReply(n.value, |DeleteView(st)|, "total"))
    ensures ValidNumber(n) && n.value <= |DeleteView(st)| ==>
              var t := DeleteView(st)[n.value - 1];
              && r.reply == DeletedReply(t.title)
              && r.store == st.(tasks := RemoveId(st.tasks, t.id))
  {
    if !ValidNumber(n) then Outcome(st, InvalidNumberReply("delete"))
    else
      var v := DeleteView(st);
      if n.value > |v| then Outcome(st, NotFoundReply(n.value, |v|, "total"))
      else
        var t := v[n.value - 1];
        Outcome(st.(tasks := RemoveId(st.tasks, t.id)), DeletedReply(t.title))
  }

  lemma DeleteReplies(st: Store, n: Option<int>, env: Env)
    ensures HandleDeleteTask(st, n, env).reply != ""
  {
    NumberRepliesNotEmpty("delete", n.GetOr(0), |DeleteView(st)|, "total");
    if ValidNumber(n) && n.value <= |DeleteView(st)| {
      var title := DeleteView(st)[n.value - 1].title;
      assert DeletedReply(title)[0] == '\U{1F5D1}';
    }
  }

  /** Deleting by id removes exactly the one record with that id. */
  lemma {:induction false} RemoveIdMultiset(ts: seq<Task>, t: Task)
    requires DistinctTaskIds(ts)
    requires t in ts
    ensures multiset(RemoveId(ts, t.id)) == multiset(ts) - multiset{t}
    decreases |ts|
  {
    DistinctTail(ts);
    MultisetFirst(ts);
    if ts[0] == t {
      RemoveIdAbsent(ts[1..], t.id);
      assert RemoveId(ts, t.id) == ts[1..];
    } else {
      InTail(ts, t);
      RemoveIdMultiset(ts[1..], t);
      var tail := RemoveId(ts[1..], t.id);
      assert RemoveId(ts, t.id) == [ts[0]] + tail;
      MultisetFirst([ts[0]] + tail);
      assert ([ts[0]] + tail)[1..] == tail;
      RemoveFromRest(multiset{ts[0]}, multiset(ts[1..]), t);
    }
  }

  lemma RemoveIdAbsent(ts: seq<Task>, id: nat)
    requires forall x :: x in ts ==> x.id != id
    ensures RemoveId(ts, id) == ts
  {
  }

  /** A record whose id no other record has can head a table with distinct ids. */
  lemma ConsDistinct(h: Task, tail: seq<Task>)
    requires DistinctTaskIds(tail)
    requires forall x :: x in tail ==> x.id != h.id
    ensures DistinctTaskIds([h] + tail)
  {
    var r := [h] + tail;
    forall i, j | 0 <= i < |r| && 0 <= j < |r| && i != j ensures r[i].id != r[j].id {
      if i == 0 {
        assert r[j] == tail[j - 1] && r[j] in tail;
      } else if j == 0 {
        assert r[i] == tail[i - 1] && r[i] in tail;
      } else {
        assert r[i] == tail[i - 1] && r[j] == tail[j - 1];
      }
    }
  }

  lemma {:induction false} RemoveIdDistinct(ts: seq<Task>, id: nat)
    requires DistinctTaskIds(ts)
    ensures DistinctTaskIds(RemoveId(ts, id))
    decreases |ts|
  {
    if |ts| > 0 {
      DistinctTail(ts);
      RemoveIdDistinct(ts[1..], id);
      var tail := RemoveId(ts[1..], id);
      if ts[0].id != id {
        ConsDistinct(ts[0], tail);
        assert RemoveId(ts, id) == [ts[0]] + tail;
      } else {
        assert RemoveId(ts, id) == tail;
      }
    }
  }

  /** Deleting task n closes the gap in the delete numbering. */
  lemma DeleteShrinksView(st: Store, n: nat, env: Env)
    requires DistinctTaskIds(st.tasks)
    requires 1 <= n <= |DeleteView(st)|
    ensures var v := DeleteView(st);
            DeleteView(HandleDeleteTask(st, Some(n), env).store) == v[..n - 1] + v[n..]
  {
    var v := DeleteView(st);
    var k: int := n - 1;
    var t := v[k];
    DeleteAt(st, n, env);
    var st' := HandleDeleteTask(st, Some(n), env).store;
    var rest := v[..k] + v[k + 1..];
    assert rest == v[..n - 1] + v[n..];
    assert t in multiset(st.tasks);
    RemoveIdMultiset(st.tasks, t);
    DeleteSorted(st);
    SortedRemove(v, k, ByKey(CompletionKey));
    RemoveMultiset(v, k);
    RemoveIdDistinct(st.tasks, t.id);
    DueTotal(st'.tasks, st'.tasks);
    ByKeyOrder(CompletionKey);
    SortIsUnique(st'.tasks, rest, ByKey(CompletionKey));
  }

  lemma DeletePreserves(st: Store, n: Option<int>, env: Env)
    requires Valid(st) && NamesUnique(st.categories)
    ensures Valid(HandleDeleteTask(st, n, env).store) && NamesUnique(HandleDeleteTask(st, n, env).store.categories)
  {
    if ValidNumber(n) && n.value <= |DeleteView(st)| {
      var t := DeleteView(st)[n.value - 1];
      RemoveIdDistinct(st.tasks, t.id);
    }
  }

  /** `delete m` for a number in range removes the m-th task of the delete order. */
  lemma DeleteAt(st: Store, m: nat, env: Env)
    requires 1 <= m <= |DeleteView(st)|
    ensures var t := DeleteView(st)[m - 1];
            && HandleDeleteTask(st, Some(m), env).reply == DeletedReply(t.title)
            && HandleDeleteTask(st, Some(m), env).store == st.(tasks := RemoveId(st.tasks, t.id))
  {
  }

  /** For a pending task, `delete n` removes the task `list` shows as n. */
  lemma DeletePendingAsListed(st: Store, n: nat, env: Env)
    requires DistinctTaskIds(st.tasks)
    requires 1 <= n <= |PendingView(st)|
    ensures HandleDeleteTask(st, Some(n), env).reply == DeletedReply(PendingView(st)[n - 1].title)
    ensures HandleDeleteTask(st, Some(n), env).store == st.(tasks := RemoveId(st.tasks, PendingView(st)[n - 1].id))
  {
    PendingInDeleteView(st, n);
    DeleteAt(st, n, env);
  }

  /** The task `done` shows as n is the one `delete` counts as n plus the number
      of pending tasks. */
  lemma DeleteCompletedOffset(st: Store, n: nat, m: nat, env: Env)
    requires DistinctTaskIds(st.tasks)
    requires 1 <= n <= |CompletedView(st)| && m == |PendingView(st)| + n
    ensures HandleDeleteTask(st, Some(m), env).reply == DeletedReply(CompletedView(st)[n - 1].title)
    ensures HandleDeleteTask(st, Some(m), env).store == st.(tasks := RemoveId(st.tasks, CompletedView(st)[n - 1].id))
  {
    CompletedInDeleteView(st, n, m);
    DeleteAt(st, m, env);
  }

}
