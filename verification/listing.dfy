/**
 * The task listings of `list`, `done` and `all` (handleListTasks): a header,
 * one numbered line per task of the view, and for `list` a footer of quick
 * actions; an empty view has its own message per filter.
 */
module Listing {
  import opened Wrappers
  import opened Text
  import opened Numbers
  import opened Model
  import opened Dates
  import opened Classifier
  import opened Views
  import opened Tasks

  /** The tasks a listing shows, in the order it shows them. */
  function View(st: Store, f: ListFilter): seq<Task> {
    match f
    case PendingOnly => PendingView(st)
    case CompletedOnly => CompletedView(st)
    case AllTasks => AllView(st)
  }

  /** `LEFT JOIN categories c ON t.category_id = c.id`: the name of the row with
      the task's category id, if there is one. */
  function CategoryName(cs: seq<Category>, id: Option<nat>): (r: Option<string>)
    ensures r.Some? ==> id.Some? && exists k :: 0 <= k < |cs| && cs[k].id == id.value && cs[k].name == r.value
    ensures r.None? ==> id.None? || forall k :: 0 <= k < |cs| ==> cs[k].id != id.value
  {
    if id.None? || |cs| == 0 then None
    else if cs[0].id == id.value then Some(cs[0].name)
    else
      var r := CategoryName(cs[1..], id);
      assert r.Some? ==> id.Some? && exists k :: 0 <= k < |cs| && cs[k].id == id.value && cs[k].name == r.value by {
        if r.Some? {
          var k :| 0 <= k < |cs[1..]| && cs[1..][k].id == id.value && cs[1..][k].name == r.value;
          assert cs[k + 1] == cs[1..][k];
        }
      }
      r
  }

  /** One line of a listing: status mark, number, title (struck through when
      done), the category when its name is not empty, and the due badge. */
  function TaskLine(t: Task, number: nat, cs: seq<Category>, env: Env): string {
    (if t.completed then "✅" else "⭕") + " *" + NatToString(number) + ".* "
    + (if t.completed then "~" + t.title + "~" else t.title)
    + Details(t, cs, env)
  }

  /** What follows the title: the category when its name is not empty, the due
      badge, and the line break. */
  function Details(t: Task, cs: seq<Category>, env: Env): (r: string)
    ensures |r| > 0 && r[|r| - 1] == '\n'
  {
    (match CategoryName(cs, t.category)
     case Some(name) => if name != "" then " 📁" + name else ""
     case None => "")
    + (match t.due
       case Some(d) => " " + GetDueStatus(d, env).emoji + GetDueStatus(d, env).text
       case None => "")
    + "\n"
  }

  /** A line opens with the status mark and number, then the title: wrapped in
      `~` for a done task, as typed for a pending one. It ends with a line break. */
  lemma TaskLineShape(t: Task, number: nat, cs: seq<Category>, env: Env)
    ensures var line := TaskLine(t, number, cs, env);
            var head := " *" + NatToString(number) + ".* ";
            && |line| > 0 && line[|line| - 1] == '\n'
            && (line[0] == '✅' <==> t.completed)
            && (t.completed ==>
                  |line| >= 1 + |head| + |t.title| + 2 && line[..1 + |head| + |t.title| + 2] == "✅" + head + "~" + t.title + "~")
            && (!t.completed ==>
                  |line| >= 1 + |head| + |t.title| && line[..1 + |head| + |t.title|] == "⭕" + head + t.title)
  {
    var head := " *" + NatToString(number) + ".* ";
    var line := TaskLine(t, number, cs, env);
    var shown := if t.completed then "~" + t.title + "~" else t.title;
    var mark := if t.completed then "✅" else "⭕";
    var rest := Details(t, cs, env);
    assert line == mark + head + shown + rest;
    assert line[0] == mark[0] && "✅"[0] != "⭕"[0];
    if t.completed {
      assert line[..1 + |head| + |t.title| + 2] == mark + head + shown;
    } else {
      assert line[..1 + |head| + |t.title|] == mark + head + shown;
    }
  }

  function TaskLines(v: seq<Task>, cs: seq<Category>, env: Env): (lines: seq<string>)
    ensures |lines| == |v|
    ensures forall i :: 0 <= i < |v| ==> lines[i] == TaskLine(v[i], i + 1, cs, env)
  {
    seq(|v|, i requires 0 <= i < |v| => TaskLine(v[i], i + 1, cs, env))
  }

  function EmptyReply(f: ListFilter): string {
    match f
    case CompletedOnly => "🎉 No completed tasks yet. " + "Complete some tasks to see them here!"
    case PendingOnly => "📝 No pending tasks! " + "Add a new task with `add [task title]`"
    case AllTasks => "📝 No tasks found. " + "Add your first task with `add [task title]`"
  }

  function Header(f: ListFilter): string {
    match f
    case CompletedOnly => "✅ *Completed Tasks:*\n\n"
    case PendingOnly => "📋 *Your Tasks:*\n\n"
    case AllTasks => "📋 *All Tasks:*\n\n"
  }

  const QuickActions: string :=
    "\n💡 *Quick actions:*" + "\n• `complete [number]` - Mark as done" + "\n• `delete [number]` - Remove task"

  /** The reply for a view: the empty message, or header, lines and (for the
      pending filter) the quick actions. */
  function ListReply(v: seq<Task>, f: ListFilter, cs: seq<Category>, env: Env): (reply: string)
    ensures |v| == 0 <==> reply == EmptyReply(f)
    ensures |v| > 0 ==> reply == Header(f) + Concat(TaskLines(v, cs, env)) + (if f == PendingOnly then QuickActions else "")
  {
    if |v| == 0 then EmptyReply(f)
    else
      var reply := Header(f) + Concat(TaskLines(v, cs, env)) + (if f == PendingOnly then QuickActions else "");
      assert reply[0] == Header(f)[0];
      HeaderNotEmptyReply(f);
      reply
  }

  lemma HeaderNotEmptyReply(f: ListFilter)
    ensures |Header(f)| > 0 && Header(f)[0] != EmptyReply(f)[0]
  {
    match f
    case CompletedOnly =>
      assert Header(f)[0] == '\U{2705}' && EmptyReply(f)[0] == '\U{1F389}';
    case PendingOnly =>
      assert Header(f)[0] == '\U{1F4CB}' && EmptyReply(f)[0] == '\U{1F4DD}';
    case AllTasks =>
      assert Header(f)[0] == '\U{1F4CB}' && EmptyReply(f)[0] == '\U{1F4DD}';
  }

  /** handleListTasks. */
  function HandleListTasks(st: Store, f: ListFilter, env: Env): (reply: string)
    ensures |View(st, f)| == 0 <==> reply == EmptyReply(f)
    ensures |View(st, f)| > 0 ==>
              reply == Header(f) + Concat(TaskLines(View(st, f), st.categories, env))
                       + (if f == PendingOnly then QuickActions else "")
  {
    ListReply(View(st, f), f, st.categories, env)
  }

  lemma ListReplies(st: Store, f: ListFilter, env: Env)
    ensures HandleListTasks(st, f, env) != ""
  {
    var v := View(st, f);
    if |v| > 0 {
      HeaderNotEmptyReply(f);
      assert HandleListTasks(st, f, env)[0] == Header(f)[0];
    } else {
      assert |EmptyReply(f)| > 0;
    }
  }

  lemma {:induction false} ConcatEndsWithNewline(lines: seq<string>)
    requires |lines| > 0
    requires forall i :: 0 <= i < |lines| ==> |lines[i]| > 0 && lines[i][|lines[i]| - 1] == '\n'
    ensures var c := Concat(lines); |c| > 0 && c[|c| - 1] == '\n'
  {
    if |lines| > 1 {
      ConcatEndsWithNewline(lines[1..]);
    }
  }

  /** A non-empty listing ends with the quick actions exactly when it is the
      pending list; the other two end with the line break of their last task. */
  lemma QuickActionsOnlyPending(v: seq<Task>, f: ListFilter, cs: seq<Category>, env: Env)
    requires |v| > 0
    ensures var reply := ListReply(v, f, cs, env);
            && |reply| > 0 && (reply[|reply| - 1] == '\n' <==> f != PendingOnly)
            && (f == PendingOnly <==>
                  |reply| >= |QuickActions| && reply[|reply| - |QuickActions|..] == QuickActions)
  {
    var lines := TaskLines(v, cs, env);
    forall i | 0 <= i < |lines| ensures |lines[i]| > 0 && lines[i][|lines[i]| - 1] == '\n' {
      var l := lines[i];
      assert l == TaskLine(v[i], i + 1, cs, env);
    }
    ConcatEndsWithNewline(lines);
    var body := Header(f) + Concat(lines);
    var reply := ListReply(v, f, cs, env);
    QuickActionsEnd(reply);
    if f == PendingOnly {
      assert reply == body + QuickActions;
      assert reply[|reply| - |QuickActions|..] == QuickActions;
    } else {
      assert reply == body;
    }
  }

  /** The quick actions end with the `k` of "Remove task", not a line break. */
  lemma QuickActionsEnd(r: string)
    ensures |r| >= |QuickActions| && r[|r| - |QuickActions|..] == QuickActions ==> r[|r| - 1] == 'k'
  {
    var q := "\n• `delete [number]` - Remove task";
    assert q[|q| - 1] == 'k';
    assert QuickActions[|QuickActions| - 1] == 'k';
    if |r| >= |QuickActions| && r[|r| - |QuickActions|..] == QuickActions {
      assert r[|r| - 1] == r[|r| - |QuickActions|..][|QuickActions| - 1];
    }
  }

  /** The three empty listings say different things. */
  lemma EmptyRepliesDiffer(f: ListFilter, g: ListFilter)
    requires f != g
    ensures EmptyReply(f) != EmptyReply(g)
  {
    var c := EmptyReply(CompletedOnly);
    var p := EmptyReply(PendingOnly);
    var a := EmptyReply(AllTasks);
    assert c[0] == '\U{1F389}' && p[0] == '\U{1F4DD}' && a[0] == '\U{1F4DD}';
    assert p[5] == 'p' && a[5] == 't';
  }

  /** The number `list` prints beside a task is the number `complete` takes for it. */
  lemma ListThenComplete(st: Store, n: nat, env: Env)
    requires 1 <= n <= |PendingView(st)|
    ensures var t := View(st, PendingOnly)[n - 1];
            && TaskLines(View(st, PendingOnly), st.categories, env)[n - 1] == TaskLine(t, n, st.categories, env)
            && HandleCompleteTask(st, Some(n), env).reply == CompletedReply(t.title)
            && HandleCompleteTask(st, Some(n), env).store.tasks == MarkDone(st.tasks, t.id, env.now)
  {
    CompleteAt(st, n, env);
  }

  /** In every listing the undated tasks come first, and the due badges run
      Overdue, Due Today, Due Tomorrow, then later days. */
  lemma ListingOrder(st: Store, f: ListFilter, i: nat, j: nat, today: int)
    requires i < j < |View(st, f)|
    ensures var v := View(st, f);
            && (v[j].due.None? ==> v[i].due.None?)
            && (v[i].due.Some? && v[j].due.Some? ==>
                  Rank(BucketOf(v[i].due.value, today)) <= Rank(BucketOf(v[j].due.value, today)))
  {
    match f {
      case PendingOnly => PendingSorted(st);
      case CompletedOnly => CompletedSorted(st);
      case AllTasks => AllSorted(st);
    }
    DueOrderOfView(View(st, f), i, j, today);
  }
}
