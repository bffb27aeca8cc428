/**
 * The command classifier of processWhatsAppMessage: the message is lower-cased,
 * tested against the command words in a fixed order, and turned into one intent
 * carrying its argument. The argument of `add` and `newcat` is cut from the
 * message as typed; the task number of `complete` and `delete` is read from the
 * lower-cased message with `parseInt(msg.split(' ')[1])`.
 */
module Classifier {
  import opened Wrappers
  import opened Text
  import opened Numbers

  /** String.prototype.split with a one-character separator. */
  function Split(s: string, sep: char): (r: seq<string>)
    ensures |r| >= 1
    ensures forall i :: 0 <= i < |r| ==> sep !in r[i]
    decreases |s|
  {
    if |s| == 0 then [""]
    else
      var rest := Split(s[1..], sep);
      if s[0] == sep then [""] + rest
      else [[s[0]] + rest[0]] + rest[1..]
  }

  /** Array.prototype.join with a one-character separator. */
  function Join(fields: seq<string>, sep: char): string
    requires |fields| >= 1
    decreases |fields|
  {
    if |fields| == 1 then fields[0] else fields[0] + [sep] + Join(fields[1..], sep)
  }

  lemma JoinCons(x: string, fields: seq<string>, sep: char)
    requires |fields| >= 1
    ensures Join([x + fields[0]] + fields[1..], sep) == x + Join(fields, sep)
  {
    var fs := [x + fields[0]] + fields[1..];
    if |fields| > 1 {
      assert fs[1..] == fields[1..];
    }
  }

  /** Joining the fields again gives back the text that was split. */
  lemma {:induction false} SplitJoin(s: string, sep: char)
    ensures Join(Split(s, sep), sep) == s
    decreases |s|
  {
    if |s| > 0 {
      var rest := Split(s[1..], sep);
      SplitJoin(s[1..], sep);
      if s[0] == sep {
        assert ([""] + rest)[1..] == rest;
        assert s == [sep] + s[1..];
      } else {
        JoinCons([s[0]], rest, sep);
        assert s == [s[0]] + s[1..];
      }
    }
  }

  /** Text without the separator in front of the rest of a split. */
  lemma {:induction false} SplitNoSep(a: string, t: string, sep: char)
    requires sep !in a
    ensures Split(a + t, sep) == [a + Split(t, sep)[0]] + Split(t, sep)[1..]
    decreases |a|
  {
    if |a| > 0 {
      assert (a + t)[0] == a[0];
      assert (a + t)[1..] == a[1..] + t;
      SplitNoSep(a[1..], t, sep);
      var r := Split(t, sep);
      var rest := Split((a + t)[1..], sep);
      assert rest == [a[1..] + r[0]] + r[1..];
      assert rest[0] == a[1..] + r[0] && rest[1..] == r[1..];
      assert a == [a[0]] + a[1..];
      assert [a[0]] + rest[0] == a + r[0];
    } else {
      assert a + t == t;
      var r := Split(t, sep);
      assert r == [r[0]] + r[1..];
      assert a + r[0] == r[0];
    }
  }

  /** Splitting the join of separator-free fields gives back the fields. */
  lemma {:induction false} JoinSplit(fields: seq<string>, sep: char)
    requires |fields| >= 1
    requires forall i :: 0 <= i < |fields| ==> sep !in fields[i]
    ensures Split(Join(fields, sep), sep) == fields
    decreases |fields|
  {
    var a := fields[0];
    if |fields| == 1 {
      SplitNoSep(a, [], sep);
      assert a + [] == a;
    } else {
      var t := [sep] + Join(fields[1..], sep);
      assert Join(fields, sep) == a + t;
      SplitNoSep(a, t, sep);
      JoinSplit(fields[1..], sep);
      assert t[1..] == Join(fields[1..], sep);
      assert Split(t, sep) == [""] + fields[1..];
      assert a + "" == a;
      assert fields == [a] + fields[1..];
    }
  }

  /** `parseInt(msg.split(' ')[1])`; a missing field is `undefined`, which parses as NaN. */
  function TaskNumber(msg: string): (r: Option<int>)
    ensures |Split(msg, ' ')| < 2 ==> r.None?
    ensures |Split(msg, ' ')| >= 2 ==> r == ParseInt(Split(msg, ' ')[1])
  {
    var fields := Split(msg, ' ');
    if |fields| < 2 then None else ParseInt(fields[1])
  }

  /** Which tasks a listing shows: handleListTasks(false), (true) and (null). */
  datatype ListFilter = PendingOnly | CompletedOnly | AllTasks

  datatype Intent =
    | Help
    | AddTask(input: string)
    | ListTasks(filter: ListFilter)
    | CompleteTask(number: Option<int>)
    | DeleteTask(number: Option<int>)
    | ListCategories
    | AddCategory(name: string)
    | Unrecognized

  /** The if/else chain of processWhatsAppMessage on the lower-cased message,
      tried in source order. Arguments are left blank here: `Classify` cuts the
      free text from the message as typed and reads the task number. */
  function Route(msg: string): (i: Intent)
    ensures i.AddTask? ==> StartsWith(msg, "add ")
    ensures i.AddCategory? ==> StartsWith(msg, "newcat ")
    ensures Shape(i) == i
  {
    if msg == "help" || msg == "/help" || msg == "menu" then Help
    else if StartsWith(msg, "add ") then AddTask("")
    else if msg == "list" || msg == "tasks" then ListTasks(PendingOnly)
    else if msg == "done" || msg == "completed" then ListTasks(CompletedOnly)
    else if msg == "all" then ListTasks(AllTasks)
    else if StartsWith(msg, "complete ") || StartsWith(msg, "done ") then CompleteTask(None)
    else if StartsWith(msg, "delete ") || StartsWith(msg, "remove ") then DeleteTask(None)
    else if msg == "categories" || msg == "cats" then ListCategories
    else if StartsWith(msg, "newcat ") then AddCategory("")
    else Unrecognized
  }

  /** The intent of a chat message: `add` keeps the text after "add " as typed,
      `newcat` the trimmed text after "newcat ", and `complete`/`delete` read
      their number from the lower-cased message. */
  function Classify(text: string): (i: Intent)
    ensures Shape(i) == Route(Lower(text))
    ensures i.AddTask? ==> |text| >= 4 && i.input == text[4..]
    ensures i.AddCategory? ==> |text| >= 7 && i.name == Trim(text[7..])
    ensures i.CompleteTask? ==> i.number == TaskNumber(Lower(text))
    ensures i.DeleteTask? ==> i.number == TaskNumber(Lower(text))
  {
    WithPayload(text, Lower(text), Route(Lower(text)))
  }

  /** Fills in the argument of a routed intent. */
  function WithPayload(text: string, msg: string, r: Intent): (i: Intent)
    requires Shape(r) == r
    requires r.AddTask? ==> |text| >= 4
    requires r.AddCategory? ==> |text| >= 7
    ensures Shape(i) == r
    ensures i.AddTask? ==> i.input == text[4..]
    ensures i.AddCategory? ==> i.name == Trim(text[7..])
    ensures i.CompleteTask? ==> i.number == TaskNumber(msg)
    ensures i.DeleteTask? ==> i.number == TaskNumber(msg)
  {
    if r.AddTask? then AddTask(text[4..])
    else if r.AddCategory? then AddCategory(Trim(text[7..]))
    else if r.CompleteTask? then CompleteTask(TaskNumber(msg))
    else if r.DeleteTask? then DeleteTask(TaskNumber(msg))
    else r
  }

  /** The intent with its argument blanked out. */
  function Shape(i: Intent): (s: Intent)
    ensures s.AddTask? <==> i.AddTask?
    ensures s.AddCategory? <==> i.AddCategory?
    ensures s.CompleteTask? <==> i.CompleteTask?
    ensures s.DeleteTask? <==> i.DeleteTask?
  {
    match i
    case AddTask(_) => AddTask("")
    case AddCategory(_) => AddCategory("")
    case CompleteTask(_) => CompleteTask(None)
    case DeleteTask(_) => DeleteTask(None)
    case _ => i
  }

  /** Letter case of the message only matters inside the free-text arguments,
      and there only up to case. */
  lemma ClassifyIgnoresCase(a: string, b: string)
    requires SameName(a, b)
    ensures Shape(Classify(a)) == Shape(Classify(b))
    ensures Classify(a).AddTask? ==> SameName(Classify(a).input, Classify(b).input)
  {
    if Classify(a).AddTask? {
      assert Lower(a[4..]) == Lower(a)[4..];
      assert Lower(b[4..]) == Lower(b)[4..];
    }
  }

  /** A message that is the canonical spelling of an intent. Unrecognized is the
      empty message. */
  function CommandText(i: Intent): string {
    match i
    case Help => "help"
    case AddTask(input) => "add " + input
    case ListTasks(f) =>
      (match f
       case PendingOnly => "list"
       case CompletedOnly => "done"
       case AllTasks => "all")
    case CompleteTask(n) => "complete " + NumberText(n)
    case DeleteTask(n) => "delete " + NumberText(n)
    case ListCategories => "categories"
    case AddCategory(name) => "newcat " + name
    case Unrecognized => ""
  }

  /** A task number as typed; NaN is an empty field. */
  function NumberText(n: Option<int>): string {
    match n
    case None => ""
    case Some(v) => IntToString(v)
  }

  /** Intents whose argument survives the trip through a message: a category
      name is always trimmed. */
  predicate Canonical(i: Intent) {
    i.AddCategory? ==> i.name == Trim(i.name)
  }

  lemma LowerNumberText(n: Option<int>)
    ensures Lower(NumberText(n)) == NumberText(n)
    ensures ' ' !in NumberText(n)
  {
    var t := NumberText(n);
    if n.Some? && n.value < 0 {
      assert forall k :: 1 <= k < |t| ==> t[k] == NatToString(-n.value)[k - 1];
    }
    assert forall k :: 0 <= k < |t| ==> t[k] == '-' || IsDecimalDigit(t[k]);
  }

  /** A command word already in lower case and free of spaces. */
  lemma LowerIdentity(s: string)
    requires forall k :: 0 <= k < |s| ==> !('A' <= s[k] <= 'Z')
    ensures Lower(s) == s
  {
  }

  /** The number a `complete`/`delete` message carries reads back as typed. */
  lemma {:induction false} NumberRoundTrip(head: string, n: Option<int>)
    requires |head| > 0 && head[|head| - 1] == ' ' && ' ' !in head[..|head| - 1]
    ensures TaskNumber(head + NumberText(n)) == n
  {
    var t := NumberText(n);
    var word := head[..|head| - 1];
    LowerNumberText(n);
    var msg := head + t;
    assert msg == word + [' '] + t;
    assert msg == Join([word, t], ' ');
    JoinSplit([word, t], ' ');
    if n.Some? {
      ParseIntOfIntToString(n.value, []);
      assert t + [] == t;
    } else {
      assert ParseUnsigned(Unsigned(TrimStart(""))) == None;
    }
  }

  lemma RouteAdd(msg: string)
    requires StartsWith(msg, "add ")
    ensures Route(msg) == AddTask("")
  {
    assert msg[0] == 'a';
  }

  lemma RouteComplete(msg: string)
    requires StartsWith(msg, "complete ")
    ensures Route(msg) == CompleteTask(None)
  {
    assert msg[0] == 'c' && msg[1] == 'o' && msg[8] == ' ';
    assert msg != "completed";
  }

  lemma RouteDone(msg: string)
    requires StartsWith(msg, "done ")
    ensures Route(msg) == CompleteTask(None)
  {
    assert msg[0] == 'd' && msg[1] == 'o' && msg[4] == ' ';
  }

  lemma RouteDelete(msg: string)
    requires StartsWith(msg, "delete ")
    ensures Route(msg) == DeleteTask(None)
  {
    assert msg[0] == 'd' && msg[1] == 'e';
  }

  lemma RouteNewcat(msg: string)
    requires StartsWith(msg, "newcat ")
    ensures Route(msg) == AddCategory("")
  {
    assert msg[0] == 'n';
  }

  lemma ClassifyAddText(input: string)
    ensures Classify("add " + input) == AddTask(input)
  {
    var text := "add " + input;
    LowerIdentity("add ");
    LowerAppend("add ", input);
    RouteAdd(Lower(text));
    assert text[4..] == input;
  }

  lemma ClassifyCompleteText(n: Option<int>)
    ensures Classify("complete " + NumberText(n)) == CompleteTask(n)
  {
    var text := "complete " + NumberText(n);
    LowerNumberText(n);
    LowerIdentity("complete ");
    LowerAppend("complete ", NumberText(n));
    assert Lower(text) == text;
    RouteComplete(text);
    NumberRoundTrip("complete ", n);
  }

  lemma ClassifyDeleteText(n: Option<int>)
    ensures Classify("delete " + NumberText(n)) == DeleteTask(n)
  {
    var text := "delete " + NumberText(n);
    LowerNumberText(n);
    LowerIdentity("delete ");
    LowerAppend("delete ", NumberText(n));
    assert Lower(text) == text;
    RouteDelete(text);
    NumberRoundTrip("delete ", n);
  }

  lemma ClassifyNewcatText(name: string)
    requires name == Trim(name)
    ensures Classify("newcat " + name) == AddCategory(name)
  {
    var text := "newcat " + name;
    LowerIdentity("newcat ");
    LowerAppend("newcat ", name);
    assert Lower(text)[..7] == "newcat ";
    RouteNewcat(Lower(text));
    assert text[7..] == name;
  }

  lemma ClassifyListText(f: ListFilter)
    ensures Classify(CommandText(ListTasks(f))) == ListTasks(f)
  {
    var msg := CommandText(ListTasks(f));
    LowerIdentity(msg);
  }

  lemma RouteCategories()
    ensures Route("categories") == ListCategories
  {
    var msg := "categories";
    assert msg[0] == 'c' && msg[1] == 'a' && msg[2] == 't';
    assert !StartsWith(msg, "add ") && !StartsWith(msg, "done ");
    assert !StartsWith(msg, "complete ") && !StartsWith(msg, "delete ") && !StartsWith(msg, "remove ");
  }

  lemma ClassifyCategoriesText()
    ensures Classify("categories") == ListCategories
  {
    LowerIdentity("categories");
    RouteCategories();
  }

  /** Equality is tested before the prefixes: `done` alone lists completed
      tasks, while `done <n>` completes task n; `/help` and `menu` mean help. */
  lemma ClassifyAliases(n: Option<int>)
    ensures Classify("done") == ListTasks(CompletedOnly)
    ensures Classify("done " + NumberText(n)) == CompleteTask(n)
    ensures Classify("/help") == Help && Classify("menu") == Help
  {
    RouteWords();
    LowerIdentity("done");
    LowerIdentity("/help");
    LowerIdentity("menu");
    ClassifyDoneText(n);
  }

  lemma RouteWords()
    ensures Route("done") == ListTasks(CompletedOnly)
    ensures Route("/help") == Help && Route("menu") == Help
  {
    assert "done"[0] != "help"[0] && "done"[0] != "menu"[0] && "done"[0] != "list"[0];
    assert "menu"[0] != "help"[0];
    assert !StartsWith("done", "add ");
  }

  lemma ClassifyDoneText(n: Option<int>)
    ensures Classify("done " + NumberText(n)) == CompleteTask(n)
  {
    var text := "done " + NumberText(n);
    LowerNumberText(n);
    LowerIdentity("done ");
    LowerAppend("done ", NumberText(n));
    assert Lower(text) == text;
    RouteDone(text);
    NumberRoundTrip("done ", n);
  }

  /** Classifying the canonical text of an intent gives the intent back. */
  lemma {:induction false} ClassifyCommandText(i: Intent)
    requires Canonical(i)
    ensures Classify(CommandText(i)) == i
  {
    match i
    case AddTask(input) => ClassifyAddText(input);
    case CompleteTask(n) => ClassifyCompleteText(n);
    case DeleteTask(n) => ClassifyDeleteText(n);
    case AddCategory(name) => ClassifyNewcatText(name);
    case Help => assert Lower("help") == "help";
    case ListTasks(f) => ClassifyListText(f);
    case ListCategories => ClassifyCategoriesText();
    case Unrecognized => assert Lower("") == "";
  }
}
