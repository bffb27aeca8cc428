/**
 * processWhatsAppMessage: one chat message is classified and handled against
 * the store, giving the new store and the reply text. Sending the reply is
 * not part of the model.
 */
module Interpreter {
  import opened Wrappers
  import opened Text
  import opened Numbers
  import opened Model
  import opened AddArgs
  import opened Classifier
  import opened Categories
  import opened Views
  import opened Tasks
  import opened Listing

  const HelpText: string :=
    "🤖 *Task Manager Bot*\n\n"
    + "*Commands:*\n"
    + "• `add [task]` - Add new task\n"
    + "• `add [task] due [date]` - Add task with due date\n"
    + "• `add [task] cat [category]` - Add task with category\n"
    + "• `list` - Show all pending tasks\n"
    + "• `done` - Show completed tasks\n"
    + "• `all` - Show all tasks\n"
    + "• `complete [number]` - Mark task as done\n"
    + "• `delete [number]` - Delete task\n"
    + "• `categories` - Show all categories\n"
    + "• `newcat [name]` - Create new category\n"
    + "• `help` - Show this menu\n\n"
    + "*Examples:*\n"
    + "`add Buy groceries due tomorrow cat Shopping`\n"
    + "`complete 2`\n"
    + "`list`\n"
    + "`newcat Work`\n\n"
    + "Start by typing *add* followed by your task! 📝"

  const UnrecognizedText: string :=
    "❓ I didn't understand that command.\n\n"
    + "Type *help* to see all available commands.\n\n"
    + "Quick tip: Try `add Buy milk` to add a task! 📝"

  /** Intents that only read the store. */
  predicate ReadOnly(i: Intent) {
    i.Help? || i.ListTasks? || i.ListCategories? || i.Unrecognized?
  }

  /** One chat message against the store. */
  function Step(st: Store, text: string, env: Env): Outcome {
    Dispatch(st, Classify(text), env)
  }

  /** Help, listings and unrecognized messages leave the store as it was. */
  lemma StepReadOnly(st: Store, text: string, env: Env)
    ensures ReadOnly(Classify(text)) ==> Step(st, text, env).store == st
  {
    var i := Classify(text);
    assert Step(st, text, env) == Dispatch(st, i, env);
    if ReadOnly(i) {
      match i {
        case ListTasks(f) => assert Dispatch(st, i, env) == Outcome(st, HandleListTasks(st, f, env));
        case _ =>
      }
    }
  }

  /** The handler an intent selects. */
  function Dispatch(st: Store, i: Intent, env: Env): Outcome {
    match i
    case Help => Outcome(st, HelpText)
    case AddTask(input) => HandleAddTask(st, input, env)
    case ListTasks(f) => Outcome(st, HandleListTasks(st, f, env))
    case CompleteTask(n) => HandleCompleteTask(st, n, env)
    case DeleteTask(n) => HandleDeleteTask(st, n, env)
    case ListCategories => Outcome(st, HandleListCategories(st))
    case AddCategory(name) => HandleAddCategory(st, name)
    case Unrecognized => Outcome(st, UnrecognizedText)
  }

  /** The webhook trims the message body before handling it (so surrounding
      white space changes nothing, see ReceiveIgnoresPadding). Every message is
      answered, a blank one with the unrecognized-command reply; help, listings
      and unrecognized messages leave the store alone; every message keeps the
      store's ids and category names unique. */
  function Receive(st: Store, body: string, env: Env): (r: Outcome)
    ensures r.reply != ""
    ensures Trim(body) == "" ==> r == Outcome(st, UnrecognizedText)
    ensures ReadOnly(Classify(Trim(body))) ==> r.store == st
    ensures Valid(st) && NamesUnique(st.categories) ==> Valid(r.store) && NamesUnique(r.store.categories)
  {
    var text := Trim(body);
    StepFacts(st, text, env);
    Step(st, text, env)
  }

  /** What every message does, gathered for Receive. */
  lemma StepFacts(st: Store, text: string, env: Env)
    ensures Step(st, text, env).reply != ""
    ensures text == "" ==> Step(st, text, env) == Outcome(st, UnrecognizedText)
    ensures ReadOnly(Classify(text)) ==> Step(st, text, env).store == st
    ensures Valid(st) && NamesUnique(st.categories) ==>
              Valid(Step(st, text, env).store) && NamesUnique(Step(st, text, env).store.categories)
  {
    StepReplies(st, text, env);
    StepReadOnly(st, text, env);
    if text == "" {
      StepBlank(st, env);
    }
    if Valid(st) && NamesUnique(st.categories) {
      StepPreserves(st, text, env);
    }
  }

  /** A blank message is not understood. */
  lemma StepBlank(st: Store, env: Env)
    ensures Step(st, "", env) == Outcome(st, UnrecognizedText)
  {
    assert Lower("") == "";
    assert Classify("") == Unrecognized;
  }

  /** Every message keeps row ids unique and category names unique up to case. */
  lemma StepPreserves(st: Store, text: string, env: Env)
    requires Valid(st) && NamesUnique(st.categories)
    ensures Valid(Step(st, text, env).store) && NamesUnique(Step(st, text, env).store.categories)
  {
    DispatchPreserves(st, Classify(text), env);
  }

  lemma DispatchPreserves(st: Store, i: Intent, env: Env)
    requires Valid(st) && NamesUnique(st.categories)
    ensures Valid(Dispatch(st, i, env).store) && NamesUnique(Dispatch(st, i, env).store.categories)
  {
    match i
    case AddTask(input) => AddTaskPreserves(st, ExtractAdd(input), env);
    case CompleteTask(n) => CompletePreserves(st, n, env);
    case DeleteTask(n) => DeletePreserves(st, n, env);
    case AddCategory(name) => AddCategoryPreserves(st, name);
    case _ =>
  }

  /** Every handler answers with some text. */
  lemma DispatchReplies(st: Store, i: Intent, env: Env)
    ensures Dispatch(st, i, env).reply != ""
  {
    match i
    case Help =>
      assert HelpText[0] == '\U{1F916}';
    case AddTask(input) =>
      AddTaskReplies(st, ExtractAdd(input), env);
    case ListTasks(f) =>
      ListReplies(st, f, env);
    case CompleteTask(n) =>
      CompleteReplies(st, n, env);
    case DeleteTask(n) =>
      DeleteReplies(st, n, env);
    case ListCategories =>
      ListCategoriesReplies(st);
    case AddCategory(name) =>
      AddCategoryReplies(st, name);
    case Unrecognized =>
      assert UnrecognizedText[0] == '\U{2753}';
  }

  /** Every message gets a reply. */
  lemma StepReplies(st: Store, text: string, env: Env)
    ensures Step(st, text, env).reply != ""
  {
    DispatchReplies(st, Classify(text), env);
  }

  /** Surrounding white space in the message body changes nothing. */
  lemma ReceiveIgnoresPadding(st: Store, body: string, env: Env)
    ensures Receive(st, body, env) == Receive(st, Trim(body), env)
  {
    TrimIdempotent(body);
  }

  /** Through the webhook, an `add` message never files its task under an empty
      category name: the body is trimmed, so the cat clause ends in a visible
      character. */
  lemma ReceivedCategoryNotBlank(body: string, input: string)
    requires Classify(Trim(body)) == AddTask(input)
    ensures ExtractAdd(input).categoryName.Some? ==> ExtractAdd(input).categoryName.value != ""
  {
    var text := Trim(body);
    assert input == text[4..];
    SuffixEnd(text, 4);
    CategoryNotBlank(input);
  }

  /** Command words may be typed in any letter case; only the text of `add` and
      `newcat` arguments keeps the case it was typed in. */
  lemma StepIgnoresCase(st: Store, a: string, b: string, env: Env)
    requires SameName(a, b)
    requires !Classify(a).AddTask? && !Classify(a).AddCategory?
    ensures Step(st, a, env) == Step(st, b, env)
  {
    ClassifyIgnoresCase(a, b);
  }

  /** Typing `complete n` for a number `list` showed completes that task. */
  lemma ListThenCompleteByText(st: Store, n: nat, env: Env)
    requires 1 <= n <= |PendingView(st)|
    ensures var t := PendingView(st)[n - 1];
            Step(st, "complete " + NatToString(n), env)
              == Outcome(st.(tasks := MarkDone(st.tasks, t.id, env.now)), CompletedReply(t.title))
  {
    ClassifyCompleteText(Some(n));
    DispatchComplete(st, Some(n), env);
    CompleteAt(st, n, env);
  }

  lemma DispatchComplete(st: Store, n: Option<int>, env: Env)
    ensures Dispatch(st, CompleteTask(n), env) == HandleCompleteTask(st, n, env)
  {
  }

  lemma DispatchNewcat(st: Store, name: string, env: Env)
    ensures Dispatch(st, AddCategory(name), env) == HandleAddCategory(st, name)
  {
  }

  lemma StepNewcat(st: Store, name: string, env: Env)
    requires name == Trim(name)
    ensures Step(st, "newcat " + name, env) == HandleAddCategory(st, name)
  {
    ClassifyNewcatText(name);
    DispatchNewcat(st, name, env);
  }

  /** Typing `newcat` twice with the same name, in any case, creates one
      category and refuses the second. */
  lemma NewcatTwice(st: Store, a: string, b: string, env: Env)
    requires a == Trim(a) && a != "" && FindByName(st.categories, a).None?
    requires SameName(a, b) && b == Trim(b)
    ensures var st1 := Step(st, "newcat " + a, env).store;
            && st1 == WithCategory(st, a)
            && Step(st1, "newcat " + b, env) == Outcome(st1, "❌ Category \"*" + b + "*\" already exists!")
  {
    StepNewcat(st, a, env);
    StepNewcat(WithCategory(st, a), b, env);
    CreateThenDuplicate(st, a, b);
  }
}
