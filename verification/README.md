# WhatsApp task bot: the chat-command interpreter

This project models the core of a WhatsApp task-manager bot (`src/index.tsx`).
Each incoming chat message is one step. The step classifies the message as a
command and runs that command's handler against a store of tasks and
categories. It yields the new store and the reply text. The model is a pure
function

    Interpreter.Step(store, message, env) -> Outcome(store', reply)

The store is an in-memory copy of the two database tables, plus the next
free row ids. `env` carries what the program reads from its surroundings:

- the current day, as a day number;
- the current timestamp;
- the host's parser for date literals (`new Date(text)`);
- the host's locale date printer (`toLocaleDateString`).

Modules follow the program's structure:

| module | what it covers |
|---|---|
| `Text`, `Numbers` | JavaScript string primitives used by the handlers: ASCII `toLowerCase`, `trim` over the JavaScript white-space set, `parseInt`, number printing |
| `Classifier` | the first-match-wins command chain of `processWhatsAppMessage`, including `split(' ')` for task numbers |
| `AddArgs` | the two regular expressions of `handleAddTask`, written as searches with JavaScript's leftmost/greedy/lazy semantics |
| `Dates` | `parseDateString`, `formatDate`, `getDueStatus` |
| `Categories` | case-insensitive lookup, implicit find-or-create, `newcat`, the `categories` listing |
| `Sorting`, `Lex`, `Views` | the SQL `ORDER BY` clauses as sorting by lexicographic keys; the four task views |
| `Tasks` | `add`, `complete <n>`, `delete <n>` |
| `Listing` | the `list`, `done` and `all` replies |
| `Interpreter` | dispatch, the webhook's trimming of the message body, whole-step properties |
| `Webhook` | the subscription handshake of `GET /webhook` |

SQLite places NULL first in ascending order, so undated tasks come first in
every task listing. Rows that tie on
every `ORDER BY` column come back in an order SQL leaves open. The model
breaks such ties by ascending row id. This choice is an assumption, made so
that "task number n" names one task.

Some behaviours follow directly from the code and are stated in the proofs:

- The `all` listing orders by due date, then creation time descending, with
  no completion key. The `delete` numbering puts
  every pending task before every completed one. So `delete n` agrees with
  `list` for pending tasks. The task `done` shows as n is `delete (k + n)`,
  where k is the number of pending tasks.
- The add confirmation prints the due day with `formatDate`, not with the
  due badge of the listing.
- Both clauses of `add` are searched for in the untrimmed input. The cat
  clause runs to the end of the text, so `X cat C due today` files the task
  under a category named `C due today` and also sets today as its due day.
  Keywords need no word boundary: in `Bobcat food`, `cat` starts a category
  clause.
- The category is found or created before the title is checked. A request
  with an empty title can therefore still create a category.
- `handleAddTask` itself would accept an empty category name, which `newcat`
  refuses, but only for text that ends in white space (`x cat  `). Messages
  reach it trimmed, so through the webhook the name is never empty.
- `complete  2` (two spaces) takes the empty second field and is an invalid
  number.

## Model

| member | source | states |
|---|---|---|
| Classifier.Classify | src/index.tsx:92-155 | the intent is the first test of the if-chain that the lower-cased message passes; `add` keeps the text after "add " as typed, `newcat` the trimmed text after "newcat " |
| Classifier.ClassifyCommandText | src/index.tsx:95-155 | every intent (with a trimmed category name) is recovered from its canonical command text, numbers included |
| Classifier.ClassifyAliases | src/index.tsx:95-132 | `done` alone lists completed tasks while `done <n>` completes task n; `/help` and `menu` are help |
| Classifier.ClassifyIgnoresCase | src/index.tsx:92 | messages equal up to ASCII case get the same command, with `add` payloads equal up to case |
| Classifier.TaskNumber | src/index.tsx:133 | the number is `parseInt` of the second space-separated field, NaN when there is none |
| Classifier.SplitJoin | src/index.tsx:133 | joining the fields of `split(' ')` with spaces gives the message back |
| Classifier.JoinSplit | src/index.tsx:133 | splitting the space-join of fields that hold no space gives the fields back |
| Numbers.ParseIntOfIntToString | src/index.tsx:133 | `parseInt` reads back any printed integer followed by text that does not start with a digit; after a lone `0` the text must not start with `x` either, which would make a hex prefix |
| Text.TrimIdempotent | src/index.tsx:70 | trimming twice is trimming once |
| AddArgs.FindClause | src/index.tsx:175 | the search returns exactly the match the regex engine returns: leftmost start, latest group start, earliest group end; no match only when the pattern matches nowhere |
| AddArgs.FoundIsClause | src/index.tsx:175 | a match is found iff the pattern matches somewhere |
| AddArgs.ClauseText | src/index.tsx:175-177 | a clause text exists iff the pattern matches the input, and it is the trimmed group of the returned match |
| AddArgs.ExtractTitle | src/index.tsx:169-186 | the title is trimmed, no longer than the input, and is the trimmed input when neither clause matches |
| AddArgs.ExtractAdd | src/index.tsx:167-186 | the due text is present iff the due pattern matches, the category iff the cat pattern matches, both in the untrimmed input |
| AddArgs.KeywordInsideWord | src/index.tsx:183 | `cat` inside a word starts a category clause |
| AddArgs.DueClauseAt | src/index.tsx:175 | after keyword-free text, `due x` followed by ` cat ` or the end is the due match, with group x |
| AddArgs.CatClauseAt | src/index.tsx:183 | after cat-free text, `cat x` running to the end is the cat match, with group x |
| AddArgs.DueThenCatTitle | src/index.tsx:169-186 | removing both clauses from `t due d cat c` leaves exactly t |
| AddArgs.ExtractDueThenCat | src/index.tsx:167-186 | `t due d cat c` gives title t, due text d and category c, for a keyword-free title and a cat-free due text |
| AddArgs.CatThenDueTitle | src/index.tsx:169-186 | removing the due clause and then the cat clause from `t cat c due d` leaves exactly t |
| AddArgs.ExtractCatThenDue | src/index.tsx:167-186 | `t cat c due d` gives title t and due text d, but the category is `c due d` |
| AddArgs.ExtractDueOnly | src/index.tsx:167-186 | `t due d`, the help text's `add [task] due [date]` form, gives title t, due text d and no category, for a keyword-free title and a cat-free due text |
| AddArgs.ExtractCatOnly | src/index.tsx:167-186 | `t cat c`, the help text's `add [task] cat [category]` form, gives title t, no due text and category c, for a keyword-free title and a due-free category |
| AddArgs.HelpExample | src/index.tsx:112 | the help text's example `add Buy groceries due tomorrow cat Shopping` yields title, due text and category as advertised |
| AddArgs.CatSwallowsDue | src/index.tsx:175-186 | `X cat C due today` files under `C due today` while also reading `today` as the due text |
| AddArgs.CategoryNotBlank | src/index.tsx:183-185 | text that does not end in white space never yields an empty category name |
| Dates.ParseDate | src/index.tsx:480-500 | `today`/`tomorrow` in any case give the current day and the next; any other text goes to the host parser |
| Dates.FormatDate | src/index.tsx:502-515 | the current day prints as Today, the next as Tomorrow, others by the locale printer |
| Dates.GetDueStatus | src/index.tsx:517-536 | red exactly for past days, orange exactly for today and tomorrow, calendar exactly for later days, which show the locale date |
| Dates.StatusByBucket | src/index.tsx:527-535 | the badge of each bucket: Overdue, Due Today, Due Tomorrow, or the formatted date |
| Dates.BucketMonotone | src/index.tsx:527-535 | a later day never falls in an earlier bucket |
| Dates.FormatParseKeywords | src/index.tsx:480-515 | a day printed as Today or Tomorrow parses back to the same day |
| Dates.FormatParseOther | src/index.tsx:484-515 | any other day parses back iff the host parser accepts the locale printer's text |
| Dates.KeywordBadges | src/index.tsx:484-532 | a `due today`/`due tomorrow` clause lands in the Due Today/Due Tomorrow badge |
| Categories.FindByName | src/index.tsx:189-191 | the first category in table order whose name equals the given one up to ASCII case; none iff no name matches |
| Categories.FindByNameUnique | src/index.tsx:189-191 | with names unique up to case, any matching row is the one found |
| Categories.FindOrCreate | src/index.tsx:188-201 | reuses the matching category unchanged, otherwise appends one with the exact name, the next id and color #10B981 |
| Categories.FindOrCreatePreserves | src/index.tsx:188-201 | ids and case-insensitive names stay unique |
| Categories.FindOrCreateMatches | src/index.tsx:188-201 | the id returned names a category matching the requested name |
| Categories.FindOrCreateIdempotent | src/index.tsx:188-201 | asking again for the same name in any case changes nothing and returns the same id |
| Categories.HandleAddCategory | src/index.tsx:409-439 | the store changes iff the name is non-empty and new up to case, and then by exactly one appended category; empty and duplicate names get their replies |
| Categories.AddCategoryPreserves | src/index.tsx:409-433 | ids and case-insensitive names stay unique |
| Categories.CreateThenDuplicate | src/index.tsx:409-433 | after `newcat a`, `newcat b` with b equal to a up to case is refused and `cat b` reuses the new category |
| Categories.CategoryView | src/index.tsx:382-384 | the listed categories are the stored ones, sorted by name in code-point order |
| Categories.CategoryViewUnique | src/index.tsx:382-384 | the listing does not depend on the order rows were stored in |
| Categories.HandleListCategories | src/index.tsx:380-406 | the empty message exactly when there are no categories, otherwise header, numbered lines from 1 and footer |
| Views.WithStatus | src/index.tsx:251-254 | keeps exactly the tasks with the given completion flag |
| Views.StatusPartition | src/index.tsx:251-254 | pending and completed tasks together are all tasks, each once |
| Views.PendingView | src/index.tsx:321-323 | a permutation of the pending tasks; every listed task is stored and pending |
| Views.PendingSorted | src/index.tsx:321-323 | the pending list is sorted by due date (NULL first), then creation time descending |
| Views.CompletedView | src/index.tsx:251-257 | a permutation of the completed tasks; every listed task is stored and completed |
| Views.CompletedSorted | src/index.tsx:251-257 | the completed list is in the same order as the pending list |
| Views.AllView | src/index.tsx:241-257 | a permutation of all tasks |
| Views.AllSorted | src/index.tsx:241-257 | the full list is in the due order, pending and completed tasks interleaved |
| Views.DeleteView | src/index.tsx:354-356 | a permutation of all tasks |
| Views.DeleteSorted | src/index.tsx:354-356 | the delete numbering is sorted by completion flag first, then the due order |
| Views.DeleteViewSplit | src/index.tsx:321-356 | the delete numbering is the pending list followed by the completed list |
| Views.DueOrderOfView | src/index.tsx:257 | undated tasks come before dated ones, and dated ones by non-decreasing day and badge |
| Tasks.AddWith | src/index.tsx:183-230 | an empty title leaves the tasks unchanged with the title reply; otherwise exactly one new task is appended; the category step happens either way |
| Tasks.HandleAddTask | src/index.tsx:167-236 | a task is appended iff a title remains once the clauses are removed; it is pending, has the next id and that title, and the old tasks are kept in order; with no title the tasks are untouched and the reply asks for one; the categories change only when a cat clause matched |
| Tasks.NewTask | src/index.tsx:209-212 | the new task is pending, has the next id, the title, the resolved due day and the category found or created |
| Tasks.AddedCategoryMatches | src/index.tsx:183-212 | the added task's category matches the cat clause up to case |
| Tasks.AddTaskFields | src/index.tsx:167-212 | a non-empty trimmed title is stored; no due clause means no due day, no cat clause means no category |
| Tasks.UnparseableDueStillAdds | src/index.tsx:493-499 | a due text the parser rejects still adds the task, without a due day |
| Tasks.AddTaskPreserves | src/index.tsx:167-236 | ids and case-insensitive category names stay unique |
| Tasks.AddTaskPending | src/index.tsx:209-212 | the pending list gains exactly the new task and the completed list is unchanged |
| Tasks.MarkDoneEach | src/index.tsx:334-336 | exactly the rows with the id become completed and stamped; every other row is unchanged |
| Tasks.HandleCompleteTask | src/index.tsx:314-344 | NaN, zero or negative gives the invalid-number reply, more than the pending count the not-found reply, both with no change; otherwise the n-th pending task is marked done |
| Tasks.CompleteShrinksPending | src/index.tsx:314-338 | after completing n the pending list is the old one without its n-th entry, order kept |
| Tasks.CompleteGrowsCompleted | src/index.tsx:314-338 | the completed list gains exactly the marked task |
| Tasks.CompletePreserves | src/index.tsx:314-344 | ids stay unique and below the next id |
| Tasks.RemoveId | src/index.tsx:367-369 | keeps exactly the rows with another id |
| Tasks.RemoveIdMultiset | src/index.tsx:364-369 | with unique ids, removal takes out exactly the one task |
| Tasks.HandleDeleteTask | src/index.tsx:347-377 | the same validation against the total count; otherwise the n-th task of the delete numbering is removed |
| Tasks.DeleteShrinksView | src/index.tsx:347-371 | after deleting n the delete numbering is the old one without its n-th entry |
| Tasks.DeletePreserves | src/index.tsx:347-377 | ids and category names stay unique |
| Tasks.DeletePendingAsListed | src/index.tsx:321-371 | for n up to the pending count, `delete n` removes the task `list` shows as n |
| Tasks.DeleteCompletedOffset | src/index.tsx:354-371 | the task `done` shows as n is removed by `delete` of n plus the pending count |
| Listing.CategoryName | src/index.tsx:247 | the name of a category row with the task's category id, none iff there is no such row |
| Listing.TaskLines | src/index.tsx:280-297 | one line per task, numbered from 1 in view order |
| Listing.TaskLineShape | src/index.tsx:280-297 | a line opens with ✅ exactly when the task is done, then its number, then the title wrapped in `~` when done and as typed when pending; it ends with a line break |
| Listing.ListReply | src/index.tsx:261-303 | the filter's empty message exactly when the view is empty; otherwise the header, the numbered task lines in view order, and the quick actions for the pending list only |
| Listing.HandleListTasks | src/index.tsx:239-311 | the filter's empty message exactly when no task passes the filter; otherwise the header, one numbered line per task of the sorted view, and for `list` the quick actions |
| Listing.EmptyRepliesDiffer | src/index.tsx:261-269 | the three empty messages are pairwise different |
| Listing.QuickActionsOnlyPending | src/index.tsx:296-303 | a non-empty listing ends with the quick actions exactly when it is the pending list; the other two end with the line break of their last task |
| Listing.ListThenComplete | src/index.tsx:280-338 | the number printed beside a pending task is the number `complete` takes for it |
| Listing.ListingOrder | src/index.tsx:257 | in every listing undated tasks come first and badges run Overdue, Due Today, Due Tomorrow, later |
| Interpreter.StepReadOnly | src/index.tsx:86-155 | help, listings and unrecognized messages leave the store unchanged |
| Interpreter.Receive | src/index.tsx:70-75 | every message body gets a non-empty reply, a blank one the unrecognized reply; read-only commands keep the store; unique ids and names are kept |
| Interpreter.StepPreserves | src/index.tsx:86-164 | every message keeps ids and case-insensitive category names unique |
| Interpreter.StepReplies | src/index.tsx:86-158 | every message gets a non-empty reply |
| Interpreter.ReceiveIgnoresPadding | src/index.tsx:70 | surrounding white space in the body changes nothing |
| Interpreter.ReceivedCategoryNotBlank | src/index.tsx:70-75 | an `add` message from the webhook never has an empty category name |
| Interpreter.StepIgnoresCase | src/index.tsx:92-155 | apart from `add` and `newcat` payloads, letter case in a message changes nothing |
| Interpreter.ListThenCompleteByText | src/index.tsx:132-134 | typing `complete n` for a number `list` showed completes that task |
| Interpreter.StepNewcat | src/index.tsx:144-146 | `newcat <name>` runs the category handler on the name as typed |
| Interpreter.NewcatTwice | src/index.tsx:409-433 | `newcat` twice with one name, in any case, creates one category and refuses the second |
| Webhook.VerifyToken | src/index.tsx:51 | the configured token, or `your_verify_token` when none is set or it is empty |
| Webhook.VerifyWebhook | src/index.tsx:46-59 | the challenge is echoed iff the mode is subscribe and the token matches; otherwise Forbidden |
| Webhook.ConfiguredTokenOnly | src/index.tsx:51-57 | with a token configured, every other token is refused, the default one included |
| Webhook.DefaultTokenAccepted | src/index.tsx:51-55 | with no usable setting, the default token is accepted |

## Left out

- The webhook's POST handling: JSON unpacking of the request body and the 500 reply on failure. The model starts from the message text, and `Interpreter.Receive` models the trimming.
- `sendWhatsAppMessage`: sending is network I/O. The model stops at the reply text, and console logging is omitted.
- The HTML page, `/health` and CORS: presentation and plumbing.
- The database error paths. A `run()` that reports failure and the try/catch replies ("❌ Sorry, something went wrong", "❌ Failed to …") are left out, because storage is an in-memory sequence that always succeeds.
- Row ids: the model assigns the next id from a counter. Timestamps for `created_at` and `updated_at` are one integer, `env.now`, taken from the request.
- JavaScript `Date`: time zones and the UTC-versus-local mismatch between `toISOString` and `setHours`. Days are whole numbers. The literal parser and the locale printer are opaque functions in `Env`.
- Dates.ParseDate: the host parser's result is taken as a day as given. Its conversion through `toISOString` is not modelled.
- Text.Lower: ASCII only. JavaScript's `toLowerCase` and SQLite's `LOWER` agree on ASCII, but `toLowerCase` also folds other letters.
- Numbers.IntToString: prints every integer in full. JavaScript switches to exponent notation from 1e21, and `parseInt` loses precision beyond 2^53.
- Tie order: rows equal on every `ORDER BY` column are ordered by ascending id. SQL leaves this order open.
- The task `description` column and the category `color` column beyond its default: no command reads them.
- `public/static/app.js`: browser UI code.
- AddArgs.ExtractTitle: its own contract does not say what a matched clause leaves behind. That is proved by ExtractDueOnly, ExtractCatOnly, ExtractDueThenCat and ExtractCatThenDue (with DueThenCatTitle and CatThenDueTitle) for texts of the four shapes `t due d`, `t cat c`, `t due d cat c` and `t cat c due d`, with a non-empty title free of both keywords. Texts of other shapes are left to the general contracts: an empty title, repeated keywords, a keyword inside a clause text beyond what these shapes allow, or line breaks inside a clause.
