/**
 * The records the interpreter reads and writes, the request environment, and
 * the store invariants. The relational store (two tables, `tasks` and
 * `categories`) is modelled as sequences in row order with counters that hand
 * out fresh row ids.
 */
module Model {
  import opened Wrappers
  import opened Text

  /** A row of `tasks`. Due dates are day numbers; timestamps are abstract integers. */
  datatype Task = Task(
    id: nat,
    title: string,
    due: Option<int>,
    category: Option<nat>,
    completed: bool,
    created: int,
    updated: int)

  /** A row of `categories`. */
  datatype Category = Category(id: nat, name: string, color: string)

  datatype Store = Store(
    tasks: seq<Task>,
    categories: seq<Category>,
    nextTaskId: nat,
    nextCategoryId: nat)

  /** What one request sees of the outside world: the current day and time, and
      the host's date-literal parser and locale date printer. */
  datatype Env = Env(
    today: int,
    now: int,
    parseLiteral: string -> Option<int>,
    localeDate: int -> string)

  /** The new store and the reply text of one chat message. */
  datatype Outcome = Outcome(store: Store, reply: string)

  /** Color given to every category the chat channel creates. */
  const DefaultColor: string := "#10B981"

  ghost predicate DistinctTaskIds(ts: seq<Task>) {
    forall i, j :: 0 <= i < |ts| && 0 <= j < |ts| && i != j ==> ts[i].id != ts[j].id
  }

  ghost predicate DistinctCategoryIds(cs: seq<Category>) {
    forall i, j :: 0 <= i < |cs| && 0 <= j < |cs| && i != j ==> cs[i].id != cs[j].id
  }

  /** Row ids are unique and the counters are ahead of every id in use. */
  ghost predicate Valid(st: Store) {
    && DistinctTaskIds(st.tasks)
    && DistinctCategoryIds(st.categories)
    && (forall t :: t in st.tasks ==> t.id < st.nextTaskId)
    && (forall c :: c in st.categories ==> c.id < st.nextCategoryId)
  }

  /** No two categories share a name under case-insensitive comparison. */
  ghost predicate NamesUnique(cs: seq<Category>) {
    forall i, j :: 0 <= i < |cs| && 0 <= j < |cs| && i != j ==> !SameName(cs[i].name, cs[j].name)
  }

  /** Distinct task ids make distinct task records distinguishable by id. */
  lemma DistinctIdsElements(ts: seq<Task>, x: Task, y: Task)
    requires DistinctTaskIds(ts)
    requires x in ts && y in ts && x != y
    ensures x.id != y.id
  {
    var i :| 0 <= i < |ts| && ts[i] == x;
    var j :| 0 <= j < |ts| && ts[j] == y;
  }
}
