/**
 * Categories: the case-insensitive lookup shared by both creation paths, the
 * find-or-create step of `add … cat <name>` (handleAddTask), the explicit
 * `newcat <name>` command (handleAddCategory) and the `categories` listing
 * (handleListCategories).
 */
module Categories {
  import opened Wrappers
  import opened Text
  import opened Numbers
  import opened Model
  import opened Sorting
  import opened Lex

  /** `SELECT * FROM categories WHERE LOWER(name) = LOWER(?)` followed by
      `.first()`: the position of the first row in table order whose name
      matches ignoring ASCII case. */
  function FindByName(cs: seq<Category>, name: string): (r: Option<nat>)
    ensures r.Some? ==> r.value < |cs| && SameName(cs[r.value].name, name)
    ensures r.Some? ==> forall k :: 0 <= k < r.value ==> !SameName(cs[k].name, name)
    ensures r.None? <==> forall k :: 0 <= k < |cs| ==> !SameName(cs[k].name, name)
  {
    if |cs| == 0 then None
    else if SameName(cs[0].name, name) then Some(0)
    else match FindByName(cs[1..], name)
      case None => None
      case Some(k) => Some(k + 1)
  }

  /** With names unique up to case, the first match is the only one. */
  lemma FindByNameUnique(cs: seq<Category>, name: string, k: nat)
    requires NamesUnique(cs)
    requires k < |cs| && SameName(cs[k].name, name)
    ensures FindByName(cs, name) == Some(k)
  {
  }

  /** The store with one more category row, given the next free id. */
  function WithCategory(st: Store, name: string): (r: Store)
    ensures r.tasks == st.tasks && r.nextTaskId == st.nextTaskId
    ensures r.categories == st.categories + [Category(st.nextCategoryId, name, DefaultColor)]
    ensures r.nextCategoryId == st.nextCategoryId + 1
  {
    st.(categories := st.categories + [Category(st.nextCategoryId, name, DefaultColor)],
        nextCategoryId := st.nextCategoryId + 1)
  }

  /** The implicit path of `add … cat <name>`: reuse the category whose name
      matches ignoring case, or create one with the default color. Returns the
      new store and the category id for the task. */
  function FindOrCreate(st: Store, name: string): (r: (Store, nat))
    ensures r.0.tasks == st.tasks && r.0.nextTaskId == st.nextTaskId
    ensures FindByName(st.categories, name).Some? ==>
              r.0 == st && r.1 == st.categories[FindByName(st.categories, name).value].id
    ensures FindByName(st.categories, name).None? ==>
              r.0 == WithCategory(st, name) && r.1 == st.nextCategoryId
  {
    match FindByName(st.categories, name)
    case Some(k) => (st, st.categories[k].id)
    case None => (WithCategory(st, name), st.nextCategoryId)
  }

  /** Appending a category whose name matches no existing one keeps the store
      valid and the names unique. */
  lemma WithCategoryPreserves(st: Store, name: string)
    requires Valid(st) && NamesUnique(st.categories)
    requires FindByName(st.categories, name).None?
    ensures Valid(WithCategory(st, name)) && NamesUnique(WithCategory(st, name).categories)
  {
    var cs := WithCategory(st, name).categories;
    forall i, j | 0 <= i < |cs| && 0 <= j < |cs| && i != j
      ensures cs[i].id != cs[j].id && !SameName(cs[i].name, cs[j].name)
    {
      if i < |st.categories| && j < |st.categories| {
      } else if i < |st.categories| {
        assert st.categories[i] in st.categories;
      } else {
        assert st.categories[j] in st.categories;
      }
    }
  }

  lemma FindOrCreatePreserves(st: Store, name: string)
    requires Valid(st) && NamesUnique(st.categories)
    ensures Valid(FindOrCreate(st, name).0) && NamesUnique(FindOrCreate(st, name).0.categories)
  {
    if FindByName(st.categories, name).None? {
      WithCategoryPreserves(st, name);
    }
  }

  /** The id handed back names a category that matches the requested name. */
  lemma FindOrCreateMatches(st: Store, name: string)
    ensures var (st', id) := FindOrCreate(st, name);
            exists k :: 0 <= k < |st'.categories| && st'.categories[k].id == id && SameName(st'.categories[k].name, name)
  {
    var (st', id) := FindOrCreate(st, name);
    match FindByName(st.categories, name)
    case Some(k) =>
      assert st'.categories[k].id == id;
    case None =>
      assert st'.categories[|st.categories|].id == id;
  }

  /** Asking again for the same name, in any letter case, changes nothing and
      yields the same id. */
  lemma FindOrCreateIdempotent(st: Store, a: string, b: string)
    requires SameName(a, b)
    ensures var (st1, id1) := FindOrCreate(st, a);
            FindOrCreate(st1, b) == (st1, id1)
  {
    var (st1, id1) := FindOrCreate(st, a);
    match FindByName(st.categories, a)
    case Some(k) =>
      assert FindByName(st.categories, b) == Some(k);
    case None =>
      var cs := st1.categories;
      assert SameName(cs[|st.categories|].name, b);
      assert forall k :: 0 <= k < |st.categories| ==> cs[k] == st.categories[k];
      assert FindByName(cs, b) == Some(|st.categories|);
  }

  /** handleAddCategory: the trimmed name must be non-empty and match no
      existing name ignoring case. */
  function HandleAddCategory(st: Store, name: string): (r: Outcome)
    ensures r.store != st <==> name != "" && FindByName(st.categories, name).None?
    ensures r.store != st ==> r.store == WithCategory(st, name)
    ensures name == "" ==> r.reply == "❌ Please provide a category name.\n\nExample: `newcat Work`"
    ensures name != "" && FindByName(st.categories, name).Some? ==>
              r.reply == "❌ Category \"*" + name + "*\" already exists!"
  {
    if name == "" then
      Outcome(st, "❌ Please provide a category name.\n\nExample: `newcat Work`")
    else if FindByName(st.categories, name).Some? then
      Outcome(st, "❌ Category \"*" + name + "*\" already exists!")
    else
      assert |WithCategory(st, name).categories| != |st.categories|;
      Outcome(WithCategory(st, name),
        "✅ Created category: *" + name + "*\n\nNow you can use it: `add [task] cat " + name + "`")
  }

  lemma AddCategoryReplies(st: Store, name: string)
    ensures HandleAddCategory(st, name).reply != ""
  {
    if name != "" && FindByName(st.categories, name).None? {
      var r := "✅ Created category: *" + name + "*\n\nNow you can use it: `add [task] cat " + name + "`";
      assert r[0] == '\U{2705}';
    }
  }

  lemma AddCategoryPreserves(st: Store, name: string)
    requires Valid(st) && NamesUnique(st.categories)
    ensures Valid(HandleAddCategory(st, name).store) && NamesUnique(HandleAddCategory(st, name).store.categories)
  {
    if name != "" && FindByName(st.categories, name).None? {
      WithCategoryPreserves(st, name);
    }
  }

  /** After `newcat a` succeeds, `newcat b` with b equal to a up to case is
      refused and changes nothing, and `add … cat b` files the task under the
      category just created. */
  lemma CreateThenDuplicate(st: Store, a: string, b: string)
    requires a != "" && FindByName(st.categories, a).None?
    requires SameName(a, b)
    ensures var st1 := HandleAddCategory(st, a).store;
            && HandleAddCategory(st1, b) == Outcome(st1, "❌ Category \"*" + b + "*\" already exists!")
            && FindOrCreate(st1, b) == (st1, st.nextCategoryId)
  {
    var st1 := HandleAddCategory(st, a).store;
    assert |b| == |Lower(b)| == |Lower(a)| == |a|;
    FindOrCreateIdempotent(st, a, b);
  }

  /** A category name as SQLite's BINARY collation compares it: code point by
      code point, a proper prefix first. */
  function NameKey(c: Category): (k: seq<int>)
    ensures |k| == |c.name|
    ensures forall i :: 0 <= i < |k| ==> k[i] == c.name[i] as int
  {
    seq(|c.name|, i requires 0 <= i < |c.name| => c.name[i] as int)
  }

  lemma NameKeyInjective(x: Category, y: Category)
    requires NameKey(x) == NameKey(y)
    ensures x.name == y.name
  {
    assert forall i :: 0 <= i < |x.name| ==> x.name[i] as int == y.name[i] as int;
  }

  /** `SELECT * FROM categories ORDER BY name ASC`. */
  function CategoryView(cs: seq<Category>): (v: seq<Category>)
    ensures multiset(v) == multiset(cs)
    ensures SortedBy(v, ByKey(NameKey))
  {
    ByKeyOrder(NameKey);
    SortSorted(cs, ByKey(NameKey));
    Sort(cs, ByKey(NameKey))
  }

  /** Unique names leave no two categories tied in the name order. */
  lemma NamesUniqueTotal(cs: seq<Category>)
    requires NamesUnique(cs)
    ensures TotalOn(cs, ByKey(NameKey))
  {
    forall x, y | x in cs && y in cs && x != y ensures NameKey(x) != NameKey(y) {
      var i :| 0 <= i < |cs| && cs[i] == x;
      var j :| 0 <= j < |cs| && cs[j] == y;
      if NameKey(x) == NameKey(y) {
        NameKeyInjective(x, y);
      }
    }
    ByKeyTotal(cs, NameKey);
  }

  /** The listing depends on which categories exist, not on the order the rows
      were stored in: names are unique, so the name order leaves no ties. */
  lemma CategoryViewUnique(cs: seq<Category>, other: seq<Category>)
    requires NamesUnique(cs)
    requires multiset(other) == multiset(cs)
    ensures CategoryView(other) == CategoryView(cs)
  {
    NamesUniqueTotal(cs);
    TotalOnPermutation(cs, other, ByKey(NameKey));
    ByKeyOrder(NameKey);
    var v := CategoryView(cs);
    SortIsUnique(other, v, ByKey(NameKey));
  }

  function CategoryLine(number: nat, c: Category): string {
    NatToString(number) + ". *" + c.name + "*\n"
  }

  /** One numbered line per category, counting from `first`. */
  function CategoryLines(cs: seq<Category>, first: nat): (lines: seq<string>)
    ensures |lines| == |cs|
    ensures forall i :: 0 <= i < |cs| ==> lines[i] == CategoryLine(first + i, cs[i])
  {
    seq(|cs|, i requires 0 <= i < |cs| => CategoryLine(first + i, cs[i]))
  }

  const NoCategoriesReply: string := "📁 No categories yet." + "\n\nCreate one with: `newcat Work`"
  const CategoriesHeader: string := "📁 *Your Categories:*\n\n"
  const CategoriesFooter: string := "\n💡 Use categories when adding tasks:\n`add Buy milk cat Shopping`"

  /** handleListCategories. */
  function HandleListCategories(st: Store): (reply: string)
    ensures |st.categories| == 0 <==> reply == NoCategoriesReply
    ensures |st.categories| > 0 ==>
              reply == CategoriesHeader + Concat(CategoryLines(CategoryView(st.categories), 1)) + CategoriesFooter
  {
    var v := CategoryView(st.categories);
    assert |v| == |st.categories| by {
      assert |multiset(v)| == |multiset(st.categories)|;
    }
    if |v| == 0 then NoCategoriesReply
    else
      var reply := CategoriesHeader + Concat(CategoryLines(v, 1)) + CategoriesFooter;
      assert reply[0] == CategoriesHeader[0];
      assert reply[1] != NoCategoriesReply[1] || reply != NoCategoriesReply by {
        assert |reply| > |CategoriesHeader + CategoriesFooter|;
      }
      reply
  }

  lemma ListCategoriesReplies(st: Store)
    ensures HandleListCategories(st) != ""
  {
    if |st.categories| > 0 {
      var lines := Concat(CategoryLines(CategoryView(st.categories), 1));
      assert (CategoriesHeader + lines + CategoriesFooter)[0] == CategoriesHeader[0];
    } else {
      assert NoCategoriesReply[0] == '\U{1F4C1}';
    }
  }
}
