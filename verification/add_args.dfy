/**
 * The argument extractor of the `add` command (handleAddTask). Its two regular
 * expressions are written out as searches:
 *   due clause  /due\s+(.+?)(?:\s+cat\s|$)/i   (removal: /due\s+.+?(?=\s+cat\s|$)/i)
 *   cat clause  /cat\s+(.+?)$/i                 (removal: /cat\s+.+$/i)
 * Both have the shape  keyword, one or more white space characters, a lazy run
 * of non-line-break characters, then a terminator. JavaScript returns the match
 * with the leftmost start; among those, the greedy `\s+` makes the group start
 * as late as possible; then the lazy `.+?` makes the group end as early as
 * possible. `ClauseAt` states what a match is and `Leftmost` which one is
 * returned; `FindClause` computes it. Keywords match ASCII case-insensitively
 * and need no word boundary.
 */
module AddArgs {
  import opened Wrappers
  import opened Text

  /** What must follow the group: `(?:\s+cat\s|$)` or just `$`. */
  datatype Terminator = CatOrEnd | EndOnly

  /** A match: keyword at `start`, group text in [group, end). */
  datatype ClauseMatch = ClauseMatch(start: nat, group: nat, end: nat)

  /** `kw` occurs at p, ignoring ASCII letter case (the `i` flag). */
  predicate KeywordAt(s: string, p: nat, kw: string) {
    p + |kw| <= |s| && Lower(s[p..p + |kw|]) == kw
  }

  ghost predicate AllSpace(s: string, i: nat, j: nat)
    requires i <= j <= |s|
  {
    forall k :: i <= k < j ==> IsSpace(s[k])
  }

  ghost predicate NoLineBreak(s: string, i: nat, j: nat)
    requires i <= j <= |s|
  {
    forall k :: i <= k < j ==> !IsLineTerminator(s[k])
  }

  /** `\s+cat\s` matches at q with its white space run ending at j. */
  ghost predicate CatTailAt(s: string, q: nat, j: int) {
    q < j && j + 3 < |s| && AllSpace(s, q, j) && KeywordAt(s, j, "cat") && IsSpace(s[j + 3])
  }

  /** The terminator holds at q. */
  ghost predicate TermAt(s: string, q: nat, term: Terminator)
    requires q <= |s|
  {
    q == |s| || (term == CatOrEnd && exists j :: CatTailAt(s, q, j))
  }

  /** The clause regex matches with the keyword at p and the group s[g..q]. */
  ghost predicate ClauseAt(s: string, kw: string, term: Terminator, p: int, g: int, q: int) {
    && 0 <= p
    && p + |kw| < g < q <= |s|
    && KeywordAt(s, p, kw)
    && AllSpace(s, p + |kw|, g)
    && NoLineBreak(s, g, q)
    && TermAt(s, q, term)
  }

  /** The match the regex engine returns: no match starts earlier, none at the
      same start has a later group start, and none with the same group start
      ends earlier. */
  ghost predicate Leftmost(s: string, kw: string, term: Terminator, m: ClauseMatch) {
    && ClauseAt(s, kw, term, m.start, m.group, m.end)
    && (forall p, g, q :: p < m.start ==> !ClauseAt(s, kw, term, p, g, q))
    && (forall g, q :: m.group < g ==> !ClauseAt(s, kw, term, m.start, g, q))
    && (forall q :: q < m.end ==> !ClauseAt(s, kw, term, m.start, m.group, q))
  }

  ghost predicate HasClause(s: string, kw: string, term: Terminator) {
    exists p, g, q :: ClauseAt(s, kw, term, p, g, q)
  }

  /** Length of the white space run starting at i. */
  function SpaceRun(s: string, i: nat): (n: nat)
    requires i <= |s|
    ensures i + n <= |s|
    ensures forall k :: i <= k < i + n ==> IsSpace(s[k])
    ensures i + n == |s| || !IsSpace(s[i + n])
    decreases |s| - i
  {
    if i < |s| && IsSpace(s[i]) then 1 + SpaceRun(s, i + 1) else 0
  }

  /** `\s+cat\s` at q, computed: the only white space run that can precede `cat`
      is the whole run starting at q. */
  predicate CatAhead(s: string, q: nat)
    requires q <= |s|
  {
    var j := q + SpaceRun(s, q);
    q < j && j + 3 < |s| && KeywordAt(s, j, "cat") && IsSpace(s[j + 3])
  }

  lemma CatAheadExact(s: string, q: nat)
    requires q <= |s|
    ensures CatAhead(s, q) <==> exists j :: CatTailAt(s, q, j)
  {
    var e := q + SpaceRun(s, q);
    if CatAhead(s, q) {
      assert CatTailAt(s, q, e);
    }
    if j :| CatTailAt(s, q, j) {
      assert Lower(s[j..j + 3])[0] == 'c';
      assert !IsSpace(s[j]);
    }
  }

  predicate TermHolds(s: string, q: nat, term: Terminator)
    requires q <= |s|
  {
    q == |s| || (term == CatOrEnd && CatAhead(s, q))
  }

  lemma TermHoldsExact(s: string, q: nat, term: Terminator)
    requires q <= |s|
    ensures TermHolds(s, q, term) <==> TermAt(s, q, term)
  {
    CatAheadExact(s, q);
  }

  /** The lazy `(.+?)` from group start g, trying ends q, q + 1, ...: the first
      end reached over non-line-break characters at which the terminator holds. */
  function LazyEnd(s: string, term: Terminator, g: nat, q: nat): (r: Option<nat>)
    requires g < q <= |s|
    requires NoLineBreak(s, g, q - 1)
    ensures r.Some? ==> q <= r.value <= |s| && NoLineBreak(s, g, r.value) && TermAt(s, r.value, term)
    ensures r.Some? ==> forall q' :: q <= q' < r.value ==> !TermAt(s, q', term)
    ensures r.None? ==> forall q' :: q <= q' <= |s| ==> !(NoLineBreak(s, g, q') && TermAt(s, q', term))
    decreases |s| - q
  {
    TermHoldsExact(s, q, term);
    if IsLineTerminator(s[q - 1]) then None
    else if TermHolds(s, q, term) then Some(q)
    else LazyEnd(s, term, g, q + 1)
  }

  /** The greedy `\s+`: group starts g, g - 1, ... down to one past the keyword. */
  function GreedyFrom(s: string, kw: string, term: Terminator, p: nat, g: nat): (r: Option<(nat, nat)>)
    requires KeywordAt(s, p, kw) && p + |kw| < g <= |s| && AllSpace(s, p + |kw|, g)
    ensures r.Some? ==> r.value.0 <= g && ClauseAt(s, kw, term, p, r.value.0, r.value.1)
    ensures r.Some? ==> forall g2, q2 :: r.value.0 < g2 <= g ==> !ClauseAt(s, kw, term, p, g2, q2)
    ensures r.Some? ==> forall q2 :: q2 < r.value.1 ==> !ClauseAt(s, kw, term, p, r.value.0, q2)
    ensures r.None? ==> forall g2, q2 :: g2 <= g ==> !ClauseAt(s, kw, term, p, g2, q2)
    decreases g
  {
    var e := if g < |s| then LazyEnd(s, term, g, g + 1) else None;
    if e.Some? then Some((g, e.value))
    else if g == p + |kw| + 1 then None
    else GreedyFrom(s, kw, term, p, g - 1)
  }

  /** The match the regex engine finds when it tries start position p. */
  function MatchAt(s: string, kw: string, term: Terminator, p: nat): (r: Option<ClauseMatch>)
    requires p <= |s|
    ensures r.Some? ==> r.value.start == p && ClauseAt(s, kw, term, p, r.value.group, r.value.end)
    ensures r.Some? ==> forall g, q :: r.value.group < g ==> !ClauseAt(s, kw, term, p, g, q)
    ensures r.Some? ==> forall q :: q < r.value.end ==> !ClauseAt(s, kw, term, p, r.value.group, q)
    ensures r.None? ==> forall g, q :: !ClauseAt(s, kw, term, p, g, q)
  {
    if !KeywordAt(s, p, kw) then None
    else
      var top := p + |kw| + SpaceRun(s, p + |kw|);
      assert forall g, q :: top < g ==> !ClauseAt(s, kw, term, p, g, q);
      if top == p + |kw| then None
      else match GreedyFrom(s, kw, term, p, top)
        case None => None
        case Some((g, q)) => Some(ClauseMatch(p, g, q))
  }

  function SearchFrom(s: string, kw: string, term: Terminator, p: nat): (r: Option<ClauseMatch>)
    requires p <= |s|
    ensures r.Some? ==> p <= r.value.start && ClauseAt(s, kw, term, r.value.start, r.value.group, r.value.end)
    ensures r.Some? ==> forall p', g, q :: p <= p' < r.value.start ==> !ClauseAt(s, kw, term, p', g, q)
    ensures r.Some? ==> forall g, q :: r.value.group < g ==> !ClauseAt(s, kw, term, r.value.start, g, q)
    ensures r.Some? ==> forall q :: q < r.value.end ==> !ClauseAt(s, kw, term, r.value.start, r.value.group, q)
    ensures r.None? ==> forall p', g, q :: p <= p' ==> !ClauseAt(s, kw, term, p', g, q)
    decreases |s| - p
  {
    match MatchAt(s, kw, term, p)
    case Some(m) => Some(m)
    case None =>
      if p == |s| then None
      else
        var r := SearchFrom(s, kw, term, p + 1);
        assert r.Some? ==> forall p', g, q :: p <= p' < r.value.start ==> !ClauseAt(s, kw, term, p', g, q) by {
          if r.Some? {
            forall p', g, q | p <= p' < r.value.start ensures !ClauseAt(s, kw, term, p', g, q) {
              if p' > p {}
            }
          }
        }
        r
  }

  /** `String.prototype.match` with one of the clause regexes: the match the
      engine returns when there is one (which is then a witness of HasClause),
      and no match only when the regex cannot match anywhere. */
  function FindClause(s: string, kw: string, term: Terminator): (r: Option<ClauseMatch>)
    ensures r.Some? ==> Leftmost(s, kw, term, r.value)
    ensures r.None? ==> !HasClause(s, kw, term)
  {
    var r := SearchFrom(s, kw, term, 0);
    assert r.Some? ==> HasClause(s, kw, term) by {
      if r.Some? {
        assert ClauseAt(s, kw, term, r.value.start, r.value.group, r.value.end);
      }
    }
    r
  }

  /** A match that is found is a witness that the regex matches. */
  lemma FoundIsClause(s: string, kw: string, term: Terminator)
    ensures FindClause(s, kw, term).Some? <==> HasClause(s, kw, term)
  {
    var r := FindClause(s, kw, term);
    if r.Some? {
      assert ClauseAt(s, kw, term, r.value.start, r.value.group, r.value.end);
    }
  }

  lemma LeftmostUnique(s: string, kw: string, term: Terminator, m1: ClauseMatch, m2: ClauseMatch)
    requires Leftmost(s, kw, term, m1) && Leftmost(s, kw, term, m2)
    ensures m1 == m2
  {
  }

  /** What `add` extracts: the bare title and the raw texts of the two clauses. */
  datatype AddArgs = AddArgs(title: string, dateText: Option<string>, categoryName: Option<string>)

  /** `title.replace(/due\s+.+?(?=\s+cat\s|$)/i, '').trim()`: the lookahead leaves
      the terminator in place, so the removed text is [start, end) of the due match. */
  function RemoveDueClause(t: string): (r: string)
    ensures |r| <= |t| && r == Trim(r)
  {
    TrimIdempotent(RemoveDueClauseRaw(t));
    Trim(RemoveDueClauseRaw(t))
  }

  function RemoveDueClauseRaw(t: string): (r: string)
    ensures |r| <= |t|
  {
    match FindClause(t, "due", CatOrEnd)
    case None => t
    case Some(m) => t[..m.start] + t[m.end..]
  }

  /** `title.replace(/cat\s+.+$/i, '').trim()`: the greedy `.+$` accepts a keyword
      position exactly when the lazy `.+?$` does (both runs must reach the end of
      the text), so the removed text runs from the leftmost cat match to the end. */
  function RemoveCatClause(t: string): (r: string)
    ensures |r| <= |t| && r == Trim(r)
  {
    TrimIdempotent(RemoveCatClauseRaw(t));
    Trim(RemoveCatClauseRaw(t))
  }

  function RemoveCatClauseRaw(t: string): (r: string)
    ensures |r| <= |t|
  {
    match FindClause(t, "cat", EndOnly)
    case None => t
    case Some(m) => t[..m.start]
  }

  /** The trimmed group text of the clause the regex engine returns, if any. */
  function ClauseText(s: string, kw: string, term: Terminator): (r: Option<string>)
    ensures r.Some? <==> HasClause(s, kw, term)
    ensures forall m :: Leftmost(s, kw, term, m) ==> r == Some(Trim(s[m.group..m.end]))
  {
    var found := FindClause(s, kw, term);
    FoundIsClause(s, kw, term);
    forall m | Leftmost(s, kw, term, m) ensures found == Some(m) {
      LeftmostUnique(s, kw, term, m, found.value);
    }
    match found
    case None => None
    case Some(m) => Some(Trim(s[m.group..m.end]))
  }

  /** The title left once the clauses are removed. Each removal applies only if
      the clause was found in the input, and applies to the title as shortened so far. */
  function ExtractTitle(input: string): (t: string)
    ensures t == Trim(t)
    ensures |t| <= |input|
    ensures !HasClause(input, "due", CatOrEnd) && !HasClause(input, "cat", EndOnly) ==> t == Trim(input)
  {
    var title0 := Trim(input);
    var title1 := if FindClause(input, "due", CatOrEnd).Some? then RemoveDueClause(title0) else title0;
    TrimIdempotent(input);
    TrimIdempotent(title1);
    FoundIsClause(input, "due", CatOrEnd);
    FoundIsClause(input, "cat", EndOnly);
    if FindClause(input, "cat", EndOnly).Some? then RemoveCatClause(title1) else title1
  }

  /** handleAddTask's parsing. Both clauses are searched for in the untrimmed
      input, so a due clause that follows a cat clause stays inside the category
      name while also being read as the due date. */
  function ExtractAdd(input: string): (r: AddArgs)
    ensures r.title == Trim(r.title) && |r.title| <= |input|
    ensures r.dateText.Some? <==> HasClause(input, "due", CatOrEnd)
    ensures r.categoryName.Some? <==> HasClause(input, "cat", EndOnly)
    ensures !HasClause(input, "due", CatOrEnd) && !HasClause(input, "cat", EndOnly) ==>
              r.title == Trim(input)
  {
    AddArgs(ExtractTitle(input), ClauseText(input, "due", CatOrEnd), ClauseText(input, "cat", EndOnly))
  }

  /** Worked example: `cat` inside the word "Bobcat" starts a category clause,
      because the pattern has no word boundary. */
  lemma KeywordInsideWord()
    ensures ExtractAdd("Bobcat food").categoryName.Some?
  {
    var s := "Bobcat food";
    assert Lower(s[3..6]) == "cat";
    assert ClauseAt(s, "cat", EndOnly, 3, 7, 11);
  }

  /** A text that does not end in white space (as the webhook's trimmed message
      does not) never yields an empty category name: the cat clause's group runs
      to the end of the text. */
  lemma CategoryNotBlank(s: string)
    requires s == [] || !IsSpace(s[|s| - 1])
    ensures ExtractAdd(s).categoryName.Some? ==> ExtractAdd(s).categoryName.value != ""
  {
    CatTextNotBlank(s);
  }

  lemma CatTextNotBlank(s: string)
    requires s == [] || !IsSpace(s[|s| - 1])
    ensures ClauseText(s, "cat", EndOnly).Some? ==> ClauseText(s, "cat", EndOnly).value != ""
  {
    var r := FindClause(s, "cat", EndOnly);
    if r.Some? {
      var m := r.value;
      assert ClauseAt(s, "cat", EndOnly, m.start, m.group, m.end);
      var x := s[m.group..m.end];
      assert x[|x| - 1] == s[|s| - 1];
    }
  }

  // ------------------------------------------------- what `add` extracts

  /** A keyword: letters only, so no white space character can be part of it. */
  predicate Word(kw: string) {
    |kw| > 0 && forall k :: 0 <= k < |kw| ==> !IsSpace(kw[k])
  }

  lemma KeywordsAreWords()
    ensures Word("due") && Word("cat")
  {
    assert "due"[0] == 'd' && "due"[1] == 'u' && "due"[2] == 'e';
    assert "cat"[0] == 'c' && "cat"[1] == 'a' && "cat"[2] == 't';
  }

  /** `kw` occurs nowhere in s, in any letter case. */
  ghost predicate KeywordFree(s: string, kw: string) {
    forall p: nat :: !KeywordAt(s, p, kw)
  }

  /** Text with no white space at either end, as `trim` leaves it. */
  predicate Tight(s: string) {
    s != [] && !IsSpace(s[0]) && !IsSpace(s[|s| - 1])
  }

  /** Text that `.` matches character by character. */
  predicate NoBreaks(s: string) {
    forall k :: 0 <= k < |s| ==> !IsLineTerminator(s[k])
  }

  /** A white space character cannot be part of a keyword occurrence. */
  lemma SpaceBreaksKeyword(s: string, p: nat, kw: string, k: nat)
    requires Word(kw) && p <= k < p + |kw| <= |s| && IsSpace(s[k])
    ensures !KeywordAt(s, p, kw)
  {
    assert Lower(s[p..p + |kw|])[k - p] == LowerChar(s[k]) == s[k];
  }

  /** Text none of whose characters lower-cases to the keyword's first letter
      holds no occurrence of it. */
  lemma FreeOfFirstLetter(w: string, kw: string)
    requires |kw| > 0
    requires forall k :: 0 <= k < |w| ==> LowerChar(w[k]) != kw[0]
    ensures KeywordFree(w, kw)
  {
    forall p: nat | p + |kw| <= |w| ensures !KeywordAt(w, p, kw) {
      assert Lower(w[p..p + |kw|])[0] == LowerChar(w[p]);
    }
  }

  /** Two keyword-free texts joined at white space stay keyword-free. */
  lemma KeywordFreeConcat(a: string, b: string, kw: string)
    requires Word(kw) && KeywordFree(a, kw) && KeywordFree(b, kw)
    requires (|a| > 0 && IsSpace(a[|a| - 1])) || (|b| > 0 && IsSpace(b[0]))
    ensures KeywordFree(a + b, kw)
  {
    var s := a + b;
    forall p: nat | p + |kw| <= |s| ensures !KeywordAt(s, p, kw) {
      if p + |kw| <= |a| {
        assert s[p..p + |kw|] == a[p..p + |kw|];
        assert !KeywordAt(a, p, kw);
      } else if p >= |a| {
        assert s[p..p + |kw|] == b[p - |a|..p - |a| + |kw|];
        assert !KeywordAt(b, p - |a|, kw);
      } else if |a| > 0 && IsSpace(a[|a| - 1]) {
        SpaceBreaksKeyword(s, p, kw, |a| - 1);
      } else {
        SpaceBreaksKeyword(s, p, kw, |a|);
      }
    }
  }

  /** A keyword-free text ending in white space holds no keyword start, whatever follows. */
  lemma NoKeywordBefore(a: string, b: string, kw: string)
    requires Word(kw) && KeywordFree(a, kw) && |a| > 0 && IsSpace(a[|a| - 1])
    ensures forall i: nat :: i < |a| ==> !KeywordAt(a + b, i, kw)
  {
    var s := a + b;
    forall i: nat | i < |a| && i + |kw| <= |s| ensures !KeywordAt(s, i, kw) {
      if i + |kw| <= |a| {
        assert s[i..i + |kw|] == a[i..i + |kw|];
        assert !KeywordAt(a, i, kw);
      } else {
        SpaceBreaksKeyword(s, i, kw, |a| - 1);
      }
    }
  }

  /** `\s+cat\s` cannot start inside a cat-free group text that ends before white space. */
  lemma NoTermInside(s: string, g: nat, q: nat)
    requires g < q <= |s|
    requires KeywordFree(s[g..q], "cat") && !IsSpace(s[q - 1])
    requires q == |s| || IsSpace(s[q])
    ensures forall q' :: g < q' < q ==> !TermAt(s, q', CatOrEnd)
  {
    KeywordsAreWords();
    forall q', j | g < q' < q ensures !CatTailAt(s, q', j) {
      if j >= q {
        assert q' <= q - 1 < j && !IsSpace(s[q - 1]);
      } else if q' < j && j + 3 <= q {
        var d := s[g..q];
        assert d[j - g] == s[j] && d[j - g + 1] == s[j + 1] && d[j - g + 2] == s[j + 2];
        assert s[j..j + 3] == d[j - g..j - g + 3];
        assert !KeywordAt(d, j - g, "cat");
      } else if q' < j && j + 3 < |s| {
        SpaceBreaksKeyword(s, j, "cat", q);
      }
    }
  }

  /** A match with no keyword before it, one white space character before a
      group that starts with a non-space, and no earlier terminator is the match
      the regex engine returns. */
  lemma LeftmostAt(s: string, kw: string, term: Terminator, p: nat, g: nat, q: nat)
    requires ClauseAt(s, kw, term, p, g, q)
    requires forall i: nat :: i < p ==> !KeywordAt(s, i, kw)
    requires g == p + |kw| + 1 && !IsSpace(s[g])
    requires forall q' :: g < q' < q ==> !TermAt(s, q', term)
    ensures FindClause(s, kw, term) == Some(ClauseMatch(p, g, q))
  {
    var m := ClauseMatch(p, g, q);
    forall g', q' | g < g' ensures !ClauseAt(s, kw, term, p, g', q') {
      if g' <= |s| {
        assert !IsSpace(s[g]);
      }
    }
    assert Leftmost(s, kw, term, m);
    LeftmostUnique(s, kw, term, m, FindClause(s, kw, term).value);
  }

  /** The due clause after a due-free text ending in white space: the group is
      the tight text that follows, ended by ` cat ` or by the end of the text. */
  lemma DueClauseAt(s: string, pre: string, x: string, post: string)
    requires s == pre + "due " + x + post
    requires KeywordFree(pre, "due") && |pre| > 0 && IsSpace(pre[|pre| - 1])
    requires Tight(x) && NoBreaks(x) && KeywordFree(x, "cat")
    requires post == [] || (|post| >= 5 && post[..5] == " cat ")
    ensures FindClause(s, "due", CatOrEnd) == Some(ClauseMatch(|pre|, |pre| + 4, |pre| + 4 + |x|))
  {
    var p, g, q := |pre|, |pre| + 4, |pre| + 4 + |x|;
    DueClauseHolds(s, pre, x, post);
    NoTermInside(s, g, q);
    LeftmostAt(s, "due", CatOrEnd, p, g, q);
  }

  /** The facts about `pre due x post` that make its due clause the leftmost match. */
  lemma DueClauseHolds(s: string, pre: string, x: string, post: string)
    requires s == pre + "due " + x + post
    requires KeywordFree(pre, "due") && |pre| > 0 && IsSpace(pre[|pre| - 1])
    requires Tight(x) && NoBreaks(x) && KeywordFree(x, "cat")
    requires post == [] || (|post| >= 5 && post[..5] == " cat ")
    ensures var p, g, q := |pre|, |pre| + 4, |pre| + 4 + |x|;
            && ClauseAt(s, "due", CatOrEnd, p, g, q)
            && (forall i: nat :: i < p ==> !KeywordAt(s, i, "due"))
            && !IsSpace(s[g]) && KeywordFree(s[g..q], "cat") && !IsSpace(s[q - 1])
            && (q == |s| || IsSpace(s[q]))
  {
    KeywordsAreWords();
    var p, g, q := |pre|, |pre| + 4, |pre| + 4 + |x|;
    NoKeywordBefore(pre, "due " + x + post, "due");
    assert pre + ("due " + x + post) == s;
    assert s[p..p + 3] == "due" && Lower("due") == "due";
    assert s[g..q] == x;
    if post != [] {
      assert s[q..q + 5] == " cat ";
      assert s[q + 1..q + 4] == "cat" && Lower("cat") == "cat";
      assert CatTailAt(s, q, q + 1);
    }
    assert ClauseAt(s, "due", CatOrEnd, p, g, q);
  }

  /** The cat clause after a cat-free text ending in white space: the group is
      the tight rest of the text. */
  lemma CatClauseAt(s: string, pre: string, x: string)
    requires s == pre + "cat " + x
    requires KeywordFree(pre, "cat") && |pre| > 0 && IsSpace(pre[|pre| - 1])
    requires Tight(x) && NoBreaks(x)
    ensures FindClause(s, "cat", EndOnly) == Some(ClauseMatch(|pre|, |pre| + 4, |s|))
  {
    KeywordsAreWords();
    var p, g, q := |pre|, |pre| + 4, |pre| + 4 + |x|;
    NoKeywordBefore(pre, "cat " + x, "cat");
    assert pre + ("cat " + x) == s;
    assert s[p..p + 3] == "cat" && Lower("cat") == "cat";
    assert s[g..q] == x;
    assert ClauseAt(s, "cat", EndOnly, p, g, q);
    LeftmostAt(s, "cat", EndOnly, p, g, q);
  }

  /** The text of a found clause whose group is already tight. */
  lemma TextOfMatch(s: string, kw: string, term: Terminator, m: ClauseMatch, x: string)
    requires FindClause(s, kw, term) == Some(m)
    requires m.group <= m.end <= |s| && s[m.group..m.end] == x && Tight(x)
    ensures ClauseText(s, kw, term) == Some(x)
  {
    TrimNoEdgeSpace(x);
  }

  /** Removing a found due clause leaves the trimmed rest of the text. */
  lemma RemovedDue(s: string, m: ClauseMatch, rest: string)
    requires FindClause(s, "due", CatOrEnd) == Some(m)
    requires m.start <= m.end <= |s| && s[..m.start] + s[m.end..] == rest
    ensures RemoveDueClause(s) == Trim(rest)
  {
  }

  /** Trailing white space after a tight text is trimmed away. */
  lemma TrimPadded(t: string, pad: string)
    requires Tight(t) && forall k :: 0 <= k < |pad| ==> IsSpace(pad[k])
    ensures Trim(t + pad) == t
  {
    var s := t + pad;
    assert TrimStart(s) == s;
    var r := TrimEnd(s);
    assert !IsSpace(s[|t| - 1]);
    forall k | |t| <= k < |s| ensures IsSpace(s[k]) {
      assert s[k] == pad[k - |t|];
    }
    assert !IsSpace(s[|r| - 1]);
    assert s[..|t|] == t;
  }

  /** Text in which the keyword's first letter is never followed by its second
      holds no occurrence of it. */
  lemma FreeOfFirstPair(w: string, kw: string)
    requires |kw| >= 2
    requires forall k :: 0 <= k < |w| - 1 ==> !(LowerChar(w[k]) == kw[0] && LowerChar(w[k + 1]) == kw[1])
    ensures KeywordFree(w, kw)
  {
    forall p: nat | p + |kw| <= |w| ensures !KeywordAt(w, p, kw) {
      assert Lower(w[p..p + |kw|])[0] == LowerChar(w[p]);
      assert Lower(w[p..p + |kw|])[1] == LowerChar(w[p + 1]);
    }
  }

  lemma NoBreaksConcat(a: string, b: string)
    requires NoBreaks(a) && NoBreaks(b)
    ensures NoBreaks(a + b)
  {
    forall k | 0 <= k < |a + b| ensures !IsLineTerminator((a + b)[k]) {
      if k >= |a| {
        assert (a + b)[k] == b[k - |a|];
      }
    }
  }

  /** The separators around the clauses hold no keyword of their own. */
  lemma SeparatorsFree()
    ensures KeywordFree(" ", "due") && KeywordFree(" ", "cat") && KeywordFree("  ", "cat")
    ensures KeywordFree(" due ", "cat") && KeywordFree(" cat ", "due")
  {
    FreeOfFirstLetter(" ", "due");
    FreeOfFirstLetter(" ", "cat");
    FreeOfFirstLetter("  ", "cat");
    FreeOfFirstLetter(" due ", "cat");
    FreeOfFirstLetter(" cat ", "due");
  }

  /** How `t due d cat c` regroups around its clauses. */
  lemma DueThenCatShape(t: string, d: string, c: string)
    ensures var s := t + " due " + d + " cat " + c;
            && (t + " ") + "due " + d + (" cat " + c) == s
            && (t + " due " + d + " ") + "cat " + c == s
            && s[..|t| + 1] + s[|t| + 5 + |d|..] == t + "  cat " + c
            && (t + "  ") + "cat " + c == t + "  cat " + c
            && (t + "  cat " + c)[..|t| + 2] == t + "  "
            && s[|t| + 5..|t| + 5 + |d|] == d && s[|t| + 10 + |d|..|s|] == c
  {
  }

  /** How `t cat c due d` regroups around its clauses. */
  lemma CatThenDueShape(t: string, c: string, d: string)
    ensures var s := t + " cat " + c + " due " + d;
            && (t + " ") + "cat " + (c + " due " + d) == s
            && (t + " cat " + c + " ") + "due " + d + [] == s
            && s[..|t| + 6 + |c|] + s[|s|..] == t + " cat " + c + " "
            && (t + " ") + "cat " + c == t + " cat " + c
            && (t + " cat " + c)[..|t| + 1] == t + " "
            && s[|t| + 5..|s|] == c + " due " + d && s[|t| + 10 + |c|..|s|] == d
  {
  }

  /** The due clause of `t due d cat c` is ` due d`. */
  lemma DueThenCatDue(t: string, d: string, c: string)
    requires Tight(t) && KeywordFree(t, "due") && KeywordFree(t, "cat")
    requires Tight(d) && NoBreaks(d) && KeywordFree(d, "cat")
    requires Tight(c) && NoBreaks(c)
    ensures FindClause(t + " due " + d + " cat " + c, "due", CatOrEnd) == Some(ClauseMatch(|t| + 1, |t| + 5, |t| + 5 + |d|))
  {
    KeywordsAreWords();
    SeparatorsFree();
    KeywordFreeConcat(t, " ", "due");
    DueThenCatShape(t, d, c);
    DueClauseAt(t + " due " + d + " cat " + c, t + " ", d, " cat " + c);
  }

  /** The cat clause of `t due d cat c` is ` cat c`. */
  lemma DueThenCatCat(t: string, d: string, c: string)
    requires Tight(t) && KeywordFree(t, "due") && KeywordFree(t, "cat")
    requires Tight(d) && NoBreaks(d) && KeywordFree(d, "cat")
    requires Tight(c) && NoBreaks(c)
    ensures var s := t + " due " + d + " cat " + c;
            FindClause(s, "cat", EndOnly) == Some(ClauseMatch(|t| + 6 + |d|, |t| + 10 + |d|, |s|))
  {
    KeywordsAreWords();
    SeparatorsFree();
    KeywordFreeConcat(t, " due ", "cat");
    KeywordFreeConcat(t + " due ", d, "cat");
    KeywordFreeConcat(t + " due " + d, " ", "cat");
    DueThenCatShape(t, d, c);
    CatClauseAt(t + " due " + d + " cat " + c, t + " due " + d + " ", c);
  }

  /** Removing the due clause from `t due d cat c` leaves `t  cat c`. */
  lemma DueThenCatRemoveDue(t: string, d: string, c: string)
    requires Tight(t) && KeywordFree(t, "due") && KeywordFree(t, "cat")
    requires Tight(d) && NoBreaks(d) && KeywordFree(d, "cat")
    requires Tight(c) && NoBreaks(c)
    ensures RemoveDueClause(t + " due " + d + " cat " + c) == t + "  cat " + c
  {
    var s := t + " due " + d + " cat " + c;
    TrimNoEdgeSpace(t + "  cat " + c);
    DueThenCatShape(t, d, c);
    DueThenCatDue(t, d, c);
    RemovedDue(s, ClauseMatch(|t| + 1, |t| + 5, |t| + 5 + |d|), t + "  cat " + c);
  }

  /** Removing the cat clause from t, white space, `cat c` leaves t. */
  lemma RemoveCatTail(s: string, t: string, pad: string, c: string)
    requires s == t + pad + "cat " + c
    requires Tight(t) && KeywordFree(t, "cat") && Tight(c) && NoBreaks(c)
    requires pad == " " || pad == "  "
    ensures RemoveCatClause(s) == t
  {
    KeywordsAreWords();
    SeparatorsFree();
    KeywordFreeConcat(t, pad, "cat");
    assert s == (t + pad) + "cat " + c;
    CatClauseAt(s, t + pad, c);
    assert s[..|t + pad|] == t + pad;
    TrimPadded(t, pad);
  }

  /** The title of `t due d cat c`: the due clause goes, then the cat clause. */
  lemma DueThenCatTitle(t: string, d: string, c: string)
    requires Tight(t) && KeywordFree(t, "due") && KeywordFree(t, "cat")
    requires Tight(d) && NoBreaks(d) && KeywordFree(d, "cat")
    requires Tight(c) && NoBreaks(c)
    ensures ExtractTitle(t + " due " + d + " cat " + c) == t
  {
    var s := t + " due " + d + " cat " + c;
    RemoveCatTail(t + "  cat " + c, t, "  ", c);
    DueThenCatDue(t, d, c);
    DueThenCatCat(t, d, c);
    TrimNoEdgeSpace(s);
    DueThenCatRemoveDue(t, d, c);
  }

  /** The due text of `t due d cat c` is d. */
  lemma DueThenCatDueText(t: string, d: string, c: string)
    requires Tight(t) && KeywordFree(t, "due") && KeywordFree(t, "cat")
    requires Tight(d) && NoBreaks(d) && KeywordFree(d, "cat")
    requires Tight(c) && NoBreaks(c)
    ensures ClauseText(t + " due " + d + " cat " + c, "due", CatOrEnd) == Some(d)
  {
    var s := t + " due " + d + " cat " + c;
    DueThenCatShape(t, d, c);
    DueThenCatDue(t, d, c);
    TextOfMatch(s, "due", CatOrEnd, ClauseMatch(|t| + 1, |t| + 5, |t| + 5 + |d|), d);
  }

  /** The category text of `t due d cat c` is c. */
  lemma DueThenCatCatText(t: string, d: string, c: string)
    requires Tight(t) && KeywordFree(t, "due") && KeywordFree(t, "cat")
    requires Tight(d) && NoBreaks(d) && KeywordFree(d, "cat")
    requires Tight(c) && NoBreaks(c)
    ensures ClauseText(t + " due " + d + " cat " + c, "cat", EndOnly) == Some(c)
  {
    var s := t + " due " + d + " cat " + c;
    DueThenCatShape(t, d, c);
    DueThenCatCat(t, d, c);
    TextOfMatch(s, "cat", EndOnly, ClauseMatch(|t| + 6 + |d|, |t| + 10 + |d|, |s|), c);
  }

  /** `add t due d cat c`, for a keyword-free title and a cat-free due text:
      the title is t, the due text d and the category c. */
  lemma ExtractDueThenCat(s: string, t: string, d: string, c: string)
    requires s == t + " due " + d + " cat " + c
    requires Tight(t) && KeywordFree(t, "due") && KeywordFree(t, "cat")
    requires Tight(d) && NoBreaks(d) && KeywordFree(d, "cat")
    requires Tight(c) && NoBreaks(c)
    ensures ExtractAdd(s) == AddArgs(t, Some(d), Some(c))
  {
    DueThenCatDueText(t, d, c);
    DueThenCatCatText(t, d, c);
    DueThenCatTitle(t, d, c);
  }

  /** The cat clause of `t cat c due d` runs to the end of the text. */
  lemma CatThenDueCat(t: string, c: string, d: string)
    requires Tight(t) && KeywordFree(t, "due") && KeywordFree(t, "cat")
    requires Tight(c) && NoBreaks(c) && KeywordFree(c, "due")
    requires Tight(d) && NoBreaks(d) && KeywordFree(d, "cat")
    ensures var s := t + " cat " + c + " due " + d;
            FindClause(s, "cat", EndOnly) == Some(ClauseMatch(|t| + 1, |t| + 5, |s|))
  {
    KeywordsAreWords();
    SeparatorsFree();
    assert NoBreaks(" due ");
    NoBreaksConcat(c, " due ");
    NoBreaksConcat(c + " due ", d);
    KeywordFreeConcat(t, " ", "cat");
    CatThenDueShape(t, c, d);
    CatClauseAt(t + " cat " + c + " due " + d, t + " ", c + " due " + d);
  }

  /** The due clause of `t cat c due d` is ` due d`. */
  lemma CatThenDueDue(t: string, c: string, d: string)
    requires Tight(t) && KeywordFree(t, "due") && KeywordFree(t, "cat")
    requires Tight(c) && NoBreaks(c) && KeywordFree(c, "due")
    requires Tight(d) && NoBreaks(d) && KeywordFree(d, "cat")
    ensures var s := t + " cat " + c + " due " + d;
            FindClause(s, "due", CatOrEnd) == Some(ClauseMatch(|t| + 6 + |c|, |t| + 10 + |c|, |s|))
  {
    KeywordsAreWords();
    SeparatorsFree();
    KeywordFreeConcat(t, " cat ", "due");
    KeywordFreeConcat(t + " cat ", c, "due");
    KeywordFreeConcat(t + " cat " + c, " ", "due");
    CatThenDueShape(t, c, d);
    DueClauseAt(t + " cat " + c + " due " + d, t + " cat " + c + " ", d, []);
  }

  /** Removing the due clause from `t cat c due d` leaves `t cat c`. */
  lemma CatThenDueRemoveDue(t: string, c: string, d: string)
    requires Tight(t) && KeywordFree(t, "due") && KeywordFree(t, "cat")
    requires Tight(c) && NoBreaks(c) && KeywordFree(c, "due")
    requires Tight(d) && NoBreaks(d) && KeywordFree(d, "cat")
    ensures RemoveDueClause(t + " cat " + c + " due " + d) == t + " cat " + c
  {
    var s := t + " cat " + c + " due " + d;
    var kept := t + " cat " + c;
    assert Tight(kept);
    TrimPadded(kept, " ");
    CatThenDueShape(t, c, d);
    CatThenDueDue(t, c, d);
    RemovedDue(s, ClauseMatch(|t| + 6 + |c|, |t| + 10 + |c|, |s|), kept + " ");
  }

  /** The title of `t cat c due d`: removing the due clause leaves `t cat c`,
      and removing the cat clause from that leaves t. */
  lemma CatThenDueTitle(t: string, c: string, d: string)
    requires Tight(t) && KeywordFree(t, "due") && KeywordFree(t, "cat")
    requires Tight(c) && NoBreaks(c) && KeywordFree(c, "due")
    requires Tight(d) && NoBreaks(d) && KeywordFree(d, "cat")
    ensures ExtractTitle(t + " cat " + c + " due " + d) == t
  {
    var s := t + " cat " + c + " due " + d;
    RemoveCatTail(t + " cat " + c, t, " ", c);
    CatThenDueDue(t, c, d);
    CatThenDueCat(t, c, d);
    TrimNoEdgeSpace(s);
    CatThenDueRemoveDue(t, c, d);
  }

  /** The due text of `t cat c due d` is d. */
  lemma CatThenDueDueText(t: string, c: string, d: string)
    requires Tight(t) && KeywordFree(t, "due") && KeywordFree(t, "cat")
    requires Tight(c) && NoBreaks(c) && KeywordFree(c, "due")
    requires Tight(d) && NoBreaks(d) && KeywordFree(d, "cat")
    ensures ClauseText(t + " cat " + c + " due " + d, "due", CatOrEnd) == Some(d)
  {
    var s := t + " cat " + c + " due " + d;
    CatThenDueShape(t, c, d);
    CatThenDueDue(t, c, d);
    TextOfMatch(s, "due", CatOrEnd, ClauseMatch(|t| + 6 + |c|, |t| + 10 + |c|, |s|), d);
  }

  /** The category text of `t cat c due d` is `c due d`. */
  lemma CatThenDueCatText(t: string, c: string, d: string)
    requires Tight(t) && KeywordFree(t, "due") && KeywordFree(t, "cat")
    requires Tight(c) && NoBreaks(c) && KeywordFree(c, "due")
    requires Tight(d) && NoBreaks(d) && KeywordFree(d, "cat")
    ensures ClauseText(t + " cat " + c + " due " + d, "cat", EndOnly) == Some(c + " due " + d)
  {
    var s := t + " cat " + c + " due " + d;
    CatThenDueShape(t, c, d);
    assert Tight(c + " due " + d);
    CatThenDueCat(t, c, d);
    TextOfMatch(s, "cat", EndOnly, ClauseMatch(|t| + 1, |t| + 5, |s|), c + " due " + d);
  }

  /** `add t cat c due d`: the cat clause runs to the end of the text, so the
      category is `c due d`, while the due text is still d. */
  lemma ExtractCatThenDue(s: string, t: string, c: string, d: string)
    requires s == t + " cat " + c + " due " + d
    requires Tight(t) && KeywordFree(t, "due") && KeywordFree(t, "cat")
    requires Tight(c) && NoBreaks(c) && KeywordFree(c, "due")
    requires Tight(d) && NoBreaks(d) && KeywordFree(d, "cat")
    ensures ExtractAdd(s) == AddArgs(t, Some(d), Some(c + " due " + d))
  {
    CatThenDueDueText(t, c, d);
    CatThenDueCatText(t, c, d);
    CatThenDueTitle(t, c, d);
  }

  // ------------------------------------------------- one clause only

  /** Text free of a keyword holds no clause of it. */
  lemma NoClauseWithoutKeyword(s: string, kw: string, term: Terminator)
    requires KeywordFree(s, kw)
    ensures FindClause(s, kw, term) == None && ClauseText(s, kw, term) == None
  {
    FoundIsClause(s, kw, term);
  }

  /** The due clause of `t due d` runs to the end of the text. */
  lemma DueOnlyDue(s: string, t: string, d: string)
    requires s == t + " due " + d
    requires Tight(t) && KeywordFree(t, "due")
    requires Tight(d) && NoBreaks(d) && KeywordFree(d, "cat")
    ensures FindClause(s, "due", CatOrEnd) == Some(ClauseMatch(|t| + 1, |t| + 5, |s|))
  {
    KeywordsAreWords();
    SeparatorsFree();
    KeywordFreeConcat(t, " ", "due");
    assert s == (t + " ") + "due " + d + [];
    DueClauseAt(s, t + " ", d, []);
  }

  /** `t due x` holds no cat keyword, and `t cat x` no due keyword, when neither part does. */
  lemma JoinedFree(s: string, t: string, sep: string, x: string, kw: string)
    requires s == t + sep + x
    requires (sep == " due " && kw == "cat") || (sep == " cat " && kw == "due")
    requires KeywordFree(t, kw) && KeywordFree(x, kw)
    ensures KeywordFree(s, kw)
  {
    KeywordsAreWords();
    SeparatorsFree();
    KeywordFreeConcat(t, sep, kw);
    KeywordFreeConcat(t + sep, x, kw);
  }

  /** Removing the due clause from `t due d` leaves t. */
  lemma DueOnlyTitle(s: string, t: string, d: string)
    requires s == t + " due " + d
    requires Tight(t) && KeywordFree(t, "due") && KeywordFree(t, "cat")
    requires Tight(d) && NoBreaks(d) && KeywordFree(d, "cat")
    ensures ExtractTitle(s) == t
  {
    assert s[0] == t[0] && s[|s| - 1] == d[|d| - 1];
    TrimNoEdgeSpace(s);
    TrimPadded(t, " ");
    assert s[..|t| + 1] + s[|s|..] == t + " ";
    JoinedFree(s, t, " due ", d, "cat");
    NoClauseWithoutKeyword(s, "cat", EndOnly);
    DueOnlyDue(s, t, d);
    RemovedDue(s, ClauseMatch(|t| + 1, |t| + 5, |s|), t + " ");
  }

  /** `add t due d`, the help text's second form: title t, due text d, no category. */
  lemma ExtractDueOnly(s: string, t: string, d: string)
    requires s == t + " due " + d
    requires Tight(t) && KeywordFree(t, "due") && KeywordFree(t, "cat")
    requires Tight(d) && NoBreaks(d) && KeywordFree(d, "cat")
    ensures ExtractAdd(s) == AddArgs(t, Some(d), None)
  {
    assert s[|t| + 5..|s|] == d;
    DueOnlyTitle(s, t, d);
    DueOnlyDue(s, t, d);
    TextOfMatch(s, "due", CatOrEnd, ClauseMatch(|t| + 1, |t| + 5, |s|), d);
    JoinedFree(s, t, " due ", d, "cat");
    NoClauseWithoutKeyword(s, "cat", EndOnly);
  }

  /** The cat clause of `t cat c` runs to the end of the text. */
  lemma CatOnlyCat(s: string, t: string, c: string)
    requires s == t + " cat " + c
    requires Tight(t) && KeywordFree(t, "cat") && Tight(c) && NoBreaks(c)
    ensures FindClause(s, "cat", EndOnly) == Some(ClauseMatch(|t| + 1, |t| + 5, |s|))
  {
    KeywordsAreWords();
    SeparatorsFree();
    KeywordFreeConcat(t, " ", "cat");
    assert s == (t + " ") + "cat " + c;
    CatClauseAt(s, t + " ", c);
  }

  /** Removing the cat clause from `t cat c` leaves t. */
  lemma CatOnlyTitle(s: string, t: string, c: string)
    requires s == t + " cat " + c
    requires Tight(t) && KeywordFree(t, "due") && KeywordFree(t, "cat")
    requires Tight(c) && NoBreaks(c) && KeywordFree(c, "due")
    ensures ExtractTitle(s) == t
  {
    assert s[0] == t[0] && s[|s| - 1] == c[|c| - 1];
    TrimNoEdgeSpace(s);
    RemoveCatTail(s, t, " ", c);
    JoinedFree(s, t, " cat ", c, "due");
    NoClauseWithoutKeyword(s, "due", CatOrEnd);
    CatOnlyCat(s, t, c);
  }

  /** `add t cat c`, the help text's third form: title t, no due text, category c. */
  lemma ExtractCatOnly(s: string, t: string, c: string)
    requires s == t + " cat " + c
    requires Tight(t) && KeywordFree(t, "due") && KeywordFree(t, "cat")
    requires Tight(c) && NoBreaks(c) && KeywordFree(c, "due")
    ensures ExtractAdd(s) == AddArgs(t, None, Some(c))
  {
    assert s[|t| + 5..|s|] == c;
    CatOnlyTitle(s, t, c);
    CatOnlyCat(s, t, c);
    TextOfMatch(s, "cat", EndOnly, ClauseMatch(|t| + 1, |t| + 5, |s|), c);
    JoinedFree(s, t, " cat ", c, "due");
    NoClauseWithoutKeyword(s, "due", CatOrEnd);
  }

  /** The parts of the help text's example meet the conditions of ExtractDueThenCat. */
  lemma HelpExampleParts(t: string, d: string, c: string)
    requires t == "Buy groceries" && d == "tomorrow" && c == "Shopping"
    ensures Tight(t) && KeywordFree(t, "due") && KeywordFree(t, "cat")
    ensures Tight(d) && NoBreaks(d) && KeywordFree(d, "cat")
    ensures Tight(c) && NoBreaks(c)
  {
    FreeOfFirstLetter(t, "due");
    FreeOfFirstPair(t, "cat");
    FreeOfFirstLetter(d, "cat");
  }

  /** The help text's example: `add Buy groceries due tomorrow cat Shopping`. */
  lemma HelpExample()
    ensures ExtractAdd("Buy groceries due tomorrow cat Shopping")
              == AddArgs("Buy groceries", Some("tomorrow"), Some("Shopping"))
  {
    var t, d, c := "Buy groceries", "tomorrow", "Shopping";
    assert "Buy groceries due tomorrow cat Shopping" == t + " due " + d + " cat " + c;
    HelpExampleParts(t, d, c);
    ExtractDueThenCat("Buy groceries due tomorrow cat Shopping", t, d, c);
  }

  /** A due clause after a cat clause stays inside the category name:
      `add X cat C due today`. */
  lemma CatSwallowsDue()
    ensures ExtractAdd("X cat C due today") == AddArgs("X", Some("today"), Some("C due today"))
  {
    var t, c, d := "X", "C", "today";
    FreeOfFirstLetter(t, "due");
    FreeOfFirstLetter(t, "cat");
    FreeOfFirstLetter(c, "due");
    FreeOfFirstLetter(d, "cat");
    assert c + " due " + d == "C due today";
    ExtractCatThenDue("X cat C due today", t, c, d);
  }
}
