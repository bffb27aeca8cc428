/**
 * The date resolver (parseDateString), the date printer (formatDate) and the
 * due-status badge (getDueStatus). Calendar dates are day numbers; the current
 * day, the host's parser for other date literals and its locale date printer
 * come from the request environment.
 */
module Dates {
  import opened Wrappers
  import opened Text
  import opened Model

  /** Resolves the text of a due clause: "today" and "tomorrow" in any letter
      case, otherwise whatever the host's date parser makes of the literal. */
  function ParseDate(text: string, env: Env): (r: Option<int>)
    ensures Lower(text) == "today" ==> r == Some(env.today)
    ensures Lower(text) == "tomorrow" ==> r == Some(env.today + 1)
    ensures Lower(text) != "today" && Lower(text) != "tomorrow" ==> r == env.parseLiteral(text)
  {
    var lowered := Lower(text);
    if lowered == "today" then Some(env.today)
    else if lowered == "tomorrow" then Some(env.today + 1)
    else env.parseLiteral(text)
  }

  /** How the add reply prints a due day. */
  function FormatDate(d: int, env: Env): (r: string)
    ensures d == env.today ==> r == "Today"
    ensures d == env.today + 1 ==> r == "Tomorrow"
    ensures d != env.today && d != env.today + 1 ==> r == env.localeDate(d)
  {
    if d == env.today then "Today"
    else if d == env.today + 1 then "Tomorrow"
    else env.localeDate(d)
  }

  /** The badge shown after a dated task in a listing. */
  datatype DueStatus = DueStatus(emoji: string, text: string)

  /** Where a due day stands relative to the current day. */
  datatype DueBucket = Overdue | DueToday | DueTomorrow | Later

  function BucketOf(d: int, today: int): (b: DueBucket)
    ensures b == Overdue <==> d < today
    ensures b == Later <==> d > today + 1
  {
    if d < today then Overdue
    else if d == today then DueToday
    else if d == today + 1 then DueTomorrow
    else Later
  }

  function Rank(b: DueBucket): nat {
    match b
    case Overdue => 0
    case DueToday => 1
    case DueTomorrow => 2
    case Later => 3
  }

  function GetDueStatus(d: int, env: Env): (r: DueStatus)
    ensures r.emoji == "🔴" <==> d < env.today
    ensures r.emoji == "🔶" <==> env.today <= d <= env.today + 1
    ensures r.emoji == "📅" <==> d > env.today + 1
    ensures d > env.today + 1 ==> r.text == env.localeDate(d)
  {
    if d < env.today then DueStatus("🔴", "Overdue")
    else if d == env.today then DueStatus("🔶", "Due Today")
    else if d == env.today + 1 then DueStatus("🔶", "Due Tomorrow")
    else DueStatus("📅", FormatDate(d, env))
  }

  /** The badge is determined by the bucket of the day, and by the locale
      printer only for days after tomorrow. */
  lemma StatusByBucket(d: int, env: Env)
    ensures BucketOf(d, env.today) == Overdue ==> GetDueStatus(d, env) == DueStatus("🔴", "Overdue")
    ensures BucketOf(d, env.today) == DueToday ==> GetDueStatus(d, env) == DueStatus("🔶", "Due Today")
    ensures BucketOf(d, env.today) == DueTomorrow ==> GetDueStatus(d, env) == DueStatus("🔶", "Due Tomorrow")
    ensures BucketOf(d, env.today) == Later ==> GetDueStatus(d, env) == DueStatus("📅", env.localeDate(d))
  {
  }

  /** Later days never fall in an earlier bucket. */
  lemma BucketMonotone(d1: int, d2: int, today: int)
    requires d1 <= d2
    ensures Rank(BucketOf(d1, today)) <= Rank(BucketOf(d2, today))
  {
  }

  /** A day the add reply printed as "Today" or "Tomorrow" reads back as the
      same day when typed into a due clause. */
  lemma FormatParseKeywords(d: int, env: Env)
    requires d == env.today || d == env.today + 1
    ensures ParseDate(FormatDate(d, env), env) == Some(d)
  {
    if d == env.today {
      assert Lower("Today") == "today";
    } else {
      assert Lower("Tomorrow") == "tomorrow";
    }
  }

  /** Any other day reads back exactly when the host parser accepts what the
      locale printer produced (and that text is not one of the two keywords). */
  lemma FormatParseOther(d: int, env: Env)
    requires d != env.today && d != env.today + 1
    requires Lower(env.localeDate(d)) != "today" && Lower(env.localeDate(d)) != "tomorrow"
    ensures ParseDate(FormatDate(d, env), env) == Some(d) <==> env.parseLiteral(env.localeDate(d)) == Some(d)
  {
  }

  /** A keyword due clause lands in the matching badge of the listing. */
  lemma KeywordBadges(text: string, env: Env)
    ensures Lower(text) == "today" ==> GetDueStatus(ParseDate(text, env).value, env).text == "Due Today"
    ensures Lower(text) == "tomorrow" ==> GetDueStatus(ParseDate(text, env).value, env).text == "Due Tomorrow"
  {
  }
}
