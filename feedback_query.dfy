/**
 * fetch_filtered_feedback's query builder: the SQL text grows one clause per
 * filter that is set, and the parameter list grows with it, so that every `?`
 * of the text has exactly one parameter, in the order the marks appear.
 *
 * The text is kept as a sequence of fragments, literal SQL or a `?` mark;
 * `Render` gives the string the database receives.
 */
module FeedbackQuery {
  import opened Wrappers
  import opened Text

  /** A bound parameter: a date (as its ordinal) or a string. */
  datatype Param = DateParam(date: int) | TextParam(text: string)

  /** A piece of SQL text: literal text, or a `?` placeholder. */
  datatype Fragment = Sql(text: string) | Mark

  type Query = seq<Fragment>

  function Render(q: Query): string {
    if q == [] then ""
    else Render(q[..|q| - 1]) + (match q[|q| - 1] case Sql(t) => t case Mark => "?")
  }

  /** The number of `?` marks in `q`. */
  function Placeholders(q: Query): nat {
    if q == [] then 0 else Placeholders(q[..|q| - 1]) + (if q[|q| - 1] == Mark then 1 else 0)
  }

  lemma {:induction false} PlaceholdersAppend(a: Query, b: Query)
    ensures Placeholders(a + b) == Placeholders(a) + Placeholders(b)
    decreases |b|
  {
    if b == [] {
      assert a + b == a;
    } else {
      assert (a + b)[..|a + b| - 1] == a + b[..|b| - 1];
      PlaceholdersAppend(a, b[..|b| - 1]);
    }
  }

  const SelectFeedback: Query := [Sql(
    "\n        SELECT f.id, a.username, f.mood, f.comment, \n"
    + "               CASE WHEN f.is_anonymous = 1 THEN 'Yes' ELSE 'No' END as anonymous,\n"
    + "               f.submitted_at\n"
    + "        FROM feedback f\n"
    + "        LEFT JOIN accounts a ON f.account_id = a.id\n"
    + "        WHERE 1=1\n    ")]
  const DateClause: Query := [Sql(" AND CAST(f.submitted_at AS DATE) BETWEEN "), Mark, Sql(" AND "), Mark]
  const MoodClause: Query := [Sql(" AND f.mood = "), Mark]
  const KeywordClause: Query := [Sql(" AND (a.username LIKE "), Mark, Sql(" OR f.comment LIKE "), Mark, Sql(")")]
  const OrderClause: Query := [Sql(" ORDER BY f.submitted_at DESC")]
  /** The mood choice that means "no mood filter". */
  const AllMoods: string := "All"

  /** The `LIKE` pattern for a keyword: its stripped text anywhere. */
  function KeywordPattern(keyword: string): (p: string)
    ensures |p| == |Strip(keyword)| + 2 && p[0] == '%' && p[|p| - 1] == '%' && p[1..|p| - 1] == Strip(keyword)
  {
    "%" + Strip(keyword) + "%"
  }

  /** Both dates given: the only case in which the date clause is added. */
  predicate Dated(startDate: Option<int>, endDate: Option<int>) {
    startDate.Some? && endDate.Some?
  }

  /** A keyword that is not blank once stripped. */
  predicate HasKeyword(keyword: string) {
    Strip(keyword) != ""
  }

  /** `s += extra` when `c` holds. */
  function AddIf<T>(c: bool, s: seq<T>, extra: seq<T>): (r: seq<T>)
    ensures |r| == |s| + (if c then |extra| else 0) && r[..|s|] == s
  {
    if c then s + extra else s
  }

  /** The SQL text for the filters that are set: the date range, the mood and the keyword. */
  function QueryFor(dated: bool, mooded: bool, keyed: bool): (q: Query)
    ensures |q| >= 2 && q[..1] == SelectFeedback && q[|q| - 1..] == OrderClause
  {
    var withDates := AddIf(dated, SelectFeedback, DateClause);
    var withMood := AddIf(mooded, withDates, MoodClause);
    var q := AddIf(keyed, withMood, KeywordClause) + OrderClause;
    assert q[..1] == withDates[..1];
    q
  }

  /** The SQL text fetch_filtered_feedback executes. */
  function FeedbackSql(startDate: Option<int>, endDate: Option<int>, mood: string, keyword: string): Query {
    QueryFor(Dated(startDate, endDate), mood != AllMoods, HasKeyword(keyword))
  }

  /** The values bound for the filters that are set: the two dates, the mood and the keyword pattern. */
  function ParamsFor(dates: Option<(int, int)>, mood: Option<string>, pattern: Option<string>): (p: seq<Param>)
    ensures |p| == (if dates.Some? then 2 else 0) + (if mood.Some? then 1 else 0) + (if pattern.Some? then 2 else 0)
  {
    (if dates.Some? then [DateParam(dates.value.0), DateParam(dates.value.1)] else [])
    + (if mood.Some? then [TextParam(mood.value)] else [])
    + (if pattern.Some? then [TextParam(pattern.value), TextParam(pattern.value)] else [])
  }

  /** The parameters fetch_filtered_feedback binds, in the order of the marks. */
  function FeedbackParams(startDate: Option<int>, endDate: Option<int>, mood: string, keyword: string): seq<Param> {
    ParamsFor(if Dated(startDate, endDate) then Some((startDate.value, endDate.value)) else None,
              if mood != AllMoods then Some(mood) else None,
              if HasKeyword(keyword) then Some(KeywordPattern(keyword)) else None)
  }

  /**
   * The two dates come first, then the mood, then the keyword pattern twice
   * (once for the user name, once for the comment); only the dates are dates.
   */
  lemma ParamsForLayout(dates: Option<(int, int)>, mood: Option<string>, pattern: Option<string>)
    ensures var p := ParamsFor(dates, mood, pattern);
      var d := if dates.Some? then 2 else 0;
      var m := if mood.Some? then 1 else 0;
      (dates.Some? ==> p[0] == DateParam(dates.value.0) && p[1] == DateParam(dates.value.1))
      && (mood.Some? ==> p[d] == TextParam(mood.value))
      && (pattern.Some? ==> p[d + m] == TextParam(pattern.value) && p[d + m + 1] == p[d + m])
      && (forall i :: 0 <= i < |p| ==> (p[i].DateParam? <==> i < d))
  {
    var a := if dates.Some? then [DateParam(dates.value.0), DateParam(dates.value.1)] else [];
    var b := if mood.Some? then [TextParam(mood.value)] else [];
    var c := if pattern.Some? then [TextParam(pattern.value), TextParam(pattern.value)] else [];
    OnlyDatesFirst(a, b + c);
    assert ParamsFor(dates, mood, pattern) == a + (b + c);
  }

  /** In `a + t`, with dates only in `a`, an entry is a date exactly when it lies in `a`. */
  lemma OnlyDatesFirst(a: seq<Param>, t: seq<Param>)
    requires forall i :: 0 <= i < |a| ==> a[i].DateParam?
    requires forall i :: 0 <= i < |t| ==> t[i].TextParam?
    ensures forall i :: 0 <= i < |a + t| ==> ((a + t)[i].DateParam? <==> i < |a|)
  {
  }

  lemma PlaceholdersOne(f: Fragment)
    ensures Placeholders([f]) == if f == Mark then 1 else 0
  {
    assert [f][..0] == [];
  }

  lemma ClauseMarks()
    ensures Placeholders(SelectFeedback) == 0 && Placeholders(OrderClause) == 0
    ensures Placeholders(DateClause) == 2 && Placeholders(MoodClause) == 1 && Placeholders(KeywordClause) == 2
  {
    PlaceholdersOne(SelectFeedback[0]);
    PlaceholdersOne(OrderClause[0]);
    PlaceholdersOne(Mark);
    var between, and := Sql(" AND CAST(f.submitted_at AS DATE) BETWEEN "), Sql(" AND ");
    PlaceholdersOne(between);
    PlaceholdersOne(and);
    assert DateClause == [between] + [Mark] + [and] + [Mark];
    PlaceholdersAppend([between], [Mark]);
    PlaceholdersAppend([between] + [Mark], [and]);
    PlaceholdersAppend([between] + [Mark] + [and], [Mark]);
    var mood := Sql(" AND f.mood = ");
    PlaceholdersOne(mood);
    assert MoodClause == [mood] + [Mark];
    PlaceholdersAppend([mood], [Mark]);
    var like, or, close := Sql(" AND (a.username LIKE "), Sql(" OR f.comment LIKE "), Sql(")");
    PlaceholdersOne(like);
    PlaceholdersOne(or);
    PlaceholdersOne(close);
    assert KeywordClause == [like] + [Mark] + [or] + [Mark] + [close];
    PlaceholdersAppend([like], [Mark]);
    PlaceholdersAppend([like] + [Mark], [or]);
    PlaceholdersAppend([like] + [Mark] + [or], [Mark]);
    PlaceholdersAppend([like] + [Mark] + [or] + [Mark], [close]);
  }

  lemma PlaceholdersAddIf(c: bool, s: Query, extra: Query)
    ensures Placeholders(AddIf(c, s, extra)) == Placeholders(s) + (if c then Placeholders(extra) else 0)
  {
    if c {
      PlaceholdersAppend(s, extra);
    }
  }

  /** Two marks for the dates, one for the mood, two for the keyword. */
  lemma QueryForMarks(dated: bool, mooded: bool, keyed: bool)
    ensures Placeholders(QueryFor(dated, mooded, keyed))
            == (if dated then 2 else 0) + (if mooded then 1 else 0) + (if keyed then 2 else 0)
  {
    ClauseMarks();
    var b := AddIf(dated, SelectFeedback, DateClause);
    var c := AddIf(mooded, b, MoodClause);
    var d := AddIf(keyed, c, KeywordClause);
    PlaceholdersAddIf(dated, SelectFeedback, DateClause);
    PlaceholdersAddIf(mooded, b, MoodClause);
    PlaceholdersAddIf(keyed, c, KeywordClause);
    PlaceholdersAppend(d, OrderClause);
  }

  /** Every `?` of the text has its parameter, and no parameter is left over. */
  lemma PlaceholdersMatchParams(startDate: Option<int>, endDate: Option<int>, mood: string, keyword: string)
    ensures Placeholders(FeedbackSql(startDate, endDate, mood, keyword)) == |FeedbackParams(startDate, endDate, mood, keyword)|
  {
    QueryForMarks(Dated(startDate, endDate), mood != AllMoods, HasKeyword(keyword));
  }

  /**
   * fetch_filtered_feedback up to the execute call: the SQL text and its
   * parameters for the dates (both must be given), the mood ("All" means
   * any) and the keyword (blank after stripping means none).
   */
  method BuildFeedbackQuery(startDate: Option<int>, endDate: Option<int>, mood: string, keyword: string)
    returns (query: Query, params: seq<Param>)
    ensures query == FeedbackSql(startDate, endDate, mood, keyword)
    ensures params == FeedbackParams(startDate, endDate, mood, keyword)
  {
    query := SelectFeedback;
    params := [];
    ghost var dates, moodValue, pattern := None, None, None;
    if startDate.Some? && endDate.Some? {
      query := query + DateClause;
      params := params + [DateParam(startDate.value), DateParam(endDate.value)];
      dates := Some((startDate.value, endDate.value));
    }
    assert query == AddIf(Dated(startDate, endDate), SelectFeedback, DateClause);
    if mood != AllMoods {
      query := query + MoodClause;
      params := params + [TextParam(mood)];
      moodValue := Some(mood);
    }
    var stripped := Strip(keyword);
    if keyword != "" && stripped != "" {
      query := query + KeywordClause;
      var pattern' := "%" + stripped + "%";
      params := params + [TextParam(pattern'), TextParam(pattern')];
      pattern := Some(pattern');
    }
    assert keyword != "" && stripped != "" <==> HasKeyword(keyword);
    assert params == ParamsFor(dates, moodValue, pattern);
    query := query + OrderClause;
  }
}
