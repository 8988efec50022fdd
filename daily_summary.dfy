/** The per-file daily summary of the preprocessing: every item of an archive
    file is bucketed by the UTC day of `created_utc`, and each day gets a count
    and the means of the score, of the kind's extra column and of the sentiment
    of the item's text. */
module DailySummary {
  import opened Wrappers
  import opened Records

  /** `pd.to_datetime(created_utc, unit='s').dt.date`, as a day number counted
      from 1970-01-01: the day whose 86400 seconds contain the timestamp. */
  function Day(createdUtc: int): (d: int)
    ensures d * 86400 <= createdUtc < d * 86400 + 86400
  {
    createdUtc / 86400
  }

  /** The earliest and the latest `created_utc`, in seconds, that
      `pd.to_datetime(..., unit='s')` accepts: pandas keeps a timestamp as a
      signed 64-bit count of nanoseconds, the smallest value being reserved
      for `NaT`. */
  const MinTimestamp: int := -9223372036
  const MaxTimestamp: int := 9223372036

  /** `created_utc` converts without `OutOfBoundsDatetime`. */
  predicate InTimestampRange(createdUtc: int) {
    MinTimestamp <= createdUtc <= MaxTimestamp
  }

  /** Every item's `created_utc` converts. */
  predicate AllInTimestampRange(items: seq<Item>) {
    forall i :: 0 <= i < |items| ==> InTimestampRange(items[i].created)
  }

  /** The accepted seconds are exactly those whose nanosecond count fits in a
      signed 64-bit integer other than its smallest value: 1677-09-21 to
      2262-04-11. */
  lemma TimestampRangeIsInt64Nanoseconds(createdUtc: int)
    ensures InTimestampRange(createdUtc)
            <==> -0x7fff_ffff_ffff_ffff <= createdUtc * 1_000_000_000 <= 0x7fff_ffff_ffff_ffff
  {
  }

  /** `title.fillna('') + ' - ' + selftext.fillna('')` */
  function SubmissionText(title: Option<string>, selftext: Option<string>): string {
    title.GetOr("") + " - " + selftext.GetOr("")
  }

  /** `body.fillna('')` */
  function CommentText(body: Option<string>): string {
    body.GetOr("")
  }

  /** The text handed to the sentiment scorer. */
  function Text(x: Item): string {
    match x
    case Submission(selftext, title, _, _, _, _, _) => SubmissionText(title, selftext)
    case Comment(body, _, _, _, _) => CommentText(body)
  }

  /** The title, then the separator, then the self text; a missing column reads
      as the empty string. */
  lemma SubmissionTextParts(title: Option<string>, selftext: Option<string>)
    ensures var t, a, b := SubmissionText(title, selftext), title.GetOr(""), selftext.GetOr("");
            && |t| == |a| + 3 + |b|
            && t[..|a|] == a && t[|a|..|a| + 3] == " - " && t[|a| + 3..] == b
    ensures SubmissionText(None, selftext) == SubmissionText(Some(""), selftext)
    ensures SubmissionText(title, None) == SubmissionText(title, Some(""))
  {
    var a, b := title.GetOr(""), selftext.GetOr("");
    assert SubmissionText(title, selftext) == a + " - " + b;
  }

  /** The separator is not escaped, so different columns can give the same text:
      the scorer cannot tell a title containing " - " from a split one. */
  lemma SubmissionTextAmbiguous()
    ensures SubmissionText(Some("a - b"), None) == SubmissionText(Some("a"), Some("b - "))
  {
    assert SubmissionText(Some("a - b"), None) == "a - b - ";
    assert SubmissionText(Some("a"), Some("b - ")) == "a - b - ";
  }

  /** A missing comment body reads as the empty string. */
  lemma CommentTextMissing(body: Option<string>)
    ensures CommentText(None) == ""
    ensures body.Some? ==> CommentText(body) == body.value
  {
  }

  /** `upvote_ratio` for a submission, `controversiality` for a comment. */
  function Extra(x: Item): real {
    match x
    case Submission(_, _, upvoteRatio, _, _, _, _) => upvoteRatio
    case Comment(_, _, controversiality, _, _) => controversiality as real
  }

  predicate StrictlyIncreasing(s: seq<int>) {
    forall i, j :: 0 <= i < j < |s| ==> s[i] < s[j]
  }

  /** Adds `d` to a strictly increasing sequence, keeping it so. */
  function Insert(d: int, s: seq<int>): (r: seq<int>)
    requires StrictlyIncreasing(s)
    ensures StrictlyIncreasing(r)
    ensures forall e :: e in r <==> e in s || e == d
    decreases |s|
  {
    if s == [] then [d]
    else if d < s[0] then [d] + s
    else if d == s[0] then s
    else
      var t := Insert(d, s[1..]);
      assert forall e :: e in s <==> e == s[0] || e in s[1..];
      assert forall k :: 1 <= k < |s| ==> s[0] < s[k];
      assert forall e :: e in s[1..] ==> s[0] < e;
      assert forall k :: 0 <= k < |t| ==> t[k] in t && (t[k] in s[1..] || t[k] == d);
      assert forall k :: 0 <= k < |t| ==> s[0] < t[k];
      [s[0]] + t
  }

  /** The days on which `items` has an item. */
  function DaySet(items: seq<Item>): set<int> {
    set k | 0 <= k < |items| :: Day(items[k].created)
  }

  /** The days that `rows` has a row for. */
  function RowDays(rows: seq<DayRow>): set<int> {
    set i | 0 <= i < |rows| :: rows[i].day
  }

  /** The distinct days of `items`, ascending (the index of `groupby('day')`). */
  function DaysOf(items: seq<Item>): (r: seq<int>)
    ensures StrictlyIncreasing(r)
    ensures forall d :: d in r <==> d in DaySet(items)
  {
    if items == [] then []
    else
      var init := items[..|items| - 1];
      var r := Insert(Day(items[|items| - 1].created), DaysOf(init));
      assert forall i :: 0 <= i < |init| ==> init[i] == items[i];
      r
  }

  /** The items of day `d`, in input order. */
  function OnDay(items: seq<Item>, d: int): (r: seq<Item>)
    ensures forall x :: x in r ==> x in items && Day(x.created) == d
    ensures forall i :: 0 <= i < |items| && Day(items[i].created) == d ==> items[i] in r
  {
    if items == [] then []
    else
      var init := items[..|items| - 1];
      var last := items[|items| - 1];
      assert forall i :: 0 <= i < |init| ==> init[i] == items[i];
      OnDay(init, d) + (if Day(last.created) == d then [last] else [])
  }

  /** A day's group holds each item of that day as many times as `items` does,
      and nothing else: repeated items are neither merged nor dropped. */
  lemma {:induction false} OnDayMultiplicity(items: seq<Item>, d: int)
    ensures forall x :: multiset(OnDay(items, d))[x]
                        == if Day(x.created) == d then multiset(items)[x] else 0
  {
    if items != [] {
      var init, last := items[..|items| - 1], items[|items| - 1];
      OnDayMultiplicity(init, d);
      assert items == init + [last];
      assert OnDay(items, d) == OnDay(init, d) + (if Day(last.created) == d then [last] else []);
    }
  }

  function Sum(xs: seq<real>): real {
    if xs == [] then 0.0 else Sum(xs[..|xs| - 1]) + xs[|xs| - 1]
  }

  /** pandas' `mean` of a column without missing values. */
  function Mean(xs: seq<real>): real
    requires |xs| > 0
  {
    Sum(xs) / (|xs| as real)
  }

  function Scores(items: seq<Item>): (r: seq<real>)
    ensures |r| == |items|
  {
    seq(|items|, i requires 0 <= i < |items| => items[i].score as real)
  }

  function Extras(items: seq<Item>): (r: seq<real>)
    ensures |r| == |items|
  {
    seq(|items|, i requires 0 <= i < |items| => Extra(items[i]))
  }

  function Sentiments(items: seq<Item>, sentiment: string -> real): (r: seq<real>)
    ensures |r| == |items|
  {
    seq(|items|, i requires 0 <= i < |items| => sentiment(Text(items[i])))
  }

  /** A day of the input has at least one item. */
  lemma DayHasItems(items: seq<Item>, d: int)
    requires d in DaysOf(items)
    ensures |OnDay(items, d)| >= 1
  {
    var i :| 0 <= i < |items| && Day(items[i].created) == d;
    assert items[i] in OnDay(items, d);
  }

  /** The row of day `d`: the count and the three means over the day's items. */
  function Row(items: seq<Item>, d: int, sentiment: string -> real): DayRow
    requires d in DaysOf(items)
  {
    DayHasItems(items, d);
    var g := OnDay(items, d);
    DayRow(d, |g|, Mean(Scores(g)), Mean(Extras(g)), Mean(Sentiments(g, sentiment)))
  }

  /** `data.groupby('day').agg(count, mean, mean, mean)`: one row per distinct
      day in ascending order, each counting its items and averaging them. */
  function Summarize(items: seq<Item>, sentiment: string -> real): (rows: seq<DayRow>)
    ensures forall i, j :: 0 <= i < j < |rows| ==> rows[i].day < rows[j].day
    ensures RowDays(rows) == DaySet(items)
    ensures forall i :: 0 <= i < |rows| ==>
              rows[i].count == |OnDay(items, rows[i].day)| && rows[i].count >= 1
    ensures forall i :: 0 <= i < |rows| ==>
              var g := OnDay(items, rows[i].day);
              |g| > 0 && rows[i].averageScore == Mean(Scores(g)) && rows[i].averageExtra == Mean(Extras(g))
              && rows[i].averageSentiment == Mean(Sentiments(g, sentiment))
  {
    var days := DaysOf(items);
    var rows := seq(|days|, i requires 0 <= i < |days| => Row(items, days[i], sentiment));
    assert forall i :: 0 <= i < |rows| ==> rows[i].day == days[i];
    forall d | d in DaySet(items) ensures d in RowDays(rows) {
      var i :| 0 <= i < |days| && days[i] == d;
      assert rows[i].day == d;
    }
    forall d | d in RowDays(rows) ensures d in DaySet(items) {
      var i :| 0 <= i < |rows| && rows[i].day == d;
      assert days[i] in days;
    }
    forall i | 0 <= i < |rows|
      ensures rows[i].count == |OnDay(items, rows[i].day)| && rows[i].count >= 1
    {
      DayHasItems(items, days[i]);
    }
    rows
  }

  /** The mean times the count is the sum. */
  lemma ScaledMean(xs: seq<real>, m: real, n: real)
    requires |xs| > 0 && m == Mean(xs) && n == |xs| as real
    ensures m * n == Sum(xs)
  {
  }

  /** A sum of values within [lo, hi] lies within [n * lo, n * hi]. */
  lemma {:induction false} SumBounds(xs: seq<real>, lo: real, hi: real)
    requires forall i :: 0 <= i < |xs| ==> lo <= xs[i] <= hi
    ensures (|xs| as real) * lo <= Sum(xs) <= (|xs| as real) * hi
  {
    if xs != [] {
      var init := xs[..|xs| - 1];
      assert forall i :: 0 <= i < |init| ==> init[i] == xs[i];
      SumBounds(init, lo, hi);
      assert (|xs| as real) * lo == (|init| as real) * lo + lo;
      assert (|xs| as real) * hi == (|init| as real) * hi + hi;
    }
  }

  /** A mean lies between the smallest and the largest value. */
  lemma MeanBounds(xs: seq<real>, lo: real, hi: real)
    requires |xs| > 0
    requires forall i :: 0 <= i < |xs| ==> lo <= xs[i] <= hi
    ensures lo <= Mean(xs) <= hi
  {
    SumBounds(xs, lo, hi);
    var n, m := |xs| as real, Mean(xs);
    ScaledMean(xs, m, n);
    assert (m - lo) * n >= 0.0 && (hi - m) * n >= 0.0;
  }

  /** The mean score of a day lies between that day's smallest and largest score. */
  lemma AverageScoreWithinDay(items: seq<Item>, sentiment: string -> real, i: int, lo: int, hi: int)
    requires 0 <= i < |Summarize(items, sentiment)|
    requires forall x :: x in OnDay(items, Summarize(items, sentiment)[i].day) ==> lo <= x.score <= hi
    ensures lo as real <= Summarize(items, sentiment)[i].averageScore <= hi as real
  {
    var rows := Summarize(items, sentiment);
    var d := rows[i].day;
    var days := DaysOf(items);
    assert d == days[i];
    var g := OnDay(items, d);
    assert rows[i].averageScore == Mean(Scores(g));
    forall k | 0 <= k < |g| ensures lo as real <= Scores(g)[k] <= hi as real {
      assert g[k] in g;
    }
    MeanBounds(Scores(g), lo as real, hi as real);
  }

  /** The mean of the extra column of a day lies between that day's extremes. */
  lemma AverageExtraWithinDay(items: seq<Item>, sentiment: string -> real, i: int, lo: real, hi: real)
    requires 0 <= i < |Summarize(items, sentiment)|
    requires forall x :: x in OnDay(items, Summarize(items, sentiment)[i].day) ==> lo <= Extra(x) <= hi
    ensures lo <= Summarize(items, sentiment)[i].averageExtra <= hi
  {
    var rows := Summarize(items, sentiment);
    var d := rows[i].day;
    assert d == DaysOf(items)[i];
    var g := OnDay(items, d);
    assert rows[i].averageExtra == Mean(Extras(g));
    forall k | 0 <= k < |g| ensures lo <= Extras(g)[k] <= hi {
      assert g[k] in g;
    }
    MeanBounds(Extras(g), lo, hi);
  }

  /** A scorer with values in [-1, 1] (VADER's compound score) gives daily mean
      sentiments in [-1, 1]. */
  lemma AverageSentimentInRange(items: seq<Item>, sentiment: string -> real, i: int)
    requires forall t :: -1.0 <= sentiment(t) <= 1.0
    requires 0 <= i < |Summarize(items, sentiment)|
    ensures -1.0 <= Summarize(items, sentiment)[i].averageSentiment <= 1.0
  {
    var rows := Summarize(items, sentiment);
    var d := rows[i].day;
    assert d == DaysOf(items)[i];
    var g := OnDay(items, d);
    assert rows[i].averageSentiment == Mean(Sentiments(g, sentiment));
    forall k | 0 <= k < |g| ensures -1.0 <= Sentiments(g, sentiment)[k] <= 1.0 {
      assert Sentiments(g, sentiment)[k] == sentiment(Text(g[k]));
    }
    MeanBounds(Sentiments(g, sentiment), -1.0, 1.0);
  }

  /** The sum of the counts of `rows`. */
  function TotalCount(rows: seq<DayRow>): nat {
    if rows == [] then 0 else TotalCount(rows[..|rows| - 1]) + rows[|rows| - 1].count
  }

  /** How many times `e` occurs in `s`. */
  function Occurrences(s: seq<int>, e: int): nat {
    if s == [] then 0 else Occurrences(s[..|s| - 1], e) + (if s[|s| - 1] == e then 1 else 0)
  }

  /** In a strictly increasing sequence a member occurs once. */
  lemma {:induction false} OccursOnce(s: seq<int>, e: int)
    requires StrictlyIncreasing(s)
    ensures Occurrences(s, e) == if e in s then 1 else 0
  {
    if s != [] {
      var init := s[..|s| - 1];
      assert forall i :: 0 <= i < |init| ==> init[i] == s[i];
      OccursOnce(init, e);
      assert e in s <==> e in init || e == s[|s| - 1];
      if e == s[|s| - 1] {
        assert e !in init;
      }
    }
  }

  /** The number of items of `items` on the days of `days`, day by day. */
  function CountOver(items: seq<Item>, days: seq<int>): nat {
    if days == [] then 0 else CountOver(items, days[..|days| - 1]) + |OnDay(items, days[|days| - 1])|
  }

  /** One more item adds one to the count of each of its day's occurrences. */
  lemma {:induction false} CountOverSnoc(items: seq<Item>, x: Item, days: seq<int>)
    ensures CountOver(items + [x], days) == CountOver(items, days) + Occurrences(days, Day(x.created))
  {
    if days != [] {
      var init := days[..|days| - 1];
      CountOverSnoc(items, x, init);
      assert (items + [x])[..|items + [x]| - 1] == items;
    }
  }

  /** Counting every item once per day of a set of distinct days that covers
      them gives the number of items. */
  lemma {:induction false} CountOverAll(items: seq<Item>, days: seq<int>)
    requires StrictlyIncreasing(days)
    requires forall i :: 0 <= i < |items| ==> Day(items[i].created) in days
    ensures CountOver(items, days) == |items|
  {
    if items == [] {
      CountOverEmpty(days);
    } else {
      var init := items[..|items| - 1];
      var x := items[|items| - 1];
      assert init + [x] == items;
      assert forall i :: 0 <= i < |init| ==> init[i] == items[i];
      CountOverAll(init, days);
      CountOverSnoc(init, x, days);
      OccursOnce(days, Day(x.created));
    }
  }

  lemma {:induction false} CountOverEmpty(days: seq<int>)
    ensures CountOver([], days) == 0
  {
    if days != [] {
      CountOverEmpty(days[..|days| - 1]);
    }
  }

  /** The daily counts add up to the number of items: every item lands in
      exactly one row (ids are never missing). */
  lemma SummaryCountsAddUp(items: seq<Item>, sentiment: string -> real)
    ensures TotalCount(Summarize(items, sentiment)) == |items|
  {
    var days := DaysOf(items);
    var rows := Summarize(items, sentiment);
    assert |rows| == |days|;
    CountOverAll(items, days);
    TotalCountPrefix(items, sentiment, |days|);
    assert rows[..|days|] == rows && days[..|days|] == days;
  }

  /** The rows of the first `n` days count the items of those days. */
  lemma {:induction false} TotalCountPrefix(items: seq<Item>, sentiment: string -> real, n: nat)
    requires n <= |DaysOf(items)|
    ensures n <= |Summarize(items, sentiment)|
    ensures TotalCount(Summarize(items, sentiment)[..n]) == CountOver(items, DaysOf(items)[..n])
  {
    var days := DaysOf(items);
    var rows := Summarize(items, sentiment);
    assert |rows| == |days|;
    if n > 0 {
      TotalCountPrefix(items, sentiment, n - 1);
      assert rows[..n][..n - 1] == rows[..n - 1];
      assert days[..n][..n - 1] == days[..n - 1];
      assert rows[n - 1].count == |OnDay(items, days[n - 1])|;
    }
  }
}
