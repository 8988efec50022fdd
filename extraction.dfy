/** `extract_subreddit_data`: every month from the start year to the current
    month, submissions before comments, each unit gated by its archive file. */
module Extraction {
  import opened Records
  import opened Paths
  import opened Calendar
  import opened Fetcher
  import opened Archive

  /** The last month visited in `year`: `12 if year != current_year else current_month`. */
  function LastMonth(year: int, currentYear: int, currentMonth: int): int {
    if year != currentYear then 12 else currentMonth
  }

  /** `(year, first), ..., (year, last)` */
  function MonthRange(year: int, first: int, last: int): (r: seq<(int, int)>)
    ensures |r| == if last < first then 0 else last - first + 1
    ensures forall i :: 0 <= i < |r| ==> r[i] == (year, first + i)
    decreases last - first
  {
    if last < first then [] else [(year, first)] + MonthRange(year, first + 1, last)
  }

  /** The (year, month) pairs the nested loops visit, in order. */
  function Months(startYear: int, currentYear: int, currentMonth: int): seq<(int, int)>
    decreases currentYear - startYear + 1
  {
    if startYear > currentYear then []
    else MonthRange(startYear, 1, LastMonth(startYear, currentYear, currentMonth))
         + Months(startYear + 1, currentYear, currentMonth)
  }

  /** The inputs `datetime.now()` can give and that keep every visited month
      inside `datetime`'s range. */
  predicate ValidRun(startYear: int, currentYear: int, currentMonth: int) {
    && 1 <= startYear
    && 1 <= currentMonth <= 12
    && (currentYear < 9999 || (currentYear == 9999 && currentMonth < 12))
  }

  /** The files after saving the submissions, then the comments, of one month,
      and whether both saves returned. */
  function SaveMonth(files: map<string, File>, root: string, subreddit: string, ym: (int, int),
                     utcOffset: int, subSrc: PageSource, comSrc: PageSource, fuel: nat,
                     writeOk: string -> bool): (map<string, File>, bool)
  {
    var (f1, ok1) := SaveUnit(files, root, subreddit, SubmissionKind, ym.0, ym.1, utcOffset, subSrc, fuel, writeOk);
    if !ok1 then (f1, false)
    else SaveUnit(f1, root, subreddit, CommentKind, ym.0, ym.1, utcOffset, comSrc, fuel, writeOk)
  }

  /** What the run does with one month: the files after it, and whether the
      run goes on. */
  type MonthAction = (map<string, File>, (int, int)) -> (map<string, File>, bool)

  /** One month of `extract_subreddit_data`. */
  function MonthSaver(root: string, subreddit: string, utcOffset: int, subSrc: PageSource,
                      comSrc: PageSource, fuel: nat, writeOk: string -> bool): MonthAction
  {
    (files: map<string, File>, ym: (int, int)) =>
      SaveMonth(files, root, subreddit, ym, utcOffset, subSrc, comSrc, fuel, writeOk)
  }

  /** The months in order, stopping at the first that does not go on. */
  function RunMonths(files: map<string, File>, months: seq<(int, int)>, act: MonthAction): (map<string, File>, bool)
    decreases |months|
  {
    if months == [] then (files, true)
    else
      var (f, ok) := act(files, months[0]);
      if !ok then (f, false) else RunMonths(f, months[1..], act)
  }

  /** The files after saving submissions, then comments, for every month of
      `months`, and whether every save returned. The run stops at the first save
      whose fetch would not end. */
  function ExtractFrom(files: map<string, File>, root: string, subreddit: string,
                       months: seq<(int, int)>, utcOffset: int, subSrc: PageSource,
                       comSrc: PageSource, fuel: nat, writeOk: string -> bool): (map<string, File>, bool)
  {
    RunMonths(files, months, MonthSaver(root, subreddit, utcOffset, subSrc, comSrc, fuel, writeOk))
  }

  /** Two saves in a row keep the old files and add at most their two paths. */
  lemma ChainFrames(files: map<string, File>, f1: map<string, File>, f2: map<string, File>,
                    p1: string, p2: string)
    requires files.Keys <= f1.Keys <= files.Keys + {p1} && forall p :: p in files ==> f1[p] == files[p]
    requires f1.Keys <= f2.Keys <= f1.Keys + {p2} && forall p :: p in f1 ==> f2[p] == f1[p]
    ensures Extends(f2, files)
    ensures forall p :: p in f2 && p !in files ==> p == p1 || p == p2
  {
  }

  /** One month adds at most its two unit files and keeps every other file. */
  lemma SaveMonthFrame(files: map<string, File>, root: string, subreddit: string, ym: (int, int),
                       utcOffset: int, subSrc: PageSource, comSrc: PageSource, fuel: nat,
                       writeOk: string -> bool)
    ensures Extends(SaveMonth(files, root, subreddit, ym, utcOffset, subSrc, comSrc, fuel, writeOk).0, files)
    ensures forall p :: p in SaveMonth(files, root, subreddit, ym, utcOffset, subSrc, comSrc, fuel, writeOk).0
                        && p !in files ==>
              p == FilePath(root, subreddit, SubmissionKind, ym.0, ym.1)
              || p == FilePath(root, subreddit, CommentKind, ym.0, ym.1)
  {
    var p1 := FilePath(root, subreddit, SubmissionKind, ym.0, ym.1);
    var p2 := FilePath(root, subreddit, CommentKind, ym.0, ym.1);
    var u1 := SaveUnit(files, root, subreddit, SubmissionKind, ym.0, ym.1, utcOffset, subSrc, fuel, writeOk);
    SaveUnitFrame(files, root, subreddit, SubmissionKind, ym.0, ym.1, utcOffset, subSrc, fuel, writeOk);
    var u2 := SaveUnit(u1.0, root, subreddit, CommentKind, ym.0, ym.1, utcOffset, comSrc, fuel, writeOk);
    SaveUnitFrame(u1.0, root, subreddit, CommentKind, ym.0, ym.1, utcOffset, comSrc, fuel, writeOk);
    if u1.1 {
      assert SaveMonth(files, root, subreddit, ym, utcOffset, subSrc, comSrc, fuel, writeOk).0 == u2.0;
      ChainFrames(files, u1.0, u2.0, p1, p2);
    } else {
      assert SaveMonth(files, root, subreddit, ym, utcOffset, subSrc, comSrc, fuel, writeOk).0 == u1.0;
      ChainFrames(files, u1.0, u1.0, p1, p2);
    }
  }

  /** Submissions come first: when their fetch does not end, the month's
      comments are never fetched, nothing is written and the run stops there. */
  lemma HungSubmissionsSkipComments(files: map<string, File>, root: string, subreddit: string, ym: (int, int),
                                    utcOffset: int, subSrc: PageSource, comSrc: PageSource, fuel: nat,
                                    writeOk: string -> bool)
    requires !SaveUnit(files, root, subreddit, SubmissionKind, ym.0, ym.1, utcOffset, subSrc, fuel, writeOk).1
    ensures SaveMonth(files, root, subreddit, ym, utcOffset, subSrc, comSrc, fuel, writeOk) == (files, false)
  {
  }

  /** The i-th visited month is month `i % 12 + 1` of year `startYear + i / 12`. */
  lemma {:induction false} MonthAt(startYear: int, currentYear: int, currentMonth: int)
    requires 1 <= currentMonth <= 12
    ensures forall i :: 0 <= i < |Months(startYear, currentYear, currentMonth)| ==>
              Months(startYear, currentYear, currentMonth)[i] == (startYear + i / 12, i % 12 + 1)
    decreases currentYear - startYear + 1
  {
    if startYear <= currentYear {
      var ms := Months(startYear, currentYear, currentMonth);
      var head := MonthRange(startYear, 1, LastMonth(startYear, currentYear, currentMonth));
      var tail := Months(startYear + 1, currentYear, currentMonth);
      MonthAt(startYear + 1, currentYear, currentMonth);
      assert ms == head + tail;
      forall i | 0 <= i < |ms|
        ensures ms[i] == (startYear + i / 12, i % 12 + 1)
      {
        if i < |head| {
          assert ms[i] == head[i];
        } else {
          assert |tail| > 0;
          assert startYear < currentYear;
          assert ms[i] == tail[i - 12];
          assert (i - 12) / 12 == i / 12 - 1 && (i - 12) % 12 == i % 12;
        }
      }
    }
  }

  /** `12 * (current_year - start_year) + current_month` months are visited. */
  lemma {:induction false} MonthsCount(startYear: int, currentYear: int, currentMonth: int)
    requires startYear <= currentYear && 1 <= currentMonth <= 12
    ensures |Months(startYear, currentYear, currentMonth)| == 12 * (currentYear - startYear) + currentMonth
    decreases currentYear - startYear
  {
    if startYear < currentYear {
      MonthsCount(startYear + 1, currentYear, currentMonth);
    }
  }

  /** A month is visited exactly when it lies in a full year from the start year
      to the year before the current one, or in the current year up to the
      current month; and the visits go strictly forward in time. */
  lemma MonthsExactly(startYear: int, currentYear: int, currentMonth: int)
    requires startYear <= currentYear && 1 <= currentMonth <= 12
    ensures forall y, m :: (y, m) in Months(startYear, currentYear, currentMonth) <==>
              (startYear <= y < currentYear && 1 <= m <= 12) || (y == currentYear && 1 <= m <= currentMonth)
    ensures forall i, j :: 0 <= i < j < |Months(startYear, currentYear, currentMonth)| ==>
              Before(Months(startYear, currentYear, currentMonth)[i], Months(startYear, currentYear, currentMonth)[j])
  {
    var ms := Months(startYear, currentYear, currentMonth);
    MonthAt(startYear, currentYear, currentMonth);
    MonthsCount(startYear, currentYear, currentMonth);
    forall y, m | (startYear <= y < currentYear && 1 <= m <= 12) || (y == currentYear && 1 <= m <= currentMonth)
      ensures (y, m) in ms
    {
      var i := 12 * (y - startYear) + m - 1;
      assert i / 12 == y - startYear && i % 12 == m - 1;
      assert ms[i] == (y, m);
    }
  }

  /** Strictly earlier in time. */
  predicate Before(a: (int, int), b: (int, int)) {
    a.0 < b.0 || (a.0 == b.0 && a.1 < b.1)
  }

  /** Every visited month of a valid run is one `get_limit_dates` accepts, so
      no unit of such a run raises there. */
  lemma MonthsInRange(startYear: int, currentYear: int, currentMonth: int, utcOffset: int)
    requires ValidRun(startYear, currentYear, currentMonth)
    ensures var ms := Months(startYear, currentYear, currentMonth);
            forall i :: 0 <= i < |ms| ==> LimitDates(ms[i].0, ms[i].1, RefHour, utcOffset).Some?
  {
    var ms := Months(startYear, currentYear, currentMonth);
    if startYear <= currentYear {
      MonthsExactly(startYear, currentYear, currentMonth);
      forall i | 0 <= i < |ms|
        ensures LimitDates(ms[i].0, ms[i].1, RefHour, utcOffset).Some?
      {
        var y, m := ms[i].0, ms[i].1;
        assert (y, m) in ms;
      }
    }
  }

  /** `r` keeps every file of `files` with its content. */
  ghost predicate Extends(r: map<string, File>, files: map<string, File>) {
    forall p :: p in files ==> p in r && r[p] == files[p]
  }

  /** Files in `r` that are not in `files` are all unit files of `months`. */
  ghost predicate CreatesOnlyUnitFiles(r: map<string, File>, files: map<string, File>, root: string,
                                       subreddit: string, months: seq<(int, int)>) {
    forall p :: p in r && p !in files ==>
      exists i, k :: 0 <= i < |months| && p == FilePath(root, subreddit, k, months[i].0, months[i].1)
  }

  /** Archives are immutable: a run never changes or removes an existing file. */
  lemma {:induction false} ExtractPreservesFiles(files: map<string, File>, root: string,
                                                 subreddit: string, months: seq<(int, int)>,
                                                 utcOffset: int, subSrc: PageSource,
                                                 comSrc: PageSource, fuel: nat, writeOk: string -> bool)
    ensures Extends(ExtractFrom(files, root, subreddit, months, utcOffset, subSrc, comSrc, fuel, writeOk).0, files)
    decreases |months|
  {
    if months != [] {
      var (f, ok) := MonthSaver(root, subreddit, utcOffset, subSrc, comSrc, fuel, writeOk)(files, months[0]);
      SaveMonthFrame(files, root, subreddit, months[0], utcOffset, subSrc, comSrc, fuel, writeOk);
      if ok {
        ExtractPreservesFiles(f, root, subreddit, months[1..], utcOffset, subSrc, comSrc, fuel, writeOk);
      }
    }
  }

  /** A run creates nothing but the archive files of the units it visits. */
  lemma {:induction false} ExtractCreatesOnlyUnitFiles(files: map<string, File>, root: string,
                                                       subreddit: string, months: seq<(int, int)>,
                                                       utcOffset: int, subSrc: PageSource,
                                                       comSrc: PageSource, fuel: nat, writeOk: string -> bool)
    ensures CreatesOnlyUnitFiles(ExtractFrom(files, root, subreddit, months, utcOffset, subSrc, comSrc, fuel, writeOk).0,
                                 files, root, subreddit, months)
    decreases |months|
  {
    if months != [] {
      var (f, ok) := MonthSaver(root, subreddit, utcOffset, subSrc, comSrc, fuel, writeOk)(files, months[0]);
      var p1 := FilePath(root, subreddit, SubmissionKind, months[0].0, months[0].1);
      var p2 := FilePath(root, subreddit, CommentKind, months[0].0, months[0].1);
      SaveMonthFrame(files, root, subreddit, months[0], utcOffset, subSrc, comSrc, fuel, writeOk);
      assert forall p :: p in f && p !in files ==> p == p1 || p == p2;
      var r := ExtractFrom(files, root, subreddit, months, utcOffset, subSrc, comSrc, fuel, writeOk).0;
      var rest := months[1..];
      if ok {
        ExtractCreatesOnlyUnitFiles(f, root, subreddit, rest, utcOffset, subSrc, comSrc, fuel, writeOk);
        assert r == ExtractFrom(f, root, subreddit, rest, utcOffset, subSrc, comSrc, fuel, writeOk).0;
      } else {
        assert r == f;
      }
      forall p | p in r && p !in files
        ensures exists i, k :: 0 <= i < |months| && p == FilePath(root, subreddit, k, months[i].0, months[i].1)
      {
        if p in f {
          if p == p1 {
            assert 0 <= 0 < |months|;
          } else {
            assert p == FilePath(root, subreddit, CommentKind, months[0].0, months[0].1);
          }
        } else {
          var i, k :| 0 <= i < |rest| && p == FilePath(root, subreddit, k, rest[i].0, rest[i].1);
          assert rest[i] == months[i + 1];
          assert p == FilePath(root, subreddit, k, months[i + 1].0, months[i + 1].1);
        }
      }
    }
  }

  /** The remote source a unit of `kind` is fetched from. */
  function SourceFor(kind: Kind, subSrc: PageSource, comSrc: PageSource): PageSource {
    if kind == SubmissionKind then subSrc else comSrc
  }

  /** The file at `p`, if there is one, is the archive of `items` of `kind`. */
  predicate HoldsAt(files: map<string, File>, p: string, kind: Kind, items: seq<Item>) {
    p in files ==> files[p] == Archive(kind, items)
  }

  /** One save that returns keeps the target unit's file, if any, as the
      archive of `items`, and creates it when it is the target unit that is
      saved and its fetch returns `items` and its write succeeds. */
  lemma SaveUnitStores(files: map<string, File>, root: string, subreddit: string, saved: Kind,
                       year: int, month: int, utcOffset: int, savedSrc: PageSource, fuel: nat,
                       writeOk: string -> bool, kind: Kind, y: int, m: int, src: PageSource,
                       items: seq<Item>)
    requires Segment(subreddit)
    requires LimitDates(y, m, RefHour, utcOffset).Some?
    requires var q := QueryFor(subreddit, kind, y, m, utcOffset);
             Run(src, q, MaxRetries, Start(q), fuel) == Finished(items, true)
    requires writeOk(FilePath(root, subreddit, kind, y, m))
    requires saved == kind && year == y && month == m ==> savedSrc == src
    requires SaveUnit(files, root, subreddit, saved, year, month, utcOffset, savedSrc, fuel, writeOk).1
    requires HoldsAt(files, FilePath(root, subreddit, kind, y, m), kind, items)
    ensures var f := SaveUnit(files, root, subreddit, saved, year, month, utcOffset, savedSrc, fuel, writeOk).0;
            && HoldsAt(f, FilePath(root, subreddit, kind, y, m), kind, items)
            && (FilePath(root, subreddit, kind, y, m) in files ==> FilePath(root, subreddit, kind, y, m) in f)
            && (saved == kind && year == y && month == m ==> FilePath(root, subreddit, kind, y, m) in f)
  {
    var p, p' := FilePath(root, subreddit, kind, y, m), FilePath(root, subreddit, saved, year, month);
    if p' !in files && LimitDates(year, month, RefHour, utcOffset).Some? && p' == p {
      FilePathInjective(root, subreddit, saved, year, month, subreddit, kind, y, m);
    }
  }

  /** One month that returns keeps the target unit's file, if any, as the
      archive of `items`, and creates it when the month is the unit's. */
  lemma SaveMonthStores(files: map<string, File>, root: string, subreddit: string, ym: (int, int),
                        utcOffset: int, subSrc: PageSource, comSrc: PageSource, fuel: nat,
                        writeOk: string -> bool, kind: Kind, u: (int, int), items: seq<Item>)
    requires Segment(subreddit)
    requires LimitDates(u.0, u.1, RefHour, utcOffset).Some?
    requires var q := QueryFor(subreddit, kind, u.0, u.1, utcOffset);
             Run(SourceFor(kind, subSrc, comSrc), q, MaxRetries, Start(q), fuel) == Finished(items, true)
    requires writeOk(FilePath(root, subreddit, kind, u.0, u.1))
    requires SaveMonth(files, root, subreddit, ym, utcOffset, subSrc, comSrc, fuel, writeOk).1
    requires HoldsAt(files, FilePath(root, subreddit, kind, u.0, u.1), kind, items)
    ensures var f := SaveMonth(files, root, subreddit, ym, utcOffset, subSrc, comSrc, fuel, writeOk).0;
            && HoldsAt(f, FilePath(root, subreddit, kind, u.0, u.1), kind, items)
            && (ym == u ==> FilePath(root, subreddit, kind, u.0, u.1) in f)
  {
    var src := SourceFor(kind, subSrc, comSrc);
    var u1 := SaveUnit(files, root, subreddit, SubmissionKind, ym.0, ym.1, utcOffset, subSrc, fuel, writeOk);
    SaveUnitStores(files, root, subreddit, SubmissionKind, ym.0, ym.1, utcOffset, subSrc, fuel, writeOk,
                   kind, u.0, u.1, src, items);
    SaveUnitStores(u1.0, root, subreddit, CommentKind, ym.0, ym.1, utcOffset, comSrc, fuel, writeOk,
                   kind, u.0, u.1, src, items);
  }

  /** Every month that returns keeps the file at `p`, if any, as the archive of
      `items`, and the month `u` creates it. */
  ghost predicate KeepsUnit(act: MonthAction, p: string, kind: Kind, items: seq<Item>, u: (int, int)) {
    forall f, ym :: act(f, ym).1 && HoldsAt(f, p, kind, items) ==>
      && HoldsAt(act(f, ym).0, p, kind, items)
      && (p in f ==> p in act(f, ym).0)
      && (ym == u ==> p in act(f, ym).0)
  }

  /** A run that finishes over months that all keep the file at `p`, with `u`
      among them or the file already there, ends with the file holding `items`. */
  lemma {:induction false} RunMonthsStores(files: map<string, File>, months: seq<(int, int)>, act: MonthAction,
                                           p: string, kind: Kind, items: seq<Item>, u: (int, int))
    requires KeepsUnit(act, p, kind, items, u)
    requires HoldsAt(files, p, kind, items) && (p in files || u in months)
    requires RunMonths(files, months, act).1
    ensures p in RunMonths(files, months, act).0 && HoldsAt(RunMonths(files, months, act).0, p, kind, items)
    decreases |months|
  {
    if months != [] {
      var (f, ok) := act(files, months[0]);
      assert ok;
      assert p in f || u in months[1..] by {
        if p !in f {
          assert months == [months[0]] + months[1..];
        }
      }
      RunMonthsStores(f, months[1..], act, p, kind, items, u);
    }
  }

  /** A run that finishes leaves every visited unit whose fetch returns `items`
      and whose write succeeds with its archive file holding `items`, whether it
      was missing before the run or already held them. */
  lemma ExtractStoresFetchedUnits(files: map<string, File>, root: string, subreddit: string,
                                  months: seq<(int, int)>, utcOffset: int, subSrc: PageSource,
                                  comSrc: PageSource, fuel: nat, writeOk: string -> bool,
                                  i: int, kind: Kind, items: seq<Item>)
    requires Segment(subreddit) && 0 <= i < |months|
    requires LimitDates(months[i].0, months[i].1, RefHour, utcOffset).Some?
    requires var q := QueryFor(subreddit, kind, months[i].0, months[i].1, utcOffset);
             Run(SourceFor(kind, subSrc, comSrc), q, MaxRetries, Start(q), fuel) == Finished(items, true)
    requires writeOk(FilePath(root, subreddit, kind, months[i].0, months[i].1))
    requires HoldsAt(files, FilePath(root, subreddit, kind, months[i].0, months[i].1), kind, items)
    requires ExtractFrom(files, root, subreddit, months, utcOffset, subSrc, comSrc, fuel, writeOk).1
    ensures var r, p := ExtractFrom(files, root, subreddit, months, utcOffset, subSrc, comSrc, fuel, writeOk).0,
                        FilePath(root, subreddit, kind, months[i].0, months[i].1);
            p in r && r[p] == Archive(kind, items)
  {
    var act := MonthSaver(root, subreddit, utcOffset, subSrc, comSrc, fuel, writeOk);
    var u := months[i];
    var p := FilePath(root, subreddit, kind, u.0, u.1);
    forall f, ym | act(f, ym).1 && HoldsAt(f, p, kind, items)
      ensures HoldsAt(act(f, ym).0, p, kind, items) && (p in f ==> p in act(f, ym).0)
              && (ym == u ==> p in act(f, ym).0)
    {
      SaveMonthStores(f, root, subreddit, ym, utcOffset, subSrc, comSrc, fuel, writeOk, kind, u, items);
      SaveMonthFrame(f, root, subreddit, ym, utcOffset, subSrc, comSrc, fuel, writeOk);
    }
    RunMonthsStores(files, months, act, p, kind, items, u);
  }

  /** Resumability: when every unit of the months already has its file, a run
      changes nothing and finishes, whatever the remote sources would answer. */
  lemma {:induction false} CompletedArchiveIsSkipped(files: map<string, File>, root: string,
                                                     subreddit: string, months: seq<(int, int)>,
                                                     utcOffset: int, subSrc: PageSource,
                                                     comSrc: PageSource, fuel: nat, writeOk: string -> bool)
    requires forall i, k :: 0 <= i < |months| ==> FilePath(root, subreddit, k, months[i].0, months[i].1) in files
    ensures ExtractFrom(files, root, subreddit, months, utcOffset, subSrc, comSrc, fuel, writeOk) == (files, true)
    decreases |months|
  {
    if months != [] {
      assert FilePath(root, subreddit, SubmissionKind, months[0].0, months[0].1) in files;
      assert FilePath(root, subreddit, CommentKind, months[0].0, months[0].1) in files;
      forall i, k | 0 <= i < |months[1..]|
        ensures FilePath(root, subreddit, k, months[1..][i].0, months[1..][i].1) in files
      {
        assert months[1..][i] == months[i + 1];
      }
      CompletedArchiveIsSkipped(files, root, subreddit, months[1..], utcOffset, subSrc, comSrc, fuel, writeOk);
    }
  }

  /** The months of the first year, then those of the following years. */
  lemma MonthsStep(year: int, currentYear: int, currentMonth: int)
    requires year <= currentYear
    ensures Months(year, currentYear, currentMonth)
            == MonthRange(year, 1, LastMonth(year, currentYear, currentMonth))
               + Months(year + 1, currentYear, currentMonth)
  {
  }

  /** Running over `a + b` is running over `a`, then, if it went on, over `b`. */
  lemma {:induction false} RunMonthsAppend(files: map<string, File>, a: seq<(int, int)>, b: seq<(int, int)>,
                                           act: MonthAction)
    ensures RunMonths(files, a + b, act)
            == if RunMonths(files, a, act).1 then RunMonths(RunMonths(files, a, act).0, b, act)
               else RunMonths(files, a, act)
    decreases |a|
  {
    if a == [] {
      assert a + b == b;
    } else {
      assert (a + b)[0] == a[0] && (a + b)[1..] == a[1..] + b;
      var (f, ok) := act(files, a[0]);
      if ok {
        RunMonthsAppend(f, a[1..], b, act);
      }
    }
  }

  /** The run year by year, as the outer loop makes it: the months of `year`,
      then, if those went on, the later years. */
  function RunYears(files: map<string, File>, year: int, currentYear: int, currentMonth: int,
                    act: MonthAction): (map<string, File>, bool)
    decreases currentYear - year + 1
  {
    if year > currentYear then (files, true)
    else
      var (f, ok) := RunMonths(files, MonthRange(year, 1, LastMonth(year, currentYear, currentMonth)), act);
      if !ok then (f, false) else RunYears(f, year + 1, currentYear, currentMonth, act)
  }

  /** Year by year is the same run as month by month over `Months`. */
  lemma {:induction false} RunYearsIsRunMonths(files: map<string, File>, year: int, currentYear: int,
                                               currentMonth: int, act: MonthAction)
    ensures RunYears(files, year, currentYear, currentMonth, act)
            == RunMonths(files, Months(year, currentYear, currentMonth), act)
    decreases currentYear - year + 1
  {
    if year <= currentYear {
      var head := MonthRange(year, 1, LastMonth(year, currentYear, currentMonth));
      MonthsStep(year, currentYear, currentMonth);
      RunMonthsAppend(files, head, Months(year + 1, currentYear, currentMonth), act);
      var (f, ok) := RunMonths(files, head, act);
      if ok {
        RunYearsIsRunMonths(f, year + 1, currentYear, currentMonth, act);
      }
    }
  }

  /** One pass of the inner loop: a month that went on leaves the rest of the
      year to do, one that did not ends the run. */
  lemma MonthAdvance(before: map<string, File>, after: map<string, File>, ok: bool, year: int,
                     month: int, maxMonth: int, act: MonthAction)
    requires month <= maxMonth
    requires (after, ok) == act(before, (year, month))
    ensures RunMonths(before, MonthRange(year, month, maxMonth), act)
            == if ok then RunMonths(after, MonthRange(year, month + 1, maxMonth), act) else (after, false)
  {
    var todo := MonthRange(year, month, maxMonth);
    assert todo[0] == (year, month) && todo[1..] == MonthRange(year, month + 1, maxMonth);
  }

  /** One pass of the outer loop: a year that went on leaves the later years to
      do, one that did not ends the run. */
  lemma YearAdvance(before: map<string, File>, after: map<string, File>, ok: bool, year: int,
                    currentYear: int, currentMonth: int, act: MonthAction)
    requires year <= currentYear
    requires (after, ok) == RunMonths(before, MonthRange(year, 1, LastMonth(year, currentYear, currentMonth)), act)
    ensures RunYears(before, year, currentYear, currentMonth, act)
            == if ok then RunYears(after, year + 1, currentYear, currentMonth, act) else (after, false)
  {
  }

  /** The body of the inner loop of `extract_subreddit_data`: the submissions,
      then the comments, of one month. */
  method ExtractMonth(fs: FileSystem, root: string, subreddit: string, year: int, month: int,
                      utcOffset: int, subSrc: PageSource, comSrc: PageSource, fuel: nat,
                      writeOk: string -> bool) returns (ok: bool)
    modifies fs
    ensures (fs.files, ok)
            == SaveMonth(old(fs.files), root, subreddit, (year, month), utcOffset, subSrc, comSrc, fuel, writeOk)
  {
    ok := SaveRedditSubmissions(fs, root, subreddit, year, month, utcOffset, subSrc, fuel, writeOk);
    if ok {
      ok := SaveRedditComments(fs, root, subreddit, year, month, utcOffset, comSrc, fuel, writeOk);
    }
  }

  /** The inner loop of `extract_subreddit_data`: months 1 to `maxMonth` of `year`. */
  method ExtractYear(fs: FileSystem, root: string, subreddit: string, year: int, maxMonth: int,
                     utcOffset: int, subSrc: PageSource, comSrc: PageSource, fuel: nat,
                     writeOk: string -> bool) returns (finished: bool)
    modifies fs
    ensures (fs.files, finished)
            == ExtractFrom(old(fs.files), root, subreddit, MonthRange(year, 1, maxMonth),
                           utcOffset, subSrc, comSrc, fuel, writeOk)
  {
    ghost var act := MonthSaver(root, subreddit, utcOffset, subSrc, comSrc, fuel, writeOk);
    ghost var goal := RunMonths(fs.files, MonthRange(year, 1, maxMonth), act);
    var month := 1;
    while month <= maxMonth
      invariant RunMonths(fs.files, MonthRange(year, month, maxMonth), act) == goal
      decreases maxMonth - month
    {
      ghost var before := fs.files;
      var ok := ExtractMonth(fs, root, subreddit, year, month, utcOffset, subSrc, comSrc, fuel, writeOk);
      assert (fs.files, ok) == act(before, (year, month));
      MonthAdvance(before, fs.files, ok, year, month, maxMonth, act);
      if !ok {
        return false;
      }
      month := month + 1;
    }
    finished := true;
  }

  /** `extract_subreddit_data(subreddit)` with the current year and month as
      inputs. Returns false where a fetch would never end (the source hangs
      there, so no later unit is visited). */
  method ExtractSubredditData(fs: FileSystem, root: string, subreddit: string, startYear: int,
                              currentYear: int, currentMonth: int, utcOffset: int,
                              subSrc: PageSource, comSrc: PageSource, fuel: nat,
                              writeOk: string -> bool) returns (finished: bool)
    modifies fs
    ensures (fs.files, finished)
            == ExtractFrom(old(fs.files), root, subreddit, Months(startYear, currentYear, currentMonth),
                           utcOffset, subSrc, comSrc, fuel, writeOk)
  {
    ghost var act := MonthSaver(root, subreddit, utcOffset, subSrc, comSrc, fuel, writeOk);
    RunYearsIsRunMonths(fs.files, startYear, currentYear, currentMonth, act);
    ghost var goal := RunYears(fs.files, startYear, currentYear, currentMonth, act);
    var year := startYear;
    while year <= currentYear
      invariant startYear <= year
      invariant RunYears(fs.files, year, currentYear, currentMonth, act) == goal
      decreases currentYear - year
    {
      var maxMonth := LastMonth(year, currentYear, currentMonth);
      ghost var before := fs.files;
      var ok := ExtractYear(fs, root, subreddit, year, maxMonth, utcOffset, subSrc, comSrc, fuel, writeOk);
      YearAdvance(before, fs.files, ok, year, currentYear, currentMonth, act);
      if !ok {
        return false;
      }
      year := year + 1;
    }
    finished := true;
  }
}
