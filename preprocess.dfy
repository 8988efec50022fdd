/** `compute_cripto_summaries`: the preprocessing of one community. Every
    `.csv` archive file of its submission and comment directories is summarized
    day by day, each summary cached in a `summary` directory beside the
    archive; the two concatenations are joined on the day into the community's
    overall summary. */
module Preprocess {
  import opened Wrappers
  import opened Records
  import opened Paths
  import opened DailySummary
  import opened Rollup
  import Archive

  /** `get_summary_path(path)` */
  function SummaryPath(path: string): string {
    Join(path, "summary")
  }

  /** The cache file of the summary of `file`, listed in directory `path`. */
  function Destination(path: string, file: string): string {
    Join(SummaryPath(path), "summary_" + file)
  }

  /** The archive file `file`, listed in directory `path`. */
  function Source(path: string, file: string): string {
    Join(path, file)
  }

  /** `already_computed(destination_file)`: the cache file exists. */
  predicate AlreadyComputed(files: map<string, File>, destination: string) {
    destination in files
  }

  /** Every item has the columns of `kind`. */
  predicate OfKind(items: seq<Item>, kind: Kind) {
    forall i :: 0 <= i < |items| ==> KindOf(items[i]) == kind
  }

  /** An archive file the summary of `kind` can read: every `created_utc`
      converts to a pandas datetime, its header has the kind's columns, and so
      has every row. Reading a column the header lacks (`data['title']`,
      `data['body']`) raises, even with no rows. */
  predicate Readable(f: File, kind: Kind) {
    f.Archive? && f.kind == kind && OfKind(f.items, kind) && AllInTimestampRange(f.items)
  }

  /** What a summary call returns or raises, with the files afterwards. */
  type Outcome<T> = (Result<T, Error>, map<string, File>)

  /** `compute_submission_file_summary(path, file)` for `SubmissionKind` and
      `compute_comment_file_summary(path, file)` for `CommentKind`. An existing
      cache file is read back and nothing else is looked at; otherwise the
      archive file is summarized and the rows are written to the cache file. */
  function FileSummary(files: map<string, File>, kind: Kind, path: string, file: string,
                       sentiment: string -> real): Outcome<seq<DayRow>>
  {
    var dest := Destination(path, file);
    if AlreadyComputed(files, dest) then
      (if files[dest].Summary? then Ok(files[dest].rows) else Err(Malformed(dest)), files)
    else
      var src := Source(path, file);
      if src !in files then (Err(FileNotFound(src)), files)
      else if files[src].Archive? && !AllInTimestampRange(files[src].items)
      then (Err(OutOfBoundsDatetime(src)), files)
      else if !Readable(files[src], kind) then (Err(Malformed(src)), files)
      else
        var rows := Summarize(files[src].items, sentiment);
        (Ok(rows), files[dest := Summary(rows)])
  }

  /** The cache file sits in the `summary` directory below the listed one. */
  lemma DestinationShape(path: string, file: string)
    ensures Destination(path, file) == Prefix(path) + "summary/summary_" + file
  {
    var p, sp := Prefix(path), SummaryPath(path);
    JoinShape(path, "summary");
    assert sp == p + "summary";
    assert sp[|sp| - 1] == 'y';
    JoinShape(sp, "summary_" + file);
    assert "summary" + "/" == "summary/" && "summary/" + "summary_" == "summary/summary_";
    Associate(p, "summary", "/");
    Associate(p + "summary/", "summary_", file);
    Associate(p, "summary/", "summary_");
  }

  /** The cache file is never the archive file it caches. */
  lemma DestinationNotSource(path: string, file: string)
    ensures Destination(path, file) != Source(path, file)
  {
    DestinationShape(path, file);
    assert |Destination(path, file)| == |Prefix(path)| + 16 + |file|;
    assert |Source(path, file)| <= |Prefix(path)| + |file|;
  }

  /** The cache files of differently named archive files differ. */
  lemma DestinationInjective(path: string, f: string, g: string)
    requires Destination(path, f) == Destination(path, g)
    ensures f == g
  {
    var p := Prefix(path) + "summary/summary_";
    DestinationShape(path, f);
    DestinationShape(path, g);
    CancelPrefix(p, f, g);
  }

  /** A listed archive file (a plain name) is never the cache file of another. */
  lemma SourceNotDestination(path: string, f: string, g: string)
    requires Segment(g)
    ensures Source(path, g) != Destination(path, f)
  {
    var p, d := Prefix(path), Destination(path, f);
    assert g[0] in g;
    JoinShape(path, g);
    DestinationShape(path, f);
    assert d[|p| + 7] == "summary/summary_"[7] == '/';
    SlashApart(p, g, d, |p| + 7);
  }

  /** A name without a separator, put after `p`, differs from a path with a
      separator at a position past `p`. */
  lemma SlashApart(p: string, g: string, d: string, k: int)
    requires '/' !in g && |p| <= k < |d| && d[k] == '/'
    ensures p + g != d
  {
    if |p + g| == |d| {
      assert (p + g)[k] == g[k - |p|] && g[k - |p|] in g;
    }
  }

  /** A cache hit: the stored rows come back, no file changes, and neither the
      archive file nor the sentiment scorer is consulted. */
  lemma CacheHit(files: map<string, File>, kind: Kind, path: string, file: string,
                 s1: string -> real, s2: string -> real, other: File)
    requires AlreadyComputed(files, Destination(path, file))
    ensures FileSummary(files, kind, path, file, s1).1 == files
    ensures files[Destination(path, file)].Summary?
            ==> FileSummary(files, kind, path, file, s1).0 == Ok(files[Destination(path, file)].rows)
    ensures var src := Source(path, file);
            FileSummary(files[src := other], kind, path, file, s2)
            == (FileSummary(files, kind, path, file, s1).0, files[src := other])
  {
    DestinationNotSource(path, file);
  }

  /** A cache miss: the call succeeds exactly when the archive file exists,
      holds items of the expected kind and has no timestamp outside pandas'
      range, and then it returns their daily summary. The missing file and the
      out-of-range timestamp raise their own errors. */
  lemma CacheMiss(files: map<string, File>, kind: Kind, path: string, file: string,
                  sentiment: string -> real)
    requires !AlreadyComputed(files, Destination(path, file))
    ensures var src, r := Source(path, file), FileSummary(files, kind, path, file, sentiment).0;
            && (r.Ok? <==> src in files && Readable(files[src], kind))
            && (r.Ok? ==> r.value == Summarize(files[src].items, sentiment))
            && (src !in files ==> r == Err(FileNotFound(src)))
            && (src in files && files[src].Archive? && !AllInTimestampRange(files[src].items)
                ==> r == Err(OutOfBoundsDatetime(src)))
  {
  }

  /** A submission created one second after 2262-04-11 23:47:16 makes the
      summary raise and write nothing; one created a second earlier is
      summarized into a cache file. */
  lemma TimestampBoundary(path: string, file: string, sentiment: string -> real)
    ensures var src, late := Source(path, file), Submission(None, None, 1.0, 0, "a", 0, MaxTimestamp + 1);
            var files := map[src := Archive(SubmissionKind, [late])];
            FileSummary(files, SubmissionKind, path, file, sentiment) == (Err(OutOfBoundsDatetime(src)), files)
    ensures var src, last := Source(path, file), Submission(None, None, 1.0, 0, "a", 0, MaxTimestamp);
            var files := map[src := Archive(SubmissionKind, [last])];
            FileSummary(files, SubmissionKind, path, file, sentiment).0.Ok?
  {
    DestinationNotSource(path, file);
  }

  /** A summary call only ever creates its own cache file: no existing file
      changes, and a call that raises changes nothing. */
  lemma FileSummaryFrame(files: map<string, File>, kind: Kind, path: string, file: string,
                         sentiment: string -> real)
    ensures var (r, m) := FileSummary(files, kind, path, file, sentiment);
            && files.Keys <= m.Keys <= files.Keys + {Destination(path, file)}
            && (forall p :: p in files ==> m[p] == files[p])
            && (r.Err? ==> m == files)
  {
  }

  /** After a call that returns rows, the cache file holds exactly those rows. */
  lemma FileSummaryStored(files: map<string, File>, kind: Kind, path: string, file: string,
                          sentiment: string -> real)
    requires FileSummary(files, kind, path, file, sentiment).0.Ok?
    ensures var (r, m) := FileSummary(files, kind, path, file, sentiment);
            Destination(path, file) in m && m[Destination(path, file)] == Summary(r.value)
  {
  }

  /** Summarizing a file twice gives the same rows and the same files as once. */
  lemma FileSummaryIdempotent(files: map<string, File>, kind: Kind, path: string, file: string,
                              sentiment: string -> real)
    ensures var (r, m) := FileSummary(files, kind, path, file, sentiment);
            FileSummary(m, kind, path, file, sentiment) == (r, m)
  {
  }

  /** A summary call reads no file but the cache file and the archive file. */
  lemma FileSummaryLocal(m1: map<string, File>, m2: map<string, File>, kind: Kind, path: string,
                         file: string, sentiment: string -> real)
    requires forall p :: p in {Destination(path, file), Source(path, file)} ==>
               (p in m1 <==> p in m2) && (p in m1 ==> m1[p] == m2[p])
    ensures FileSummary(m1, kind, path, file, sentiment).0 == FileSummary(m2, kind, path, file, sentiment).0
  {
    assert Destination(path, file) in {Destination(path, file), Source(path, file)};
    assert Source(path, file) in {Destination(path, file), Source(path, file)};
  }

  /** Summarizing one listed file does not change what summarizing another
      listed file returns. */
  lemma SummaryIndependent(files: map<string, File>, kind: Kind, path: string, f: string,
                           g: string, sentiment: string -> real)
    requires Segment(g)
    ensures FileSummary(FileSummary(files, kind, path, f, sentiment).1, kind, path, g, sentiment).0
            == FileSummary(files, kind, path, g, sentiment).0
  {
    var m := FileSummary(files, kind, path, f, sentiment).1;
    if f == g {
      FileSummaryIdempotent(files, kind, path, f, sentiment);
    } else if m != files {
      var d := Destination(path, f);
      assert m == files[d := m[d]];
      SourceNotDestination(path, f, g);
      if Destination(path, g) == d {
        DestinationInjective(path, f, g);
      }
      FileSummaryLocal(m, files, kind, path, g, sentiment);
    }
  }

  /** The listed files in turn, as the loop of `compute_all_summary` runs
      them: the rows concatenated in listing order, or the first error raised
      (after which no further file is looked at). */
  function SummariesFrom(files: map<string, File>, kind: Kind, path: string, names: seq<string>,
                         sentiment: string -> real): Outcome<seq<DayRow>>
  {
    Gather(files, names, Summarizer(kind, path, sentiment))
  }

  /** What the run does with one listed name. */
  type FileAction = (map<string, File>, string) -> Outcome<seq<DayRow>>

  /** The summary call of one kind in directory `path`. */
  function Summarizer(kind: Kind, path: string, sentiment: string -> real): FileAction {
    (files: map<string, File>, file: string) => FileSummary(files, kind, path, file, sentiment)
  }

  /** The names in order, stopping at the first call that raises, with the rows
      of the calls concatenated. */
  function Gather(files: map<string, File>, names: seq<string>, act: FileAction): Outcome<seq<DayRow>>
    decreases |names|
  {
    if names == [] then (Ok([]), files)
    else
      var (r, files1) := act(files, names[0]);
      if r.Err? then (r, files1)
      else
        var (rest, files2) := Gather(files1, names[1..], act);
        (if rest.Ok? then Ok(r.value + rest.value) else rest, files2)
  }

  /** A reference for the concatenation: the first error among `results`, or
      all their rows in order. */
  function Collect(results: seq<Result<seq<DayRow>, Error>>): Result<seq<DayRow>, Error> {
    if results == [] then Ok([])
    else if results[0].Err? then results[0]
    else
      var rest := Collect(results[1..]);
      if rest.Ok? then Ok(results[0].value + rest.value) else rest
  }

  /** What each listed file's summary call returns when it is made first, on `files`. */
  function Standalone(files: map<string, File>, kind: Kind, path: string, names: seq<string>,
                      sentiment: string -> real): (rs: seq<Result<seq<DayRow>, Error>>)
    ensures |rs| == |names|
  {
    seq(|names|, i requires 0 <= i < |names| => FileSummary(files, kind, path, names[i], sentiment).0)
  }

  /** The number of rows of the results that hold rows. */
  function TotalRows(results: seq<Result<seq<DayRow>, Error>>): nat {
    if results == [] then 0
    else (if results[0].Ok? then |results[0].value| else 0) + TotalRows(results[1..])
  }

  /** The concatenation has as many rows as its parts together. */
  lemma {:induction false} CollectLength(results: seq<Result<seq<DayRow>, Error>>)
    requires Collect(results).Ok?
    ensures |Collect(results).value| == TotalRows(results)
  {
    if results != [] {
      CollectLength(results[1..]);
    }
  }

  /** The concatenation fails exactly when one of its parts does. */
  lemma {:induction false} CollectFails(results: seq<Result<seq<DayRow>, Error>>)
    ensures Collect(results).Err? <==> exists i :: 0 <= i < |results| && results[i].Err?
  {
    if results != [] {
      CollectFails(results[1..]);
      if exists i :: 0 <= i < |results[1..]| && results[1..][i].Err? {
        var i :| 0 <= i < |results[1..]| && results[1..][i].Err?;
        assert results[i + 1].Err?;
      }
      if exists i :: 0 <= i < |results| && results[i].Err? {
        var i :| 0 <= i < |results| && results[i].Err?;
        if i > 0 {
          assert results[1..][i - 1].Err?;
        }
      }
    }
  }

  /** The files listed in a directory are summarized independently of each
      other: the concatenation holds each file's summary as if it were the
      only one, and the first error is the first listed file that fails. */
  lemma {:induction false} SummariesAreStandalone(files: map<string, File>, kind: Kind, path: string,
                                                  names: seq<string>, sentiment: string -> real)
    requires forall i :: 0 <= i < |names| ==> Segment(names[i])
    ensures SummariesFrom(files, kind, path, names, sentiment).0
            == Collect(Standalone(files, kind, path, names, sentiment))
    decreases |names|
  {
    if names != [] {
      var files1 := FileSummary(files, kind, path, names[0], sentiment).1;
      var rest := names[1..];
      SummariesAreStandalone(files1, kind, path, rest, sentiment);
      var all, tail := Standalone(files, kind, path, names, sentiment), Standalone(files1, kind, path, rest, sentiment);
      forall j | 0 <= j < |rest| ensures tail[j] == all[1..][j] {
        SummaryIndependent(files, kind, path, names[0], rest[j], sentiment);
      }
      assert tail == all[1..];
    }
  }

  /** A run of the loop only ever creates cache files of the listed files; no
      existing file changes. */
  lemma {:induction false} SummariesFrame(files: map<string, File>, kind: Kind, path: string,
                                          names: seq<string>, sentiment: string -> real)
    ensures var m := SummariesFrom(files, kind, path, names, sentiment).1;
            && files.Keys <= m.Keys
            && (forall p :: p in m && p !in files ==> exists i :: 0 <= i < |names| && p == Destination(path, names[i]))
            && (forall p :: p in files ==> m[p] == files[p])
    decreases |names|
  {
    if names != [] {
      FileSummaryFrame(files, kind, path, names[0], sentiment);
      var (r, files1) := FileSummary(files, kind, path, names[0], sentiment);
      if r.Ok? {
        SummariesFrame(files1, kind, path, names[1..], sentiment);
        var m := SummariesFrom(files, kind, path, names, sentiment).1;
        forall p | p in m && p !in files
          ensures exists i :: 0 <= i < |names| && p == Destination(path, names[i])
        {
          if p !in files1 {
            var i :| 0 <= i < |names[1..]| && p == Destination(path, names[1..][i]);
            assert p == Destination(path, names[i + 1]);
          } else {
            assert p == Destination(path, names[0]);
          }
        }
      }
    }
  }

  /** Once a run has returned rows, running the same listing again on files that
      keep what the run left returns the same rows and changes nothing: every
      file is a cache hit. */
  lemma {:induction false} SummariesFromCache(files: map<string, File>, kind: Kind, path: string,
                                              names: seq<string>, sentiment: string -> real,
                                              m: map<string, File>)
    requires SummariesFrom(files, kind, path, names, sentiment).0.Ok?
    requires var m0 := SummariesFrom(files, kind, path, names, sentiment).1;
             forall i :: 0 <= i < |names| && Destination(path, names[i]) in m0 ==>
               Destination(path, names[i]) in m && m[Destination(path, names[i])] == m0[Destination(path, names[i])]
    ensures SummariesFrom(m, kind, path, names, sentiment)
            == (SummariesFrom(files, kind, path, names, sentiment).0, m)
    decreases |names|
  {
    if names != [] {
      var (r, files1) := FileSummary(files, kind, path, names[0], sentiment);
      FileSummaryStored(files, kind, path, names[0], sentiment);
      SummariesFrame(files1, kind, path, names[1..], sentiment);
      SummariesFromCache(files1, kind, path, names[1..], sentiment, m);
    }
  }

  /** Running the same listing twice gives the same outcome and the same files
      as running it once, whether or not the first run raised. */
  lemma {:induction false} SummariesIdempotent(files: map<string, File>, kind: Kind, path: string,
                                               names: seq<string>, sentiment: string -> real)
    ensures var (r, m) := SummariesFrom(files, kind, path, names, sentiment);
            SummariesFrom(m, kind, path, names, sentiment) == (r, m)
    decreases |names|
  {
    if names != [] {
      var (r, files1) := FileSummary(files, kind, path, names[0], sentiment);
      if r.Ok? {
        FileSummaryStored(files, kind, path, names[0], sentiment);
        SummariesFrame(files1, kind, path, names[1..], sentiment);
        SummariesIdempotent(files1, kind, path, names[1..], sentiment);
      }
    }
  }

  /** `file.endswith('.csv')` */
  predicate IsCsv(name: string) {
    |name| >= 4 && name[|name| - 4..] == ".csv"
  }

  /** The `.csv` entries of a directory listing, in listing order. */
  function CsvNames(listing: seq<string>): (names: seq<string>)
    ensures forall n :: n in names <==> n in listing && IsCsv(n)
  {
    if listing == [] then []
    else (if IsCsv(listing[0]) then [listing[0]] else []) + CsvNames(listing[1..])
  }

  /** Every archive file the extraction writes passes the `.csv` filter, and the
      file that the preprocessing reads for it in the kind's directory is that
      unit's archive file. */
  lemma ArchiveFilesAreListed(root: string, subreddit: string, kind: Kind, year: int, month: int)
    ensures IsCsv(Archive.FileName(year, month))
    ensures Source(Join(Join(root, subreddit), KindName(kind)), Archive.FileName(year, month))
            == Archive.FilePath(root, subreddit, kind, year, month)
  {
    Archive.FileNameIsCsv(year, month);
  }

  /** `compute_all_summary(path, compute_summary)` with `os.listdir(path)` given
      as `listing`. */
  function AllSummary(files: map<string, File>, kind: Kind, path: string, listing: seq<string>,
                      sentiment: string -> real): Outcome<seq<DayRow>>
  {
    SummariesFrom(files, kind, path, CsvNames(listing), sentiment)
  }

  /** Only `.csv` entries are summarized: adding any other entry to the listing
      changes nothing. */
  lemma NonCsvIgnored(files: map<string, File>, kind: Kind, path: string, listing: seq<string>,
                      other: string, sentiment: string -> real)
    requires !IsCsv(other)
    ensures AllSummary(files, kind, path, [other] + listing, sentiment)
            == AllSummary(files, kind, path, listing, sentiment)
  {
    assert ([other] + listing)[1..] == listing;
    assert CsvNames([other] + listing) == CsvNames(listing);
  }

  /** The rows `compute_all_summary` returns are every `.csv` file's own summary
      in listing order, as many rows as those summaries have together, and it
      raises exactly when one of them raises. */
  lemma AllSummaryIsConcatenation(files: map<string, File>, kind: Kind, path: string,
                                  listing: seq<string>, sentiment: string -> real)
    requires forall i :: 0 <= i < |listing| ==> Segment(listing[i])
    ensures var rs := Standalone(files, kind, path, CsvNames(listing), sentiment);
            && AllSummary(files, kind, path, listing, sentiment).0 == Collect(rs)
            && (AllSummary(files, kind, path, listing, sentiment).0.Ok?
                ==> |AllSummary(files, kind, path, listing, sentiment).0.value| == TotalRows(rs))
            && (AllSummary(files, kind, path, listing, sentiment).0.Err?
                <==> exists i :: 0 <= i < |rs| && rs[i].Err?)
  {
    var names := CsvNames(listing);
    forall i | 0 <= i < |names| ensures Segment(names[i]) {
      assert names[i] in names;
    }
    SummariesAreStandalone(files, kind, path, names, sentiment);
    var rs := Standalone(files, kind, path, names, sentiment);
    CollectFails(rs);
    if Collect(rs).Ok? {
      CollectLength(rs);
    }
  }

  /** `compute_submission_file_summary` / `compute_comment_file_summary` on the
      file system. */
  method ComputeFileSummary(fs: FileSystem, kind: Kind, path: string, file: string,
                            sentiment: string -> real) returns (r: Result<seq<DayRow>, Error>)
    modifies fs
    ensures (r, fs.files) == FileSummary(old(fs.files), kind, path, file, sentiment)
  {
    var dest := Destination(path, file);
    if fs.Exists(dest) {
      var cached := fs.files[dest];
      if cached.Summary? {
        return Ok(cached.rows);
      }
      return Err(Malformed(dest));
    }
    var src := Source(path, file);
    if !fs.Exists(src) {
      return Err(FileNotFound(src));
    }
    var data := fs.files[src];
    if data.Archive? && !AllInTimestampRange(data.items) {
      return Err(OutOfBoundsDatetime(src));
    }
    if !Readable(data, kind) {
      return Err(Malformed(src));
    }
    var rows := Summarize(data.items, sentiment);
    fs.Write(dest, Summary(rows));
    r := Ok(rows);
  }

  /** The rows already gathered, in front of what the rest of the run gives. */
  function Prepend(rows: seq<DayRow>, run: Outcome<seq<DayRow>>): Outcome<seq<DayRow>> {
    (if run.0.Ok? then Ok(rows + run.0.value) else run.0, run.1)
  }

  /** One turn of the loop: the first remaining file, then the rest. */
  lemma SummariesStep(files: map<string, File>, kind: Kind, path: string, names: seq<string>,
                      i: int, sentiment: string -> real)
    requires 0 <= i < |names|
    ensures var (r, m) := FileSummary(files, kind, path, names[i], sentiment);
            SummariesFrom(files, kind, path, names[i..], sentiment)
            == if r.Err? then (r, m) else Prepend(r.value, SummariesFrom(m, kind, path, names[i + 1..], sentiment))
  {
    assert names[i..][0] == names[i] && names[i..][1..] == names[i + 1..];
  }

  lemma PrependTwice(a: seq<DayRow>, b: seq<DayRow>, run: Outcome<seq<DayRow>>)
    ensures Prepend(a, Prepend(b, run)) == Prepend(a + b, run)
  {
    if run.0.Ok? {
      assert a + (b + run.0.value) == a + b + run.0.value;
    }
  }

  /** One pass of the loop: a file that raises ends the run with its error; one
      that returns adds its rows to those gathered so far. */
  lemma SummaryAdvance(before: map<string, File>, after: map<string, File>,
                       summary: Result<seq<DayRow>, Error>, allData: seq<DayRow>, kind: Kind,
                       path: string, names: seq<string>, i: int, sentiment: string -> real)
    requires 0 <= i < |names|
    requires (summary, after) == FileSummary(before, kind, path, names[i], sentiment)
    ensures summary.Err? ==> Prepend(allData, SummariesFrom(before, kind, path, names[i..], sentiment)) == (summary, after)
    ensures summary.Ok? ==> Prepend(allData, SummariesFrom(before, kind, path, names[i..], sentiment))
                            == Prepend(allData + summary.value, SummariesFrom(after, kind, path, names[i + 1..], sentiment))
  {
    SummariesStep(before, kind, path, names, i, sentiment);
    if summary.Ok? {
      PrependTwice(allData, summary.value, SummariesFrom(after, kind, path, names[i + 1..], sentiment));
    }
  }

  /** `compute_all_summary` on the file system: the loop that concatenates the
      summaries of the `.csv` entries of `listing`. */
  method ComputeAllSummary(fs: FileSystem, kind: Kind, path: string, listing: seq<string>,
                           sentiment: string -> real) returns (r: Result<seq<DayRow>, Error>)
    modifies fs
    ensures (r, fs.files) == AllSummary(old(fs.files), kind, path, listing, sentiment)
  {
    var names := CsvNames(listing);
    var allData: seq<DayRow> := [];
    var i := 0;
    assert names[i..] == names;
    ghost var start := SummariesFrom(fs.files, kind, path, names, sentiment);
    assert start.0.Ok? ==> [] + start.0.value == start.0.value;
    while i < |names|
      invariant 0 <= i <= |names|
      invariant Prepend(allData, SummariesFrom(fs.files, kind, path, names[i..], sentiment))
                == start
    {
      ghost var before := fs.files;
      var summary := ComputeFileSummary(fs, kind, path, names[i], sentiment);
      SummaryAdvance(before, fs.files, summary, allData, kind, path, names, i, sentiment);
      if summary.Err? {
        return summary;
      }
      allData := allData + summary.value;
      i := i + 1;
    }
    assert names[i..] == [];
    assert allData + [] == allData;
    r := Ok(allData);
  }

  /** `submission_path` / `comment_path`: the kind's directory of a community. */
  function KindDirectory(root: string, crypto: string, kind: Kind): string {
    Join(Join(root, crypto), KindName(kind))
  }

  /** The community's `overall_summary.csv`. */
  function OverallPath(root: string, crypto: string): string {
    Join(Join(root, crypto), "overall_summary.csv")
  }

  /** Whether `compute_all_summary` over `listing` returns a frame with a `day`
      key: it does once a summary has been concatenated to the bare
      `pd.DataFrame()` it starts from, so exactly when a `.csv` file is listed. */
  predicate HasDayKey(listing: seq<string>) {
    CsvNames(listing) != []
  }

  /** `compute_cripto_summaries(crypto_name)` under `root`, with the listings of
      the submission and comment directories given: both concatenations, then
      their join on the day, written to the overall file whether or not it
      already exists. The join raises `KeyError: 'day'` when either side has no
      `.csv` file, after both sides' cache files are written. */
  function CryptoSummaries(files: map<string, File>, root: string, crypto: string,
                           submissionListing: seq<string>, commentListing: seq<string>,
                           sentiment: string -> real): Outcome<seq<OverallRow>>
  {
    var (subs, files1) := AllSummary(files, SubmissionKind, KindDirectory(root, crypto, SubmissionKind),
                                     submissionListing, sentiment);
    if subs.Err? then (Err(subs.error), files1)
    else
      var (coms, files2) := AllSummary(files1, CommentKind, KindDirectory(root, crypto, CommentKind),
                                       commentListing, sentiment);
      if coms.Err? then (Err(coms.error), files2)
      else if !HasDayKey(submissionListing) || !HasDayKey(commentListing) then
        (Err(MissingColumn("day")), files2)
      else
        var overall := MergeOnDay(subs.value, coms.value);
        (Ok(overall), files2[OverallPath(root, crypto) := Overall(overall)])
  }

  /** The directories and the overall file of a community below the archive
      root, for a community name that is a plain path component. */
  lemma CommunityLayout(root: string, crypto: string, kind: Kind)
    requires Segment(crypto)
    ensures KindDirectory(root, crypto, kind) == Prefix(root) + crypto + "/" + KindName(kind)
    ensures OverallPath(root, crypto) == Prefix(root) + crypto + "/" + "overall_summary.csv"
  {
    assert crypto[0] in crypto;
    JoinShape(root, crypto);
    JoinAfterSegment(Prefix(root), crypto, KindName(kind));
    JoinAfterSegment(Prefix(root), crypto, "overall_summary.csv");
  }

  /** A kind's directory does not end in a separator. */
  lemma KindDirectoryEnd(root: string, crypto: string, kind: Kind)
    requires Segment(crypto)
    ensures var kd := KindDirectory(root, crypto, kind); |kd| > 0 && kd[|kd| - 1] != '/'
  {
    var kd, k := KindDirectory(root, crypto, kind), KindName(kind);
    CommunityLayout(root, crypto, kind);
    assert kd[|kd| - 1] == k[|k| - 1] && k[|k| - 1] in k;
  }

  /** The cache file of `f` under a directory that does not end in a separator. */
  lemma DestinationBelow(dir: string, f: string)
    requires |dir| > 0 && dir[|dir| - 1] != '/'
    ensures Destination(dir, f) == dir + ("/summary/summary_" + f)
  {
    DestinationShape(dir, f);
    assert Prefix(dir) == dir + "/";
  }

  /** A listed file under a directory that does not end in a separator. */
  lemma SourceBelow(dir: string, g: string)
    requires |dir| > 0 && dir[|dir| - 1] != '/'
    requires Segment(g)
    ensures Source(dir, g) == dir + ("/" + g)
  {
    assert g[0] in g;
  }

  /** A cache file of a kind's directory. */
  lemma CacheLayout(root: string, crypto: string, kind: Kind, f: string)
    requires Segment(crypto)
    ensures Destination(KindDirectory(root, crypto, kind), f)
            == Prefix(root) + crypto + "/" + (KindName(kind) + "/summary/summary_" + f)
  {
    var kd, b, k := KindDirectory(root, crypto, kind), Prefix(root) + crypto + "/", KindName(kind);
    CommunityLayout(root, crypto, kind);
    KindDirectoryEnd(root, crypto, kind);
    DestinationBelow(kd, f);
    Associate(b, k, "/summary/summary_" + f);
  }

  /** A listed archive file of a kind's directory. */
  lemma SourceLayout(root: string, crypto: string, kind: Kind, g: string)
    requires Segment(crypto) && Segment(g)
    ensures Source(KindDirectory(root, crypto, kind), g)
            == Prefix(root) + crypto + "/" + (KindName(kind) + "/" + g)
  {
    var kd, b, k := KindDirectory(root, crypto, kind), Prefix(root) + crypto + "/", KindName(kind);
    CommunityLayout(root, crypto, kind);
    KindDirectoryEnd(root, crypto, kind);
    SourceBelow(kd, g);
    Associate(b, k, "/" + g);
  }

  lemma Associate(a: string, b: string, c: string)
    ensures (a + b) + c == a + (b + c)
  {
  }

  /** The overall file is no cache file, and no cache file of the submission
      directory is a file of the comment directory. */
  lemma CommunityPathsApart(root: string, crypto: string, f: string, g: string)
    requires Segment(crypto) && Segment(g)
    ensures OverallPath(root, crypto) != Destination(KindDirectory(root, crypto, SubmissionKind), f)
    ensures OverallPath(root, crypto) != Destination(KindDirectory(root, crypto, CommentKind), f)
    ensures Destination(KindDirectory(root, crypto, SubmissionKind), f)
            != Destination(KindDirectory(root, crypto, CommentKind), g)
    ensures Destination(KindDirectory(root, crypto, SubmissionKind), f)
            != Source(KindDirectory(root, crypto, CommentKind), g)
  {
    var b := Prefix(root) + crypto + "/";
    CommunityLayout(root, crypto, SubmissionKind);
    CacheLayout(root, crypto, SubmissionKind, f);
    CacheLayout(root, crypto, CommentKind, f);
    CacheLayout(root, crypto, CommentKind, g);
    SourceLayout(root, crypto, CommentKind, g);
    var so := "overall_summary.csv";
    var sd := KindName(SubmissionKind) + "/summary/summary_" + f;
    var cd := KindName(CommentKind) + "/summary/summary_" + f;
    var cg := KindName(CommentKind) + "/summary/summary_" + g;
    var cs := KindName(CommentKind) + "/" + g;
    assert (b + so)[|b|] == 'o';
    assert (b + sd)[|b|] == 's';
    assert (b + cd)[|b|] == 'c';
    assert (b + cg)[|b|] == 'c';
    assert (b + cs)[|b|] == 'c';
  }

  /** `compute_cripto_summaries(crypto_name)` on the file system. */
  method ComputeCriptoSummaries(fs: FileSystem, root: string, crypto: string,
                                submissionListing: seq<string>, commentListing: seq<string>,
                                sentiment: string -> real) returns (r: Result<seq<OverallRow>, Error>)
    modifies fs
    ensures (r, fs.files)
            == CryptoSummaries(old(fs.files), root, crypto, submissionListing, commentListing, sentiment)
  {
    var subdirPath := Join(root, crypto);
    var allSubmissionData := ComputeAllSummary(fs, SubmissionKind, Join(subdirPath, KindName(SubmissionKind)),
                                               submissionListing, sentiment);
    if allSubmissionData.Err? {
      return Err(allSubmissionData.error);
    }
    var allCommentData := ComputeAllSummary(fs, CommentKind, Join(subdirPath, KindName(CommentKind)),
                                            commentListing, sentiment);
    if allCommentData.Err? {
      return Err(allCommentData.error);
    }
    if CsvNames(submissionListing) == [] || CsvNames(commentListing) == [] {
      return Err(MissingColumn("day"));
    }
    var allData := MergeOnDay(allSubmissionData.value, allCommentData.value);
    fs.Write(Join(subdirPath, "overall_summary.csv"), Overall(allData));
    r := Ok(allData);
  }

  /** When the community is summarized, the overall file holds the join of every
      submission file's summary with every comment file's summary, each as that
      file alone gives it, whatever the overall file held before; a day is in it
      exactly when both kinds have it. */
  lemma OverallSummaryContents(files: map<string, File>, root: string, crypto: string,
                               submissionListing: seq<string>, commentListing: seq<string>,
                               sentiment: string -> real)
    requires Segment(crypto)
    requires forall i :: 0 <= i < |submissionListing| ==> Segment(submissionListing[i])
    requires forall i :: 0 <= i < |commentListing| ==> Segment(commentListing[i])
    requires CryptoSummaries(files, root, crypto, submissionListing, commentListing, sentiment).0.Ok?
    ensures var (r, m) := CryptoSummaries(files, root, crypto, submissionListing, commentListing, sentiment);
            var subs := Collect(Standalone(files, SubmissionKind, KindDirectory(root, crypto, SubmissionKind),
                                           CsvNames(submissionListing), sentiment));
            var coms := Collect(Standalone(files, CommentKind, KindDirectory(root, crypto, CommentKind),
                                           CsvNames(commentListing), sentiment));
            && subs.Ok? && coms.Ok? && HasDayKey(submissionListing) && HasDayKey(commentListing)
            && r.value == MergeOnDay(subs.value, coms.value)
            && OverallPath(root, crypto) in m && m[OverallPath(root, crypto)] == Overall(r.value)
            && JoinedDays(r.value) == Days(subs.value) * Days(coms.value)
  {
    var subDir, comDir := KindDirectory(root, crypto, SubmissionKind), KindDirectory(root, crypto, CommentKind);
    var subNames, comNames := CsvNames(submissionListing), CsvNames(commentListing);
    var files1 := AllSummary(files, SubmissionKind, subDir, submissionListing, sentiment).1;
    AllSummaryIsConcatenation(files, SubmissionKind, subDir, submissionListing, sentiment);
    AllSummaryIsConcatenation(files1, CommentKind, comDir, commentListing, sentiment);
    SummariesFrame(files, SubmissionKind, subDir, subNames, sentiment);
    var before, after := Standalone(files, CommentKind, comDir, comNames, sentiment),
                         Standalone(files1, CommentKind, comDir, comNames, sentiment);
    forall j | 0 <= j < |comNames| ensures after[j] == before[j] {
      var g := comNames[j];
      assert g in comNames;
      forall i | 0 <= i < |subNames|
        ensures Destination(subDir, subNames[i]) != Destination(comDir, g)
        ensures Destination(subDir, subNames[i]) != Source(comDir, g)
      {
        CommunityPathsApart(root, crypto, subNames[i], g);
      }
      FileSummaryLocal(files1, files, CommentKind, comDir, g, sentiment);
    }
    assert after == before;
    var r := CryptoSummaries(files, root, crypto, submissionListing, commentListing, sentiment).0;
    var subs, coms := Collect(Standalone(files, SubmissionKind, subDir, subNames, sentiment)),
                      Collect(before);
    assert r.value == MergeOnDay(subs.value, coms.value);
    MergeDays(subs.value, coms.value);
  }

  /** Summarizing a community a second time returns the same outcome and
      leaves the same files: every summary comes back from its cache file and
      the overall file is rewritten with what it already holds. */
  lemma CryptoSummariesIdempotent(files: map<string, File>, root: string, crypto: string,
                                  submissionListing: seq<string>, commentListing: seq<string>,
                                  sentiment: string -> real)
    requires Segment(crypto)
    ensures var (r, m) := CryptoSummaries(files, root, crypto, submissionListing, commentListing, sentiment);
            CryptoSummaries(m, root, crypto, submissionListing, commentListing, sentiment) == (r, m)
  {
    var subDir, comDir := KindDirectory(root, crypto, SubmissionKind), KindDirectory(root, crypto, CommentKind);
    var subNames, comNames := CsvNames(submissionListing), CsvNames(commentListing);
    var (subs, files1) := AllSummary(files, SubmissionKind, subDir, submissionListing, sentiment);
    SummariesIdempotent(files, SubmissionKind, subDir, subNames, sentiment);
    if subs.Ok? {
      var (coms, files2) := AllSummary(files1, CommentKind, comDir, commentListing, sentiment);
      SummariesIdempotent(files1, CommentKind, comDir, comNames, sentiment);
      SummariesFrame(files1, CommentKind, comDir, comNames, sentiment);
      var ov := OverallPath(root, crypto);
      var joined := coms.Ok? && HasDayKey(submissionListing) && HasDayKey(commentListing);
      var m := if joined then files2[ov := Overall(MergeOnDay(subs.value, coms.value))] else files2;
      forall i | 0 <= i < |subNames| && Destination(subDir, subNames[i]) in files1
        ensures Destination(subDir, subNames[i]) in m
                && m[Destination(subDir, subNames[i])] == files1[Destination(subDir, subNames[i])]
      {
        CommunityPathsApart(root, crypto, subNames[i], "x");
      }
      SummariesFromCache(files, SubmissionKind, subDir, subNames, sentiment, m);
      if coms.Ok? {
        forall i | 0 <= i < |comNames| && Destination(comDir, comNames[i]) in files2
          ensures Destination(comDir, comNames[i]) in m
                  && m[Destination(comDir, comNames[i])] == files2[Destination(comDir, comNames[i])]
        {
          CommunityPathsApart(root, crypto, comNames[i], "x");
        }
        SummariesFromCache(files1, CommentKind, comDir, comNames, sentiment, m);
        if joined {
          assert m[ov := Overall(MergeOnDay(subs.value, coms.value))] == m;
        }
      }
    }
  }

  /** A side without a `.csv` file makes the join raise: the community run
      never succeeds then, and when both sides' summaries succeed the error is
      the missing `day` key. */
  lemma NoCsvFileRaises(files: map<string, File>, root: string, crypto: string,
                        submissionListing: seq<string>, commentListing: seq<string>,
                        sentiment: string -> real)
    requires !HasDayKey(submissionListing) || !HasDayKey(commentListing)
    ensures var r := CryptoSummaries(files, root, crypto, submissionListing, commentListing, sentiment).0;
            && r.Err?
            && (!HasDayKey(submissionListing) && !HasDayKey(commentListing) ==> r == Err(MissingColumn("day")))
  {
    var subDir, comDir := KindDirectory(root, crypto, SubmissionKind), KindDirectory(root, crypto, CommentKind);
    var files1 := AllSummary(files, SubmissionKind, subDir, submissionListing, sentiment).1;
    if !HasDayKey(submissionListing) {
      assert AllSummary(files, SubmissionKind, subDir, submissionListing, sentiment) == (Ok([]), files);
    }
    if !HasDayKey(commentListing) {
      assert AllSummary(files1, CommentKind, comDir, commentListing, sentiment) == (Ok([]), files1);
    }
  }

  /** A community whose summaries raise leaves its overall file as it was: only
      cache files may have been created. */
  lemma FailedSummaryKeepsOverall(files: map<string, File>, root: string, crypto: string,
                                  submissionListing: seq<string>, commentListing: seq<string>,
                                  sentiment: string -> real)
    requires Segment(crypto)
    requires CryptoSummaries(files, root, crypto, submissionListing, commentListing, sentiment).0.Err?
    ensures var m := CryptoSummaries(files, root, crypto, submissionListing, commentListing, sentiment).1;
            var ov := OverallPath(root, crypto);
            && (ov in m <==> ov in files)
            && (ov in files ==> m[ov] == files[ov])
  {
    var subDir, comDir := KindDirectory(root, crypto, SubmissionKind), KindDirectory(root, crypto, CommentKind);
    var subNames, comNames := CsvNames(submissionListing), CsvNames(commentListing);
    var files1 := AllSummary(files, SubmissionKind, subDir, submissionListing, sentiment).1;
    var files2 := AllSummary(files1, CommentKind, comDir, commentListing, sentiment).1;
    var ov := OverallPath(root, crypto);
    SummariesFrame(files, SubmissionKind, subDir, subNames, sentiment);
    SummariesFrame(files1, CommentKind, comDir, comNames, sentiment);
    forall i | 0 <= i < |subNames| ensures ov != Destination(subDir, subNames[i]) {
      CommunityPathsApart(root, crypto, subNames[i], "x");
    }
    forall i | 0 <= i < |comNames| ensures ov != Destination(comDir, comNames[i]) {
      CommunityPathsApart(root, crypto, comNames[i], "x");
    }
    assert (ov in files1 <==> ov in files) && (ov in files ==> files1[ov] == files[ov]);
    assert (ov in files2 <==> ov in files) && (ov in files ==> files2[ov] == files[ov]);
    var m := CryptoSummaries(files, root, crypto, submissionListing, commentListing, sentiment).1;
    assert m == files1 || m == files2;
  }
}
