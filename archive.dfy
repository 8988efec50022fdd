/** The archive store of the extraction: one file per (subreddit, kind, year,
    month), whose mere existence marks the unit as done. */
module Archive {
  import opened Records
  import opened Paths
  import opened Calendar
  import opened Fetcher

  /** `f"{year}_{month}.csv"` */
  function FileName(year: int, month: int): string {
    IntToString(year) + "_" + IntToString(month) + ".csv"
  }

  /** `get_file_path(subreddit, year, month, kind)` under the archive root. */
  function FilePath(root: string, subreddit: string, kind: Kind, year: int, month: int): string {
    Join(Join(Join(root, subreddit), KindName(kind)), FileName(year, month))
  }

  /** `already_computed`: the file exists, whatever it holds. */
  predicate AlreadyComputed(files: map<string, File>, root: string, subreddit: string,
                            kind: Kind, year: int, month: int)
  {
    FilePath(root, subreddit, kind, year, month) in files
  }

  /** The query `get_reddit_data` sends for one unit. */
  function QueryFor(subreddit: string, kind: Kind, year: int, month: int, utcOffset: int): Query
    requires LimitDates(year, month, RefHour, utcOffset).Some?
  {
    Query(subreddit, kind, LimitDates(year, month, RefHour, utcOffset).value)
  }

  /** The files after `save_reddit_submissions` / `save_reddit_comments` for one
      unit, and whether the call returned: false where `get_limit_dates` raises
      (reached only when the unit's file is missing) or where the fetch would
      still be running. `writeOk` says whether writing a path succeeds. */
  function SaveUnit(files: map<string, File>, root: string, subreddit: string, kind: Kind,
                    year: int, month: int, utcOffset: int, src: PageSource, fuel: nat,
                    writeOk: string -> bool): (map<string, File>, bool)
  {
    var path := FilePath(root, subreddit, kind, year, month);
    if path in files then (files, true)
    else if LimitDates(year, month, RefHour, utcOffset).None? then (files, false)
    else
      var q := QueryFor(subreddit, kind, year, month, utcOffset);
      match Run(src, q, MaxRetries, Start(q), fuel)
      case OutOfFuel => (files, false)
      case Finished(items, success) =>
        if !success then (files, true)
        else if writeOk(path) then (files[path := Archive(kind, items)], true)
        else (files, true)
  }

  /** The file name of every unit passes the `.csv` filter of the preprocessing. */
  lemma FileNameIsCsv(year: int, month: int)
    ensures var n := FileName(year, month); |n| >= 4 && n[|n| - 4..] == ".csv"
  {
  }

  lemma FileNameSegment(year: int, month: int)
    ensures Segment(FileName(year, month))
    ensures '_' !in IntToString(month) + ".csv"
  {
    var y, m := IntToString(year), IntToString(month);
    assert FileName(year, month) == y + "_" + m + ".csv";
    assert forall i :: 0 <= i < |y| ==> y[i] != '/';
    assert forall i :: 0 <= i < |m| ==> m[i] != '/' && m[i] != '_';
  }

  /** The shape of a unit's path below the archive root. */
  lemma FilePathShape(root: string, subreddit: string, kind: Kind, year: int, month: int)
    requires Segment(subreddit)
    ensures FilePath(root, subreddit, kind, year, month)
            == (Prefix(root) + subreddit + "/" + KindName(kind)) + "/" + FileName(year, month)
  {
    FileNameSegment(year, month);
    JoinAfterSegment(Prefix(root), subreddit, KindName(kind));
    JoinAfterSegment(Prefix(root) + subreddit + "/", KindName(kind), FileName(year, month));
  }

  /** Distinct months have distinct file names. */
  lemma FileNameInjective(y1: int, m1: int, y2: int, m2: int)
    requires FileName(y1, m1) == FileName(y2, m2)
    ensures y1 == y2 && m1 == m2
  {
    FileNameSegment(y1, m1);
    FileNameSegment(y2, m2);
    var a1, a2 := IntToString(m1) + ".csv", IntToString(m2) + ".csv";
    assert FileName(y1, m1) == IntToString(y1) + ['_'] + a1;
    assert FileName(y2, m2) == IntToString(y2) + ['_'] + a2;
    SplitAtLast(IntToString(y1), a1, IntToString(y2), a2, '_');
    CancelSuffix(IntToString(m1), IntToString(m2), ".csv");
    IntToStringInjective(y1, y2);
    IntToStringInjective(m1, m2);
  }

  /** Distinct units have distinct files (for subreddit names that are plain path
      components): the existence gate of one unit never answers for another. */
  lemma FilePathInjective(root: string, s1: string, k1: Kind, y1: int, m1: int,
                          s2: string, k2: Kind, y2: int, m2: int)
    requires Segment(s1) && Segment(s2)
    requires FilePath(root, s1, k1, y1, m1) == FilePath(root, s2, k2, y2, m2)
    ensures s1 == s2 && k1 == k2 && y1 == y2 && m1 == m2
  {
    var p := Prefix(root);
    var f1, f2 := FileName(y1, m1), FileName(y2, m2);
    FileNameSegment(y1, m1);
    FileNameSegment(y2, m2);
    FilePathShape(root, s1, k1, y1, m1);
    FilePathShape(root, s2, k2, y2, m2);
    SplitAtLast(p + s1 + "/" + KindName(k1), f1, p + s2 + "/" + KindName(k2), f2, '/');
    SplitAtLast(p + s1, KindName(k1), p + s2, KindName(k2), '/');
    CancelPrefix(p, s1, s2);
    assert k1 == k2;
    FileNameInjective(y1, m1, y2, m2);
  }

  /** The existence gate: a unit whose file exists, empty or not, is left as it
      is, returns at once, and the answer does not depend on the remote source
      at all (nothing is fetched). */
  lemma ExistingFileIsDone(files: map<string, File>, root: string, subreddit: string,
                           kind: Kind, year: int, month: int, utcOffset: int,
                           src1: PageSource, src2: PageSource, fuel1: nat, fuel2: nat,
                           writeOk: string -> bool)
    requires AlreadyComputed(files, root, subreddit, kind, year, month)
    ensures SaveUnit(files, root, subreddit, kind, year, month, utcOffset, src1, fuel1, writeOk)
            == (files, true)
    ensures SaveUnit(files, root, subreddit, kind, year, month, utcOffset, src1, fuel1, writeOk)
            == SaveUnit(files, root, subreddit, kind, year, month, utcOffset, src2, fuel2, writeOk)
  {
  }

  /** A unit only ever creates its own file: every other path keeps its
      content, and an existing file is never overwritten. */
  lemma SaveUnitFrame(files: map<string, File>, root: string, subreddit: string,
                      kind: Kind, year: int, month: int, utcOffset: int,
                      src: PageSource, fuel: nat, writeOk: string -> bool)
    ensures var r := SaveUnit(files, root, subreddit, kind, year, month, utcOffset, src, fuel, writeOk).0;
            && files.Keys <= r.Keys <= files.Keys + {FilePath(root, subreddit, kind, year, month)}
            && forall p :: p in files ==> r[p] == files[p]
  {
    var path := FilePath(root, subreddit, kind, year, month);
    var r := SaveUnit(files, root, subreddit, kind, year, month, utcOffset, src, fuel, writeOk).0;
    if path in files || LimitDates(year, month, RefHour, utcOffset).None? {
      assert r == files;
    } else {
      var q := QueryFor(subreddit, kind, year, month, utcOffset);
      var o := Run(src, q, MaxRetries, Start(q), fuel);
      if o.Finished? && o.success && writeOk(path) {
        assert r == files[path := Archive(kind, o.assets)];
      } else {
        assert r == files;
      }
    }
  }

  /** A missing unit of a month `get_limit_dates` rejects raises before
      anything is fetched: nothing is written and the run does not go on. */
  lemma WindowlessUnitRaises(files: map<string, File>, root: string, subreddit: string,
                              kind: Kind, year: int, month: int, utcOffset: int,
                              src: PageSource, fuel: nat, writeOk: string -> bool)
    requires !AlreadyComputed(files, root, subreddit, kind, year, month)
    requires LimitDates(year, month, RefHour, utcOffset).None?
    ensures SaveUnit(files, root, subreddit, kind, year, month, utcOffset, src, fuel, writeOk) == (files, false)
  {
  }

  /** A fetch that fails, or is still running, writes nothing. */
  lemma FailedFetchWritesNothing(files: map<string, File>, root: string, subreddit: string,
                                 kind: Kind, year: int, month: int, utcOffset: int,
                                 src: PageSource, fuel: nat, writeOk: string -> bool)
    requires LimitDates(year, month, RefHour, utcOffset).Some?
    requires var q := QueryFor(subreddit, kind, year, month, utcOffset);
             !Run(src, q, MaxRetries, Start(q), fuel).Finished?
             || !Run(src, q, MaxRetries, Start(q), fuel).success
    ensures SaveUnit(files, root, subreddit, kind, year, month, utcOffset, src, fuel, writeOk).0 == files
  {
  }

  /** A unit that is missing, fetched successfully and written holds exactly the
      items of every page received, in request order. */
  lemma SavedFileHoldsAllPages(files: map<string, File>, root: string, subreddit: string,
                               kind: Kind, year: int, month: int, utcOffset: int,
                               src: PageSource, fuel: nat, writeOk: string -> bool)
    requires LimitDates(year, month, RefHour, utcOffset).Some?
    requires !AlreadyComputed(files, root, subreddit, kind, year, month)
    requires writeOk(FilePath(root, subreddit, kind, year, month))
    requires var q := QueryFor(subreddit, kind, year, month, utcOffset);
             Run(src, q, MaxRetries, Start(q), fuel).Finished?
             && Run(src, q, MaxRetries, Start(q), fuel).success
    ensures var q := QueryFor(subreddit, kind, year, month, utcOffset);
            SaveUnit(files, root, subreddit, kind, year, month, utcOffset, src, fuel, writeOk)
            == (files[FilePath(root, subreddit, kind, year, month)
                      := Archive(kind, PageItems(Trace(src, q, MaxRetries, Start(q), fuel)))], true)
  {
    var q := QueryFor(subreddit, kind, year, month, utcOffset);
    var o := Run(src, q, MaxRetries, Start(q), fuel);
    RunEndsAsTraced(src, q, MaxRetries, Start(q), fuel);
    assert o.assets == PageItems(Trace(src, q, MaxRetries, Start(q), fuel));
  }

  /** `save_reddit_data`: creates the file of the unit holding `items`, or,
      when the write fails, leaves the files as they were. */
  method SaveRedditData(fs: FileSystem, root: string, subreddit: string, year: int, month: int,
                        items: seq<Item>, kind: Kind, writeOk: string -> bool)
    modifies fs
    ensures var path := FilePath(root, subreddit, kind, year, month);
            fs.files == if writeOk(path) then old(fs.files)[path := Archive(kind, items)] else old(fs.files)
  {
    var path := FilePath(root, subreddit, kind, year, month);
    if writeOk(path) {
      fs.Write(path, Archive(kind, items));
    }
  }

  /** The body shared by `save_reddit_submissions` and `save_reddit_comments`. */
  method SaveRedditAssets(fs: FileSystem, root: string, subreddit: string, kind: Kind,
                          year: int, month: int, utcOffset: int, src: PageSource, fuel: nat,
                          writeOk: string -> bool) returns (returned: bool)
    modifies fs
    ensures (fs.files, returned)
            == SaveUnit(old(fs.files), root, subreddit, kind, year, month, utcOffset, src, fuel, writeOk)
  {
    if fs.Exists(FilePath(root, subreddit, kind, year, month)) {
      return true;
    }
    if LimitDates(year, month, RefHour, utcOffset).None? {
      // `get_reddit_data` raises in `get_limit_dates`
      return false;
    }
    var outcome := GetRedditData(src, subreddit, year, month, kind, utcOffset, fuel);
    if outcome.OutOfFuel? {
      return false;
    }
    if !outcome.success {
      return true;
    }
    SaveRedditData(fs, root, subreddit, year, month, outcome.assets, kind, writeOk);
    returned := true;
  }

  /** `save_reddit_submissions(subreddit, year, month)` */
  method SaveRedditSubmissions(fs: FileSystem, root: string, subreddit: string, year: int,
                               month: int, utcOffset: int, src: PageSource, fuel: nat,
                               writeOk: string -> bool) returns (returned: bool)
    modifies fs
    ensures (fs.files, returned) == SaveUnit(old(fs.files), root, subreddit, SubmissionKind,
                                             year, month, utcOffset, src, fuel, writeOk)
  {
    returned := SaveRedditAssets(fs, root, subreddit, SubmissionKind, year, month, utcOffset, src, fuel, writeOk);
  }

  /** `save_reddit_comments(subreddit, year, month)` */
  method SaveRedditComments(fs: FileSystem, root: string, subreddit: string, year: int,
                            month: int, utcOffset: int, src: PageSource, fuel: nat,
                            writeOk: string -> bool) returns (returned: bool)
    modifies fs
    ensures (fs.files, returned) == SaveUnit(old(fs.files), root, subreddit, CommentKind,
                                             year, month, utcOffset, src, fuel, writeOk)
  {
    returned := SaveRedditAssets(fs, root, subreddit, CommentKind, year, month, utcOffset, src, fuel, writeOk);
  }
}
