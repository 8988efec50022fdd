/** The records both pipelines exchange through the archive directory, and the
    in-memory file system that stands for that directory. */
module Records {
  import opened Wrappers

  /** The two kinds of Reddit asset; `KindName` is the directory name and the
      search endpoint's path segment. */
  datatype Kind = SubmissionKind | CommentKind

  function KindName(k: Kind): (s: string)
    ensures |s| > 0 && '/' !in s
  {
    match k
    case SubmissionKind => "submission"
    case CommentKind => "comment"
  }

  /** One fetched record, with the columns the extraction keeps for its kind.
      Text columns may be missing; `created` is `created_utc` in Unix seconds. */
  datatype Item =
    | Submission(selftext: Option<string>, title: Option<string>, upvoteRatio: real,
                 score: int, id: string, numComments: int, created: int)
    | Comment(body: Option<string>, created: int, controversiality: int, score: int, id: string)

  /** The kind an item belongs to. */
  function KindOf(x: Item): Kind {
    match x
    case Submission(_, _, _, _, _, _, _) => SubmissionKind
    case Comment(_, _, _, _, _) => CommentKind
  }

  /** One row of a per-file daily summary. For submissions `averageExtra` is the
      mean upvote ratio, for comments the mean controversiality. */
  datatype DayRow = DayRow(day: int, count: nat, averageScore: real,
                           averageExtra: real, averageSentiment: real)

  /** One row of the overall summary: a submission row and a comment row of the same day. */
  datatype OverallRow = OverallRow(day: int, submissions: DayRow, comments: DayRow)

  /** What a file of the archive directory holds. An archive file carries the
      columns of its kind in its header, even when it has no rows. */
  datatype File =
    | Archive(kind: Kind, items: seq<Item>)
    | Summary(rows: seq<DayRow>)
    | Overall(overall: seq<OverallRow>)

  /** Things that go wrong in the preprocessing: a file that is missing or
      does not hold what is read from it, a file with a timestamp outside
      pandas' datetime range, or a frame without a column that is looked up. */
  datatype Error =
    | FileNotFound(path: string)
    | Malformed(path: string)
    | OutOfBoundsDatetime(path: string)
    | MissingColumn(name: string)

  /** The archive directory: which paths exist and what they hold. Existence of a
      path is the only signal either pipeline trusts as "already done". */
  class FileSystem {
    var files: map<string, File>

    constructor (initial: map<string, File>)
      ensures files == initial
    {
      files := initial;
    }

    /** `os.path.exists` */
    predicate Exists(path: string)
      reads this
    {
      path in files
    }

    /** Creates or overwrites one file; every other path is untouched. */
    method Write(path: string, f: File)
      modifies this
      ensures files == old(files)[path := f]
    {
      files := files[path := f];
    }
  }
}
