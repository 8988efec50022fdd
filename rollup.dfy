/** The overall summary: `all_submission_data.merge(all_comment_data, on='day')`,
    an inner join on the day. Rows come in the order of the left keys; a left row
    meets every right row of its day, in right order. */
module Rollup {
  import opened Records

  /** The output rows of one left row: one per right row of the same day. */
  function Matches(s: DayRow, coms: seq<DayRow>): (r: seq<OverallRow>)
    ensures forall k :: 0 <= k < |r| ==> r[k].day == s.day && r[k].submissions == s
                                         && r[k].comments in coms && r[k].comments.day == s.day
  {
    if coms == [] then []
    else
      var rest := Matches(s, coms[1..]);
      assert forall c :: c in coms[1..] ==> c in coms;
      (if coms[0].day == s.day then [OverallRow(s.day, s, coms[0])] else []) + rest
  }

  /** The inner join, left-major. */
  function MergeOnDay(subs: seq<DayRow>, coms: seq<DayRow>): seq<OverallRow> {
    if subs == [] then [] else Matches(subs[0], coms) + MergeOnDay(subs[1..], coms)
  }

  /** How often each possible output row occurs in `Matches`: as often as its
      comment row occurs in `coms`, provided it pairs `s` with a row of its day. */
  lemma {:induction false} MatchesCount(s: DayRow, coms: seq<DayRow>, o: OverallRow)
    ensures multiset(Matches(s, coms))[o]
            == if o.day == s.day && o.submissions == s && o.comments.day == s.day
               then multiset(coms)[o.comments] else 0
  {
    if coms != [] {
      MatchesCount(s, coms[1..], o);
      assert coms == [coms[0]] + coms[1..];
    }
  }

  /** Every pair of a submission row and a comment row of the same day yields
      the output row that joins them, as many times as the pair occurs: the
      join's multiplicity is the product of the two inputs' multiplicities. */
  lemma {:induction false} MergeCount(subs: seq<DayRow>, coms: seq<DayRow>, o: OverallRow)
    ensures multiset(MergeOnDay(subs, coms))[o]
            == if o.day == o.submissions.day == o.comments.day
               then multiset(subs)[o.submissions] * multiset(coms)[o.comments] else 0
  {
    if subs != [] {
      var same := o.day == o.submissions.day == o.comments.day;
      var b := multiset(coms)[o.comments];
      var a := multiset(subs[1..])[o.submissions];
      var h := if o.submissions == subs[0] then 1 else 0;
      MergeHead(subs, coms, o);
      MergeCount(subs[1..], coms, o);
      MatchesCount(subs[0], coms, o);
      HeadCount(subs, o.submissions);
      assert multiset(Matches(subs[0], coms))[o] == if same then h * b else 0;
      Distribute(a, b);
      assert multiset(subs)[o.submissions] == a + h;
    }
  }

  /** The join's rows: those of the first left row, then those of the rest. */
  lemma MergeHead(subs: seq<DayRow>, coms: seq<DayRow>, o: OverallRow)
    requires subs != []
    ensures multiset(MergeOnDay(subs, coms))[o]
            == multiset(Matches(subs[0], coms))[o] + multiset(MergeOnDay(subs[1..], coms))[o]
  {
    var m, rest := Matches(subs[0], coms), MergeOnDay(subs[1..], coms);
    assert MergeOnDay(subs, coms) == m + rest;
    assert multiset(m + rest) == multiset(m) + multiset(rest);
  }

  /** How often `x` occurs in a non-empty sequence, by its head and its tail. */
  lemma HeadCount(rows: seq<DayRow>, x: DayRow)
    requires rows != []
    ensures multiset(rows)[x] == (if x == rows[0] then 1 else 0) + multiset(rows[1..])[x]
  {
    assert rows == [rows[0]] + rows[1..];
    assert multiset(rows) == multiset{rows[0]} + multiset(rows[1..]);
  }

  lemma Distribute(a: int, b: int)
    ensures (a + 1) * b == a * b + b
    ensures (a + 0) * b == a * b
  {
  }

  /** Every output row pairs a submission row and a comment row of its own day. */
  lemma {:induction false} MergeSound(subs: seq<DayRow>, coms: seq<DayRow>)
    ensures forall r :: r in MergeOnDay(subs, coms) ==>
              r.submissions in subs && r.comments in coms
              && r.day == r.submissions.day && r.day == r.comments.day
  {
    if subs != [] {
      MergeSound(subs[1..], coms);
      var m := Matches(subs[0], coms);
      forall r | r in m ensures r.submissions in subs && r.comments in coms
                                && r.day == r.submissions.day && r.day == r.comments.day
      {
        var k :| 0 <= k < |m| && m[k] == r;
      }
    }
  }

  /** Every same-day pair of a submission row and a comment row is joined. */
  lemma {:induction false} MergeComplete(subs: seq<DayRow>, coms: seq<DayRow>, i: int, j: int)
    requires 0 <= i < |subs| && 0 <= j < |coms| && subs[i].day == coms[j].day
    ensures OverallRow(subs[i].day, subs[i], coms[j]) in MergeOnDay(subs, coms)
  {
    assert MergeOnDay(subs, coms) == Matches(subs[0], coms) + MergeOnDay(subs[1..], coms);
    if i == 0 {
      MatchesComplete(subs[0], coms, j);
    } else {
      MergeComplete(subs[1..], coms, i - 1, j);
    }
  }

  /** A left row meets every right row of its day. */
  lemma {:induction false} MatchesComplete(s: DayRow, coms: seq<DayRow>, j: int)
    requires 0 <= j < |coms| && coms[j].day == s.day
    ensures OverallRow(s.day, s, coms[j]) in Matches(s, coms)
  {
    if j > 0 {
      MatchesComplete(s, coms[1..], j - 1);
    }
  }

  /** The days of a sequence of rows. */
  function Days(rows: seq<DayRow>): set<int> {
    set k | 0 <= k < |rows| :: rows[k].day
  }

  /** The days of the overall summary. */
  function JoinedDays(rows: seq<OverallRow>): set<int> {
    set k | 0 <= k < |rows| :: rows[k].day
  }

  /** A day appears in the overall summary exactly when both the submission
      rows and the comment rows have it. */
  lemma MergeDays(subs: seq<DayRow>, coms: seq<DayRow>)
    ensures JoinedDays(MergeOnDay(subs, coms)) == Days(subs) * Days(coms)
  {
    var out := MergeOnDay(subs, coms);
    MergeSound(subs, coms);
    forall d | d in JoinedDays(out) ensures d in Days(subs) * Days(coms) {
      var k :| 0 <= k < |out| && out[k].day == d;
      var r := out[k];
      assert r in out;
      var i :| 0 <= i < |subs| && subs[i] == r.submissions;
      var j :| 0 <= j < |coms| && coms[j] == r.comments;
    }
    forall d | d in Days(subs) * Days(coms) ensures d in JoinedDays(out) {
      var i :| 0 <= i < |subs| && subs[i].day == d;
      var j :| 0 <= j < |coms| && coms[j].day == d;
      MergeComplete(subs, coms, i, j);
      var k :| 0 <= k < |out| && out[k] == OverallRow(d, subs[i], coms[j]);
    }
  }

  /** The number of output rows is the number of same-day pairs, counted per
      submission row. */
  lemma {:induction false} MergeSize(subs: seq<DayRow>, coms: seq<DayRow>)
    ensures |MergeOnDay(subs, coms)| == PairCount(subs, coms)
  {
    if subs != [] {
      MergeSize(subs[1..], coms);
      MatchesSize(subs[0], coms);
    }
  }

  /** The number of comment rows on the day of `s`. */
  function SameDay(s: DayRow, coms: seq<DayRow>): nat {
    if coms == [] then 0 else (if coms[0].day == s.day then 1 else 0) + SameDay(s, coms[1..])
  }

  /** The same-day pairs of submission and comment rows. */
  function PairCount(subs: seq<DayRow>, coms: seq<DayRow>): nat {
    if subs == [] then 0 else SameDay(subs[0], coms) + PairCount(subs[1..], coms)
  }

  lemma {:induction false} MatchesSize(s: DayRow, coms: seq<DayRow>)
    ensures |Matches(s, coms)| == SameDay(s, coms)
  {
    if coms != [] {
      MatchesSize(s, coms[1..]);
    }
  }

  /** Submission rows for days 1 and 2 joined with comment rows for days 2 and 3
      give a single row, for day 2. */
  lemma JoinKeepsCommonDay(s1: DayRow, s2: DayRow, c2: DayRow, c3: DayRow)
    requires s1.day == 1 && s2.day == 2 && c2.day == 2 && c3.day == 3
    ensures MergeOnDay([s1, s2], [c2, c3]) == [OverallRow(2, s2, c2)]
  {
    assert [c2, c3][1..] == [c3] && [c3][1..] == [];
    assert Matches(s1, [c3]) == [];
    assert Matches(s1, [c2, c3]) == [];
    assert Matches(s2, [c3]) == [];
    assert Matches(s2, [c2, c3]) == [OverallRow(2, s2, c2)];
    assert [s1, s2][1..] == [s2] && [s2][1..] == [];
    assert MergeOnDay([s2], [c2, c3]) == [OverallRow(2, s2, c2)] + MergeOnDay([], [c2, c3]);
    assert MergeOnDay([s1, s2], [c2, c3]) == [] + MergeOnDay([s2], [c2, c3]);
  }
}
