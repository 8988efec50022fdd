/** `get_reddit_data`: the retrying, cursor-walking page loop, driven by an
    abstract page source that stands for the Pushshift search endpoint. */
module Fetcher {
  import opened Records
  import opened Calendar

  const MaxRetries := 10
  const PageSize := 500

  /** The parameters of one search request; `index` counts the requests of one
      fetch, so that a source can fail or answer differently over time. */
  datatype Request = Request(subreddit: string, kind: Kind, after: int, before: int,
                             size: nat, index: nat)

  /** A request either fails (timeout, transport error, malformed JSON) or
      yields the `data` array of the answer. */
  datatype Response = Fail | Page(items: seq<Item>)

  /** The remote endpoint. */
  type PageSource = Request -> Response

  /** What one fetch asks for. */
  datatype Query = Query(subreddit: string, kind: Kind, window: Window)

  /** The variables of the loop: the `before` cursor, the consecutive-failure
      counter, the accumulated items, and the number of requests sent. */
  datatype LoopState = LoopState(before: int, attempts: nat, assets: seq<Item>, sent: nat)

  /** `(assets, success)` as returned; `OutOfFuel` where the source loop would
      still be running after the allotted number of requests. */
  datatype Outcome = Finished(assets: seq<Item>, success: bool) | OutOfFuel

  /** One request and its response. */
  datatype Exchange = Exchange(request: Request, response: Response)

  function Start(q: Query): LoopState {
    LoopState(q.window.end, 0, [], 0)
  }

  function RequestAt(q: Query, s: LoopState): Request {
    Request(q.subreddit, q.kind, q.window.start, s.before, PageSize, s.sent)
  }

  /** The smallest `created_utc` of a page. */
  function MinCreated(items: seq<Item>): (m: int)
    requires |items| > 0
    ensures exists i :: 0 <= i < |items| && items[i].created == m
    ensures forall i :: 0 <= i < |items| ==> m <= items[i].created
  {
    if |items| == 1 then items[0].created
    else
      var rest := MinCreated(items[1..]);
      assert forall i :: 1 <= i < |items| ==> items[i] == items[1..][i - 1];
      if items[0].created <= rest then items[0].created else rest
  }

  /** The state after a request that did not end the loop: a failure keeps the
      cursor and counts one more consecutive failure; a non-empty page is
      appended, moves the cursor below its oldest item and resets the counter. */
  function Step(s: LoopState, r: Response): (t: LoopState)
    requires !(r.Page? && r.items == [])
    ensures t.sent == s.sent + 1
  {
    match r
    case Fail => s.(attempts := s.attempts + 1, sent := s.sent + 1)
    case Page(items) => LoopState(MinCreated(items) - 1, 0, s.assets + items, s.sent + 1)
  }

  /** The loop, run from state `s` for at most `fuel` more requests. */
  function Run(src: PageSource, q: Query, maxRetries: nat, s: LoopState, fuel: nat): Outcome
    decreases fuel
  {
    if s.attempts >= maxRetries then Finished([], false)
    else if fuel == 0 then OutOfFuel
    else
      var r := src(RequestAt(q, s));
      if r.Page? && r.items == [] then Finished(s.assets, true)
      else Run(src, q, maxRetries, Step(s, r), fuel - 1)
  }

  /** The requests the loop sends from state `s`, with their responses. */
  function Trace(src: PageSource, q: Query, maxRetries: nat, s: LoopState, fuel: nat): seq<Exchange>
    decreases fuel
  {
    if s.attempts >= maxRetries || fuel == 0 then []
    else
      var r := src(RequestAt(q, s));
      if r.Page? && r.items == [] then [Exchange(RequestAt(q, s), r)]
      else [Exchange(RequestAt(q, s), r)] + Trace(src, q, maxRetries, Step(s, r), fuel - 1)
  }

  /** `get_reddit_data(subreddit, year, month, kind)`, for at most `fuel` requests. */
  method GetRedditData(src: PageSource, subreddit: string, year: int, month: int, kind: Kind,
                       utcOffset: int, fuel: nat) returns (outcome: Outcome)
    requires LimitDates(year, month, RefHour, utcOffset).Some?
    ensures outcome == Run(src, Query(subreddit, kind, LimitDates(year, month, RefHour, utcOffset).value),
                           MaxRetries, Start(Query(subreddit, kind, LimitDates(year, month, RefHour, utcOffset).value)), fuel)
  {
    var window := LimitDates(year, month, RefHour, utcOffset).value;
    var q := Query(subreddit, kind, window);
    var before := window.end;
    var assets: seq<Item> := [];
    var attempts: nat := 0;
    var sent: nat := 0;
    var left := fuel;
    while true
      invariant Run(src, q, MaxRetries, LoopState(before, attempts, assets, sent), left)
                == Run(src, q, MaxRetries, Start(q), fuel)
      decreases left
    {
      if attempts >= MaxRetries {
        break;
      }
      if left == 0 {
        return OutOfFuel;
      }
      var response := src(Request(subreddit, kind, window.start, before, PageSize, sent));
      match response {
        case Fail =>
          attempts := attempts + 1;
        case Page(data) =>
          if |data| == 0 {
            break;
          }
          assets := assets + data;
          before := MinCreated(data) - 1;
          attempts := 0;
      }
      sent := sent + 1;
      left := left - 1;
    }
    if attempts < MaxRetries {
      outcome := Finished(assets, true);
    } else {
      outcome := Finished([], false);
    }
  }

  // ---- What the loop promises, stated over its trace ----

  /** The items of the pages of a trace, in request order. */
  function PageItems(t: seq<Exchange>): seq<Item> {
    if t == [] then []
    else (if t[0].response.Page? then t[0].response.items else []) + PageItems(t[1..])
  }

  predicate HasPage(t: seq<Exchange>) {
    exists i :: 0 <= i < |t| && t[i].response.Page?
  }

  /** The number of failures at the end of a trace. */
  function TrailingFails(t: seq<Exchange>): nat {
    if t == [] || !t[|t| - 1].response.Fail? then 0 else 1 + TrailingFails(t[..|t| - 1])
  }

  /** The consecutive-failure count after the exchanges `t`, starting from `s`. */
  function Streak(s: LoopState, t: seq<Exchange>): nat {
    (if HasPage(t) then 0 else s.attempts) + TrailingFails(t)
  }

  /** The cursor of the request after `e`. */
  function NextCursor(e: Exchange): int
    requires e.response != Page([])
  {
    if e.response.Fail? then e.request.before else MinCreated(e.response.items) - 1
  }

  lemma {:induction false} TrailingFailsCons(e: Exchange, t: seq<Exchange>)
    ensures TrailingFails([e] + t)
            == TrailingFails(t) + (if !HasPage(t) && e.response.Fail? then 1 else 0)
    decreases |t|
  {
    if t != [] {
      var n := |t| - 1;
      assert ([e] + t)[..|t|] == [e] + t[..n];
      assert ([e] + t)[|t|] == t[n];
      if t[n].response.Fail? {
        TrailingFailsCons(e, t[..n]);
        assert HasPage(t) == HasPage(t[..n]) by {
          if HasPage(t) {
            var i :| 0 <= i < |t| && t[i].response.Page?;
            assert t[..n][i] == t[i];
          }
          if HasPage(t[..n]) {
            var i :| 0 <= i < n && t[..n][i].response.Page?;
            assert t[i] == t[..n][i];
          }
        }
      } else {
        assert HasPage(t);
      }
    }
  }

  /** One exchange that does not end the loop moves the streak exactly as `Step`
      moves `attempts`. */
  lemma StreakStep(s: LoopState, e: Exchange, t: seq<Exchange>)
    requires e.response != Page([])
    ensures Streak(s, [e] + t) == Streak(Step(s, e.response), t)
  {
    TrailingFailsCons(e, t);
    assert HasPage([e] + t) == (e.response.Page? || HasPage(t)) by {
      if HasPage(t) {
        var i :| 0 <= i < |t| && t[i].response.Page?;
        assert ([e] + t)[i + 1] == t[i];
      }
      if HasPage([e] + t) && !e.response.Page? {
        var i :| 0 <= i < |[e] + t| && ([e] + t)[i].response.Page?;
        assert i > 0 && t[i - 1] == ([e] + t)[i];
      }
      if e.response.Page? {
        assert ([e] + t)[0] == e;
      }
    }
  }

  /** How the loop ends, read off its trace: success exactly when the last
      response is an empty page, and then the result is every page received, in
      request order; failure with an empty result after `maxRetries`
      consecutive failures; or the request budget used up. */
  lemma {:induction false} RunEndsAsTraced(src: PageSource, q: Query, maxRetries: nat,
                                           s: LoopState, fuel: nat)
    requires s.attempts <= maxRetries
    ensures var t := Trace(src, q, maxRetries, s, fuel);
            var o := Run(src, q, maxRetries, s, fuel);
            && |t| <= fuel
            && (o.Finished? && o.success <==> |t| > 0 && t[|t| - 1].response == Page([]))
            && (o.Finished? && o.success ==> o.assets == s.assets + PageItems(t))
            && (o.Finished? && !o.success ==> o.assets == [] && Streak(s, t) == maxRetries)
            && (o.OutOfFuel? ==> |t| == fuel && Streak(s, t) < maxRetries)
    decreases fuel
  {
    var t := Trace(src, q, maxRetries, s, fuel);
    if s.attempts >= maxRetries || fuel == 0 {
      assert t == [];
    } else {
      var e := Exchange(RequestAt(q, s), src(RequestAt(q, s)));
      if e.response == Page([]) {
        assert t == [e];
        assert PageItems(t) == [] + PageItems([]);
      } else {
        var s' := Step(s, e.response);
        var t' := Trace(src, q, maxRetries, s', fuel - 1);
        assert t == [e] + t';
        RunEndsAsTraced(src, q, maxRetries, s', fuel - 1);
        StreakStep(s, e, t');
        assert t[1..] == t';
        if t' != [] {
          assert t[|t| - 1] == t'[|t'| - 1];
        }
        if e.response.Page? {
          assert s'.assets == s.assets + e.response.items;
        }
      }
    }
  }

  /** Every request is sent with fewer than `maxRetries` consecutive failures
      behind it: the counter is reset by each non-empty page. */
  lemma {:induction false} RequestsWithinRetryBudget(src: PageSource, q: Query, maxRetries: nat,
                                                     s: LoopState, fuel: nat)
    ensures forall i :: 0 <= i < |Trace(src, q, maxRetries, s, fuel)| ==>
              Streak(s, Trace(src, q, maxRetries, s, fuel)[..i]) < maxRetries
    decreases fuel
  {
    var t := Trace(src, q, maxRetries, s, fuel);
    if !(s.attempts >= maxRetries || fuel == 0) {
      var e := Exchange(RequestAt(q, s), src(RequestAt(q, s)));
      assert t[..0] == [];
      assert !HasPage([]);
      if e.response != Page([]) {
        var s' := Step(s, e.response);
        var t' := Trace(src, q, maxRetries, s', fuel - 1);
        assert t == [e] + t';
        RequestsWithinRetryBudget(src, q, maxRetries, s', fuel - 1);
        assert forall k :: 0 <= k < |t'| ==> Streak(s', t'[..k]) < maxRetries;
        forall i | 1 <= i < |t|
          ensures Streak(s, t[..i]) < maxRetries
        {
          assert t[..i] == [e] + t'[..i - 1];
          StreakStep(s, e, t'[..i - 1]);
        }
      }
    }
  }

  /** The cursor law: every request carries the query's subreddit, kind and
      window start, the page size and its own number; the first uses the
      starting cursor; after a failure the next request repeats the cursor, and
      after a non-empty page it moves to one second before the page's oldest
      item. Only the last response can be an empty page. */
  lemma {:induction false} CursorLaw(src: PageSource, q: Query, maxRetries: nat,
                                     s: LoopState, fuel: nat)
    ensures var t := Trace(src, q, maxRetries, s, fuel);
            && (|t| > 0 ==> t[0].request.before == s.before)
            && (forall i :: 0 <= i < |t| ==>
                  && t[i].response == src(t[i].request)
                  && t[i].request.subreddit == q.subreddit && t[i].request.kind == q.kind
                  && t[i].request.after == q.window.start && t[i].request.size == PageSize
                  && t[i].request.index == s.sent + i)
            && (forall i :: 0 <= i < |t| - 1 ==>
                  t[i].response != Page([]) && t[i + 1].request.before == NextCursor(t[i]))
    decreases fuel
  {
    var t := Trace(src, q, maxRetries, s, fuel);
    if !(s.attempts >= maxRetries || fuel == 0) {
      var e := Exchange(RequestAt(q, s), src(RequestAt(q, s)));
      if e.response != Page([]) {
        var s' := Step(s, e.response);
        var t' := Trace(src, q, maxRetries, s', fuel - 1);
        assert t == [e] + t';
        CursorLaw(src, q, maxRetries, s', fuel - 1);
        forall i | 1 <= i < |t|
          ensures t[i] == t'[i - 1]
        {
        }
      }
    }
  }

  /** A source that never returns an item newer than the requested cursor. */
  ghost predicate HonestBefore(src: PageSource) {
    forall r: Request :: src(r).Page? ==> forall x :: x in src(r).items ==> x.created <= r.before
  }

  /** A source whose items always lie within the requested bounds. */
  ghost predicate HonestWindow(src: PageSource) {
    forall r: Request :: src(r).Page? ==>
      forall x :: x in src(r).items ==> r.after <= x.created <= r.before
  }

  /** Under `HonestBefore`, cursors never move forward. */
  lemma {:induction false} CursorsDescend(src: PageSource, t: seq<Exchange>, i: nat, j: nat)
    requires HonestBefore(src)
    requires forall k :: 0 <= k < |t| ==> t[k].response == src(t[k].request)
    requires forall k :: 0 <= k < |t| - 1 ==>
               t[k].response != Page([]) && t[k + 1].request.before == NextCursor(t[k])
    requires i <= j < |t|
    ensures t[j].request.before <= t[i].request.before
    decreases j - i
  {
    if i < j {
      CursorsDescend(src, t, i + 1, j);
      var e := t[i];
      if e.response.Page? {
        var m := MinCreated(e.response.items);
        var k :| 0 <= k < |e.response.items| && e.response.items[k].created == m;
        assert e.response.items[k] in src(e.request).items;
      }
    }
  }

  /** With a source that honours the cursor, every item of a later page is
      strictly older than every item of an earlier page, so no item is fetched
      twice. */
  lemma PagesStrictlyOlder(src: PageSource, q: Query, maxRetries: nat, s: LoopState, fuel: nat)
    requires HonestBefore(src)
    ensures var t := Trace(src, q, maxRetries, s, fuel);
            forall i, j, x, y ::
              (0 <= i < j < |t| && t[i].response.Page? && t[j].response.Page?
               && x in t[j].response.items && y in t[i].response.items) ==> x.created < y.created
  {
    var t := Trace(src, q, maxRetries, s, fuel);
    CursorLaw(src, q, maxRetries, s, fuel);
    forall i, j, x, y | 0 <= i < j < |t| && t[i].response.Page? && t[j].response.Page?
        && x in t[j].response.items && y in t[i].response.items
      ensures x.created < y.created
    {
      CursorsDescend(src, t, i + 1, j);
      assert x in src(t[j].request).items;
      var ys := t[i].response.items;
      var k :| 0 <= k < |ys| && ys[k] == y;
      assert MinCreated(ys) <= ys[k].created;
    }
  }

  lemma MulMono(a: int, b: int, c: nat)
    requires a <= b
    ensures a * c <= b * c
  {
  }

  /** Lowering the cursor by at least one lowers the request budget by a whole
      retry round. */
  lemma BudgetDrop(b': int, b: int, n: nat)
    requires b' <= b - 1
    ensures b' * n <= b * n - n
  {
    MulMono(b', b - 1, n);
    assert (b - 1) * n == b * n - n;
  }

  /** The loop has no lower-bound guard of its own; it stops because the source
      eventually answers with an empty page. With a source that keeps to the
      requested bounds this happens within
      `(before - after + 2) * (maxRetries + 1)` requests. */
  lemma {:induction false} HonestSourceTerminates(src: PageSource, q: Query, maxRetries: nat,
                                                  s: LoopState, fuel: nat)
    requires HonestWindow(src)
    requires s.before >= q.window.start - 1 && s.attempts <= maxRetries
    requires fuel >= (s.before - q.window.start + 2) * (maxRetries + 1) - s.attempts
    ensures Run(src, q, maxRetries, s, fuel) != OutOfFuel
    decreases fuel
  {
    var a := q.window.start;
    var n := maxRetries + 1;
    var b := s.before - a + 2;
    if s.attempts < maxRetries {
      MulMono(1, b, n);
      assert fuel > 0;
      var r := src(RequestAt(q, s));
      if r == Fail {
        var s' := Step(s, r);
        assert s'.before == s.before && s'.attempts == s.attempts + 1;
        HonestSourceTerminates(src, q, maxRetries, s', fuel - 1);
      } else if r.items != [] {
        var m := MinCreated(r.items);
        var k :| 0 <= k < |r.items| && r.items[k].created == m;
        assert r.items[k] in src(RequestAt(q, s)).items;
        assert a <= m <= s.before;
        var s' := Step(s, r);
        assert s'.before == m - 1 && s'.attempts == 0;
        BudgetDrop(m - 1 - a + 2, b, n);
        HonestSourceTerminates(src, q, maxRetries, s', fuel - 1);
      }
    }
  }

  /** A source that always fails: the fetch fails after exactly `maxRetries`
      requests (counting from a fresh counter). */
  lemma {:induction false} RetryExhaustion(src: PageSource, q: Query, maxRetries: nat,
                                           s: LoopState, fuel: nat)
    requires forall r :: src(r) == Fail
    requires s.attempts <= maxRetries && fuel >= maxRetries - s.attempts
    ensures Run(src, q, maxRetries, s, fuel) == Finished([], false)
    ensures |Trace(src, q, maxRetries, s, fuel)| == maxRetries - s.attempts
    decreases fuel
  {
    if s.attempts < maxRetries {
      assert src(RequestAt(q, s)) == Fail;
      RetryExhaustion(src, q, maxRetries, Step(s, Fail), fuel - 1);
    }
  }

  /** Two non-empty pages and then an empty one: three requests, with cursors
      `end`, `min(p1) - 1` and `min(p2) - 1`, and the two pages as the result. */
  lemma TwoPagesThenEmpty(src: PageSource, q: Query, maxRetries: nat, p1: seq<Item>,
                          p2: seq<Item>, fuel: nat)
    requires maxRetries >= 1 && fuel >= 3 && |p1| > 0 && |p2| > 0
    requires src(RequestAt(q, Start(q))) == Page(p1)
    requires src(Request(q.subreddit, q.kind, q.window.start, MinCreated(p1) - 1, PageSize, 1)) == Page(p2)
    requires src(Request(q.subreddit, q.kind, q.window.start, MinCreated(p2) - 1, PageSize, 2)) == Page([])
    ensures Run(src, q, maxRetries, Start(q), fuel) == Finished(p1 + p2, true)
    ensures var t := Trace(src, q, maxRetries, Start(q), fuel);
            && |t| == 3
            && t[0].request.before == q.window.end
            && t[1].request.before == MinCreated(p1) - 1
            && t[2].request.before == MinCreated(p2) - 1
  {
    var s0 := Start(q);
    var s1 := Step(s0, Page(p1));
    var s2 := Step(s1, Page(p2));
    assert RequestAt(q, s1) == Request(q.subreddit, q.kind, q.window.start, MinCreated(p1) - 1, PageSize, 1);
    assert RequestAt(q, s2) == Request(q.subreddit, q.kind, q.window.start, MinCreated(p2) - 1, PageSize, 2);
    assert s2.assets == p1 + p2;
    assert Run(src, q, maxRetries, s2, fuel - 2) == Finished(p1 + p2, true);
    assert Run(src, q, maxRetries, s1, fuel - 1) == Run(src, q, maxRetries, s2, fuel - 2);
    assert Run(src, q, maxRetries, s0, fuel) == Run(src, q, maxRetries, s1, fuel - 1);
    var t2 := Trace(src, q, maxRetries, s2, fuel - 2);
    assert t2 == [Exchange(RequestAt(q, s2), Page([]))];
    var t1 := Trace(src, q, maxRetries, s1, fuel - 1);
    assert t1 == [Exchange(RequestAt(q, s1), Page(p2))] + t2;
    assert Trace(src, q, maxRetries, s0, fuel) == [Exchange(RequestAt(q, s0), Page(p1))] + t1;
  }
}
