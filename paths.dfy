/** Path building as both scripts do it: POSIX `os.path.join` of two components
    and Python's `str` of an integer inside an f-string. */
module Paths {

  /** A single path component: non-empty and free of the separator. */
  predicate Segment(s: string) {
    |s| > 0 && '/' !in s
  }

  /** What `os.path.join(a, b)` puts in front of a relative `b`. */
  function Prefix(a: string): string {
    if |a| == 0 || a[|a| - 1] == '/' then a else a + "/"
  }

  /** POSIX `os.path.join(a, b)`: an absolute `b` replaces `a`; otherwise a
      separator is inserted unless `a` is empty or already ends with one. */
  function Join(a: string, b: string): string {
    if |b| > 0 && b[0] == '/' then b
    else if |a| == 0 || a[|a| - 1] == '/' then a + b
    else a + "/" + b
  }

  /** `b` always ends the joined path; a relative `b` is appended to `a`'s prefix. */
  lemma JoinShape(a: string, b: string)
    ensures |Join(a, b)| >= |b| && Join(a, b)[|Join(a, b)| - |b|..] == b
    ensures !(|b| > 0 && b[0] == '/') ==> Join(a, b) == Prefix(a) + b
  {
  }

  /** Joining onto a path that ends in a segment inserts exactly one separator. */
  lemma JoinAfterSegment(p: string, s: string, b: string)
    requires Segment(s) && Segment(b)
    ensures Join(p + s, b) == p + s + "/" + b
  {
    assert (p + s)[|p + s| - 1] == s[|s| - 1];
    assert s[|s| - 1] in s;
  }

  /** Two strings ending in `c` followed by a `c`-free tail split at that last `c`
      the same way. */
  lemma SplitAtLast(a: string, x: string, b: string, y: string, c: char)
    requires c !in x && c !in y
    requires a + [c] + x == b + [c] + y
    ensures a == b && x == y
  {
    var l := a + [c] + x;
    var r := b + [c] + y;
    assert |l| == |a| + 1 + |x| && |r| == |b| + 1 + |y|;
    if |x| < |y| {
      TailIndex(b, c, y, |a|);
      assert false;
    } else if |y| < |x| {
      TailIndex(a, c, x, |b|);
      assert false;
    }
    assert a == l[..|a|] && b == r[..|b|];
    assert x == l[|a| + 1..] && y == r[|b| + 1..];
  }

  /** A position past `b + [c]` falls in the tail. */
  lemma TailIndex(b: string, c: char, y: string, k: int)
    requires |b| < k < |b| + 1 + |y|
    ensures (b + [c] + y)[k] == y[k - |b| - 1] && y[k - |b| - 1] in y
  {
  }

  /** Equal strings with the same suffix have the same rest. */
  lemma CancelSuffix(a: string, b: string, t: string)
    requires a + t == b + t
    ensures a == b
  {
    assert a == (a + t)[..|a|];
    assert b == (b + t)[..|b|];
  }

  /** Equal strings with the same prefix have the same rest. */
  lemma CancelPrefix(p: string, a: string, b: string)
    requires p + a == p + b
    ensures a == b
  {
    assert a == (p + a)[|p|..];
    assert b == (p + b)[|p|..];
  }

  /** Decimal digit character. */
  function Digit(d: nat): (c: char)
    requires d < 10
    ensures '0' <= c <= '9'
    ensures c as int - '0' as int == d
  {
    (d + '0' as int) as char
  }

  /** Python's `str(n)` for a natural number. */
  function NatToString(n: nat): (s: string)
    ensures |s| >= 1
    ensures n >= 10 ==> |s| >= 2
    ensures forall i :: 0 <= i < |s| ==> '0' <= s[i] <= '9'
    decreases n
  {
    if n < 10 then [Digit(n)] else NatToString(n / 10) + [Digit(n % 10)]
  }

  /** Python's `str(i)` for an integer: a minus sign before the digits of `-i`. */
  function IntToString(i: int): (s: string)
    ensures |s| >= 1
    ensures forall k :: 0 <= k < |s| ==> s[k] == '-' || '0' <= s[k] <= '9'
    ensures i < 0 <==> s[0] == '-'
  {
    if i < 0 then "-" + NatToString(-i) else NatToString(i)
  }

  /** No two natural numbers print the same. */
  lemma {:induction false} NatToStringInjective(a: nat, b: nat)
    requires NatToString(a) == NatToString(b)
    ensures a == b
    decreases a
  {
    if a >= 10 && b >= 10 {
      var sa, sb := NatToString(a / 10), NatToString(b / 10);
      assert NatToString(a) == sa + [Digit(a % 10)];
      assert NatToString(b) == sb + [Digit(b % 10)];
      assert Digit(a % 10) == NatToString(a)[|NatToString(a)| - 1];
      assert Digit(b % 10) == NatToString(b)[|NatToString(b)| - 1];
      assert a % 10 == b % 10;
      CancelSuffix(sa, sb, [Digit(a % 10)]);
      NatToStringInjective(a / 10, b / 10);
    }
  }

  /** No two integers print the same. */
  lemma IntToStringInjective(a: int, b: int)
    requires IntToString(a) == IntToString(b)
    ensures a == b
  {
    if a < 0 {
      CancelPrefix("-", NatToString(-a), NatToString(-b));
      NatToStringInjective(-a, -b);
    } else {
      NatToStringInjective(a, b);
    }
  }
}
