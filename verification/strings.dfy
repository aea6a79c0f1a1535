/**
 * The parts of Go's `strings` package, and of Go's built-in ordering on
 * strings, that the response comparator relies on.  A Go string is a
 * sequence of bytes; here every byte is one `char`, so the byte-wise
 * comparisons of Go become comparisons of character codes.
 */
module GoStrings {

  /** `sep` starts at position `i` of `s`. */
  predicate OccursAt(s: string, sep: string, i: int) {
    0 <= i && i + |sep| <= |s| && s[i..i + |sep|] == sep
  }

  /** `sep` occurs somewhere in `s`. */
  predicate Contains(s: string, sep: string) {
    exists i :: 0 <= i <= |s| && OccursAt(s, sep, i)
  }

  /** The first position at or after `k` where `sep` occurs, or -1. */
  function IndexFrom(s: string, sep: string, k: nat): (r: int)
    requires k <= |s|
    ensures r == -1 || (k <= r && OccursAt(s, sep, r))
    ensures forall j :: k <= j && (r == -1 || j < r) ==> !OccursAt(s, sep, j)
    decreases |s| - k
  {
    if OccursAt(s, sep, k) then k
    else if k + |sep| >= |s| then -1
    else IndexFrom(s, sep, k + 1)
  }

  /** strings.Index: the position of the first occurrence of `sep` in `s`, or -1. */
  function Index(s: string, sep: string): (r: int)
    ensures r == -1 <==> !Contains(s, sep)
    ensures r != -1 ==> OccursAt(s, sep, r) && forall j :: 0 <= j < r ==> !OccursAt(s, sep, j)
  {
    IndexFrom(s, sep, 0)
  }

  /**
   * strings.SplitN for a non-empty separator: `n == 0` gives no pieces,
   * `n < 0` splits at every occurrence, and `n > 0` gives at most `n`
   * pieces, the last of which is the unsplit remainder.
   */
  function SplitN(s: string, sep: string, n: int): (parts: seq<string>)
    requires |sep| > 0
    ensures n != 0 <==> |parts| >= 1
    ensures n > 0 ==> |parts| <= n
    decreases |s|
  {
    if n == 0 then []
    else
      var i := Index(s, sep);
      if n == 1 || i < 0 then [s]
      else [s[..i]] + SplitN(s[i + |sep|..], sep, if n > 0 then n - 1 else n)
  }

  /** strings.Split: every occurrence of a non-empty `sep` separates two pieces. */
  function Split(s: string, sep: string): (parts: seq<string>)
    requires |sep| > 0
    ensures |parts| >= 1
  {
    SplitN(s, sep, -1)
  }

  /** strings.Join: the pieces with `sep` between each adjacent pair. */
  function Join(parts: seq<string>, sep: string): string {
    if |parts| == 0 then ""
    else if |parts| == 1 then parts[0]
    else parts[0] + sep + Join(parts[1..], sep)
  }

  /** Splitting in two at the first occurrence: the head precedes it and the tail follows it. */
  lemma SplitNTwo(s: string, sep: string)
    requires |sep| > 0
    ensures var i := Index(s, sep);
            SplitN(s, sep, 2) == if i < 0 then [s] else [s[..i], s[i + |sep|..]]
  {
    var i := Index(s, sep);
    if i >= 0 {
      assert SplitN(s[i + |sep|..], sep, 1) == [s[i + |sep|..]];
    }
  }

  /** Joining the pieces of a split with the same separator gives back the string. */
  lemma {:induction false} JoinSplit(s: string, sep: string)
    requires |sep| > 0
    ensures Join(Split(s, sep), sep) == s
    decreases |s|
  {
    var i := Index(s, sep);
    if i >= 0 {
      var rest := s[i + |sep|..];
      JoinSplit(rest, sep);
      assert Split(s, sep) == [s[..i]] + Split(rest, sep);
      assert s == s[..i] + sep + rest by {
        assert s[i..i + |sep|] == sep;
        assert s == s[..i] + s[i..i + |sep|] + s[i + |sep|..];
      }
    }
  }

  /** No piece of a split contains the separator. */
  lemma {:induction false} SplitPiecesFree(s: string, sep: string)
    requires |sep| > 0
    ensures forall p :: p in Split(s, sep) ==> !Contains(p, sep)
    decreases |s|
  {
    var i := Index(s, sep);
    if i >= 0 {
      var rest := s[i + |sep|..];
      SplitPiecesFree(rest, sep);
      var head := s[..i];
      forall j | 0 <= j <= |head| ensures !OccursAt(head, sep, j) {
        if j + |sep| <= |head| {
          assert head[j..j + |sep|] == s[j..j + |sep|];
          assert !OccursAt(s, sep, j);
        }
      }
      assert Split(s, sep) == [head] + Split(rest, sep);
    }
  }

  /** An occurrence in `p + r` past the end of `p` is an occurrence in `r`. */
  lemma OccursAfter(p: string, r: string, sep: string, k: int)
    requires k >= 0
    ensures OccursAt(p + r, sep, |p| + k) <==> OccursAt(r, sep, k)
  {
    if k + |sep| <= |r| {
      assert (p + r)[|p| + k..|p| + k + |sep|] == r[k..k + |sep|];
    }
  }

  /** A position where `sep` occurs, with none before it, is what Index returns. */
  lemma IndexIs(s: string, sep: string, k: int)
    requires OccursAt(s, sep, k)
    requires forall j :: 0 <= j < k ==> !OccursAt(s, sep, j)
    ensures Index(s, sep) == k
  {
    assert Contains(s, sep);
  }

  /**
   * Splitting pieces joined by a two-character separator with distinct
   * characters (such as CR LF) gives the pieces back, provided none of
   * them contains the separator.
   */
  lemma {:induction false} SplitJoin(parts: seq<string>, sep: string)
    requires |sep| == 2 && sep[0] != sep[1]
    requires |parts| >= 1
    requires forall p :: p in parts ==> !Contains(p, sep)
    ensures Split(Join(parts, sep), sep) == parts
    decreases |parts|
  {
    var p := parts[0];
    assert !Contains(p, sep) by { assert p in parts; }
    if |parts| == 1 {
      assert Index(p, sep) == -1;
    } else {
      var rest := Join(parts[1..], sep);
      var s := p + sep + rest;
      assert s[|p|..|p| + 2] == sep;
      forall j | 0 <= j < |p| ensures !OccursAt(s, sep, j) {
        if j + 2 <= |p| {
          assert s[j..j + 2] == p[j..j + 2];
          assert !OccursAt(p, sep, j);
        } else {
          assert s[j + 1] == sep[0];
        }
      }
      IndexIs(s, sep, |p|);
      assert s[..|p|] == p && s[|p| + 2..] == rest;
      SplitJoin(parts[1..], sep);
      assert Split(s, sep) == [p] + Split(rest, sep);
    }
  }

  /**
   * Go's `a < b` on strings: byte-wise lexicographic order, where a proper
   * prefix is smaller than the longer string.
   */
  predicate Less(a: string, b: string) {
    |b| > 0 && (|a| == 0 || a[0] < b[0] || (a[0] == b[0] && Less(a[1..], b[1..])))
  }

  /** `a <= b` in Go's string order. */
  predicate LessEq(a: string, b: string) {
    !Less(b, a)
  }

  /** Go's string order is a strict total order: exactly one of a < b, a == b, b < a. */
  lemma {:induction false} LessTrichotomy(a: string, b: string)
    ensures Less(a, b) || a == b || Less(b, a)
    ensures !(Less(a, b) && Less(b, a))
    ensures !Less(a, a)
  {
    if |a| > 0 {
      LessTrichotomy(a[1..], a[1..]);
    }
    if |a| > 0 && |b| > 0 {
      LessTrichotomy(a[1..], b[1..]);
      if a[0] == b[0] && a[1..] == b[1..] {
        assert a == [a[0]] + a[1..] && b == [b[0]] + b[1..];
      }
    }
  }

  lemma {:induction false} LessTransitive(a: string, b: string, c: string)
    requires Less(a, b) && Less(b, c)
    ensures Less(a, c)
  {
    if |a| > 0 && a[0] == b[0] && b[0] == c[0] {
      LessTransitive(a[1..], b[1..], c[1..]);
    }
  }

  /** `<=` on strings is a total order. */
  lemma LessEqTotalOrder(a: string, b: string, c: string)
    ensures LessEq(a, b) || LessEq(b, a)
    ensures LessEq(a, b) && LessEq(b, a) ==> a == b
    ensures LessEq(a, b) && LessEq(b, c) ==> LessEq(a, c)
  {
    LessTrichotomy(a, b);
    LessTrichotomy(b, c);
    LessTrichotomy(a, c);
    if Less(c, a) && Less(a, b) {
      LessTransitive(c, a, b);
    }
  }
}
