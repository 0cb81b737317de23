/**
 * The pieces of Python's string and POSIX path library the redirect generator
 * relies on: `str.strip("/")`, `posixpath.join` of two components and
 * `posixpath.dirname`.
 */
module PosixPath {

  /** Every character of `s` is a '/'. */
  predicate AllSlashes(s: string) {
    forall k :: 0 <= k < |s| ==> s[k] == '/'
  }

  /** `x` neither starts nor ends with '/'. */
  predicate NoEndSlashes(x: string) {
    x == [] || (x[0] != '/' && x[|x| - 1] != '/')
  }

  lemma HeadThenPrefix<T>(s: seq<T>, j: nat)
    requires 1 <= j <= |s|
    ensures s[..j] == [s[0]] + s[1..][..j - 1]
  {
  }

  lemma SuffixThenLast<T>(s: seq<T>, j: nat)
    requires j < |s|
    ensures s[j..] == s[..|s| - 1][j..] + [s[|s| - 1]]
  {
  }

  /** `s.lstrip("/")`: `s` without its leading slashes. */
  function LStripSlashes(s: string): (r: string)
    ensures |r| <= |s| && r == s[|s| - |r|..]
    ensures AllSlashes(s[..|s| - |r|])
    ensures r == [] || r[0] != '/'
  {
    if s != [] && s[0] == '/' then
      var r := LStripSlashes(s[1..]);
      HeadThenPrefix(s, |s| - |r|);
      r
    else s
  }

  /** `s.rstrip("/")`: `s` without its trailing slashes. */
  function RStripSlashes(s: string): (r: string)
    ensures |r| <= |s| && r == s[..|r|]
    ensures AllSlashes(s[|r|..])
    ensures r == [] || r[|r| - 1] != '/'
  {
    if s != [] && s[|s| - 1] == '/' then
      var r := RStripSlashes(s[..|s| - 1]);
      SuffixThenLast(s, |r|);
      r
    else s
  }

  /** `s.strip("/")`: `s` without its leading and its trailing slashes. */
  function Strip(s: string): (r: string)
    ensures NoEndSlashes(r)
  {
    var l := LStripSlashes(s);
    var r := RStripSlashes(l);
    assert r != [] ==> r[0] == l[0];
    r
  }

  lemma SliceOfSuffix<T>(s: seq<T>, i: nat, n: nat)
    requires i + n <= |s|
    ensures s[i..][..n] == s[i..i + n] && s[i..][n..] == s[i + n..]
  {
  }

  /** Where the stripped part starts: after the leading slashes. */
  function StripStart(s: string): (i: nat)
    ensures i <= |s| && AllSlashes(s[..i])
  {
    |s| - |LStripSlashes(s)|
  }

  /**
   * Stripping removes slashes only: `s` is a run of slashes, then `Strip(s)`, then a run
   * of slashes, so every slash inside the path is kept.
   */
  lemma StripIsSlice(s: string)
    ensures var i, r := StripStart(s), Strip(s);
      && i + |r| <= |s| && s[i..i + |r|] == r && AllSlashes(s[i + |r|..])
  {
    var l := LStripSlashes(s);
    var r := RStripSlashes(l);
    SliceOfSuffix(s, StripStart(s), |r|);
  }

  lemma {:induction false} LStripPastSlashes(p: string, x: string)
    requires AllSlashes(p) && (x == [] || x[0] != '/')
    ensures LStripSlashes(p + x) == x
  {
    if p != [] {
      assert (p + x)[1..] == p[1..] + x;
      LStripPastSlashes(p[1..], x);
    }
  }

  lemma {:induction false} RStripPastSlashes(x: string, q: string)
    requires AllSlashes(q) && (x == [] || x[|x| - 1] != '/')
    ensures RStripSlashes(x + q) == x
  {
    if q != [] {
      assert (x + q)[..|x + q| - 1] == x + q[..|q| - 1];
      RStripPastSlashes(x, q[..|q| - 1]);
    }
  }

  /** Whatever slashes surround a slash-free-ended string, stripping gives back exactly that string. */
  lemma StripOf(p: string, x: string, q: string)
    requires AllSlashes(p) && AllSlashes(q)
    requires NoEndSlashes(x)
    ensures Strip(p + x + q) == x
  {
    assert p + x + q == p + (x + q);
    if x == [] {
      assert x + q == q;
      LStripPastSlashes(p + q, []);
      assert p + q + [] == p + q;
      assert AllSlashes(p + q);
    } else {
      LStripPastSlashes(p, x + q);
    }
    RStripPastSlashes(x, q);
  }

  /** Stripping twice is stripping once. */
  lemma StripIsIdempotent(s: string)
    ensures Strip(Strip(s)) == Strip(s)
  {
    StripOf([], Strip(s), []);
    assert [] + Strip(s) + [] == Strip(s);
  }

  /** `posixpath.join(a, b)` for two components. */
  function Join(a: string, b: string): string {
    if b != [] && b[0] == '/' then b
    else if a == [] || a[|a| - 1] == '/' then a + b
    else a + "/" + b
  }

  /**
   * Joining a relative component keeps `a` as a prefix and `b` as a suffix, with at
   * most one '/' between them, and exactly one when `a` is non-empty and does not
   * already end with '/'.
   */
  lemma JoinRelative(a: string, b: string)
    requires b == [] || b[0] != '/'
    ensures var r := Join(a, b);
      && |a| + |b| <= |r| <= |a| + |b| + 1
      && r[..|a|] == a && r[|r| - |b|..] == b
      && (|r| == |a| + |b| + 1 ==> r[|a|] == '/')
      && (|r| == |a| + |b| + 1 <==> a != [] && a[|a| - 1] != '/')
  {
  }

  /** Joining a relative component onto a directory that does not end with '/' inserts one '/'. */
  lemma JoinAfterName(a: string, b: string)
    requires a != [] && a[|a| - 1] != '/' && (b == [] || b[0] != '/')
    ensures Join(a, b) == a + "/" + b
  {
  }

  /** Joining `b/f` is joining `b` and then adding `/f`, when `b` has no slash at either end. */
  lemma JoinThenName(a: string, b: string, f: string)
    requires NoEndSlashes(b) && b != []
    ensures var d := Join(a, b); d != [] && d[|d| - 1] != '/' && Join(a, b + "/" + f) == d + "/" + f
  {
    assert (b + "/" + f)[0] == b[0];
    var d := Join(a, b);
    assert d[|d| - 1] == b[|b| - 1];
  }

  /** Joining onto an empty directory leaves the component as it is. */
  lemma JoinOntoEmpty(b: string)
    ensures Join("", b) == b
  {
  }

  /** `p.rfind(c)`: the last index holding `c`, or -1. */
  function RFind(p: string, c: char): (i: int)
    ensures -1 <= i < |p|
    ensures i >= 0 ==> p[i] == c
    ensures forall k :: i < k < |p| ==> p[k] != c
  {
    if p == [] then -1
    else if p[|p| - 1] == c then |p| - 1
    else RFind(p[..|p| - 1], c)
  }

  /** `posixpath.dirname(p)`. */
  function Dirname(p: string): string {
    var head := p[..RFind(p, '/') + 1];
    if head != [] && !AllSlashes(head) then RStripSlashes(head) else head
  }

  /** The directory of `d/f`, for a file name `f` and a directory `d` that does not end with '/', is `d`. */
  lemma DirnameOfFile(d: string, f: string)
    requires d != [] && d[|d| - 1] != '/'
    requires '/' !in f
    ensures Dirname(d + "/" + f) == d
  {
    var p := d + "/" + f;
    assert RFind(p, '/') == |d| by {
      assert p[|d|] == '/';
      forall k | |d| < k < |p| ensures p[k] != '/' {
        assert p[k] == f[k - |d| - 1];
      }
    }
    var head := p[..|d| + 1];
    assert head == d + "/";
    assert !AllSlashes(head) by {
      assert head[|d| - 1] != '/';
    }
    RStripPastSlashes(d, "/");
  }

  /** A bare file name has an empty directory. */
  lemma DirnameOfBareName(f: string)
    requires '/' !in f
    ensures Dirname(f) == ""
  {
  }
}
