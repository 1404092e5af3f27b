/**
  The `os.path` helpers the scripts rely on, with POSIX semantics and '/' as the
  only separator: `dirname`, `basename`, `join` of two components and `splitext`.
*/
module Paths {

  /** Index of the last occurrence of `c` in `s`, or -1 (`str.rfind`). */
  function LastIndex(s: string, c: char): (i: int)
    ensures -1 <= i < |s|
    ensures i >= 0 ==> s[i] == c
    ensures forall k :: i < k < |s| ==> s[k] != c
  {
    if s == [] then -1
    else if s[|s| - 1] == c then |s| - 1
    else LastIndex(s[..|s| - 1], c)
  }

  /** No occurrence of `c` in `s`. */
  predicate Lacks(s: string, c: char) {
    forall k :: 0 <= k < |s| ==> s[k] != c
  }

  predicate AllSlashes(s: string) {
    forall i :: 0 <= i < |s| ==> s[i] == '/'
  }

  predicate AllDots(s: string) {
    forall i :: 0 <= i < |s| ==> s[i] == '.'
  }

  /** `head.rstrip('/')` */
  function RStripSlashes(h: string): (r: string)
    ensures r <= h
    ensures r == [] || r[|r| - 1] != '/'
    ensures !AllSlashes(h) ==> r != []
  {
    if h != [] && h[|h| - 1] == '/' then RStripSlashes(h[..|h| - 1]) else h
  }

  /** `posixpath.dirname`: the text before the last '/', trailing slashes removed unless it is all slashes. */
  function Dirname(p: string): string {
    var head := p[..LastIndex(p, '/') + 1];
    if head != [] && !AllSlashes(head) then RStripSlashes(head) else head
  }

  /** `posixpath.basename`: the text after the last '/'. */
  function Basename(p: string): (r: string)
    ensures Lacks(r, '/')
  {
    p[LastIndex(p, '/') + 1..]
  }

  /** `posixpath.join(a, b)` */
  function Join(a: string, b: string): string {
    if |b| > 0 && b[0] == '/' then b
    else if a == [] || a[|a| - 1] == '/' then a + b
    else a + "/" + b
  }

  /** `posixpath.splitext`: the extension starts at the last '.' of the final component, unless only dots precede it there. */
  function SplitExt(p: string): (r: (string, string))
    ensures r.0 + r.1 == p
  {
    var sep := LastIndex(p, '/');
    var dot := LastIndex(p, '.');
    if dot > sep && !AllDots(p[sep + 1..dot]) then
      SplitAt(p, dot);
      (p[..dot], p[dot..])
    else (p, [])
  }

  lemma SplitAt(p: string, i: nat)
    requires i <= |p|
    ensures p[..i] + p[i..] == p
  {
  }

  /** An extension is empty or a '.' followed by neither '/' nor another '.'. */
  predicate IsExtension(e: string) {
    e == [] || (e[0] == '.' && Lacks(e, '/') && Lacks(e[1..], '.'))
  }

  /** `s.endswith(suffix)` */
  predicate EndsWith(s: string, suffix: string) {
    |suffix| <= |s| && s[|s| - |suffix|..] == suffix
  }

  /** The shapes `Dirname` can produce: empty, all slashes, or not ending in '/'. */
  predicate IsDirForm(d: string) {
    d == [] || AllSlashes(d) || d[|d| - 1] != '/'
  }

  // ---------------------------------------------------------------------
  // Properties

  lemma ExtensionShape(p: string)
    ensures IsExtension(SplitExt(p).1)
  {
    var sep := LastIndex(p, '/');
    var dot := LastIndex(p, '.');
    if dot > sep && !AllDots(p[sep + 1..dot]) {
      assert SplitExt(p).1 == p[dot..];
      TailAfterLast(p, sep, dot);
    }
  }

  /** The text from the last '.' on, when no '/' follows `sep`, is an extension. */
  lemma TailAfterLast(p: string, sep: int, dot: int)
    requires -1 <= sep < dot < |p| && p[dot] == '.'
    requires forall k :: sep < k < |p| ==> p[k] != '/'
    requires forall k :: dot < k < |p| ==> p[k] != '.'
    ensures IsExtension(p[dot..])
  {
    var ext := p[dot..];
    forall k | 0 <= k < |ext| ensures ext[k] != '/' {
      assert ext[k] == p[dot + k];
    }
    forall k | 0 <= k < |ext| - 1 ensures ext[1..][k] != '.' {
      assert ext[1..][k] == p[dot + 1 + k];
    }
  }

  lemma DirnameForm(p: string)
    ensures IsDirForm(Dirname(p))
  {
  }

  lemma LastIndexAppend(a: string, b: string, c: char)
    requires Lacks(b, c)
    ensures LastIndex(a + b, c) == LastIndex(a, c)
  {
    var i, j := LastIndex(a, c), LastIndex(a + b, c);
    assert i >= 0 ==> (a + b)[i] == c;
  }

  /** An occurrence of `c` with none after it is the last one. */
  lemma LastIndexAt(s: string, c: char, i: int)
    requires 0 <= i < |s| && s[i] == c
    requires forall k :: i < k < |s| ==> s[k] != c
    ensures LastIndex(s, c) == i
  {
  }

  /** Joining a directory with a plain name and splitting again gives both back. */
  lemma JoinSplits(d: string, n: string)
    requires IsDirForm(d) && Lacks(n, '/')
    ensures Dirname(Join(d, n)) == d
    ensures Basename(Join(d, n)) == n
  {
    if d == [] {
      assert Join(d, n) == [] + n;
      LastIndexAppend([], n, '/');
    } else if d[|d| - 1] == '/' {
      LastIndexAppend(d, n, '/');
      assert (d + n)[..|d|] == d;
    } else {
      JoinSplitsPlain(d, n);
    }
  }

  /** `JoinSplits` for a directory not ending in '/', where `join` inserts one. */
  lemma JoinSplitsPlain(d: string, n: string)
    requires d != [] && d[|d| - 1] != '/' && Lacks(n, '/')
    ensures Join(d, n) == d + "/" + n
    ensures Dirname(d + "/" + n) == d && Basename(d + "/" + n) == n
  {
    var head := d + "/";
    assert head + n == d + "/" + n;
    LastIndexAppend(head, n, '/');
    LastIndexAt(head, '/', |d|);
    assert (head + n)[..|d| + 1] == head;
    assert head[..|head| - 1] == d;
    assert RStripSlashes(head) == RStripSlashes(d);
  }

  /** A name whose final component has a non-dot character keeps that stem when an extension is appended. */
  lemma SplitExtAppend(x: string, e: string)
    requires e != [] && IsExtension(e)
    requires !AllDots(Basename(x))
    ensures SplitExt(x + e) == (x, e)
  {
    var p := x + e;
    var sep := LastIndex(x, '/');
    forall k | |x| < k < |p| ensures p[k] != '.' {
      assert p[k] == e[1..][k - |x| - 1];
    }
    assert p[|x|] == '.';
    LastIndexAt(p, '.', |x|);
    LastIndexAppend(x, e, '/');
    assert p[sep + 1..|x|] == Basename(x);
    assert p[..|x|] == x;
  }

  lemma LacksAppend(a: string, b: string, c: char)
    ensures Lacks(a + b, c) <==> Lacks(a, c) && Lacks(b, c)
  {
    assert forall k :: 0 <= k < |a| ==> (a + b)[k] == a[k];
    assert forall k :: 0 <= k < |b| ==> (a + b)[|a| + k] == b[k];
  }

  lemma LacksSlice(s: string, i: nat, j: nat, c: char)
    requires i <= j <= |s| && Lacks(s, c)
    ensures Lacks(s[i..j], c)
  {
    assert forall k :: 0 <= k < j - i ==> s[i..j][k] == s[i + k];
  }

  /** `dirname` is empty exactly for paths without any '/'. */
  lemma DirnameEmpty(p: string)
    ensures Dirname(p) == [] <==> Lacks(p, '/')
  {
    var i := LastIndex(p, '/');
    if i >= 0 {
      assert p[..i + 1][i] == '/';
    }
  }

  lemma DirnameIsPrefix(p: string)
    ensures Dirname(p) <= p
    ensures Basename(p) != [] ==> |Dirname(p)| < |p|
  {
  }
}
