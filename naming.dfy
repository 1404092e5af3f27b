/**
  The Save Plus next-name rule (savePlus.py `save_plus_proc`, its copy in
  Old/tempv02.py, and `quick_save_plus` in both installers):

    1. an assignment-style base `X##_Last_First_type_##` keeps everything but its
       final number, which is incremented;
    2. otherwise the leftmost match of `(\D*)(\d+)(\D*)$` is rebuilt as
       group1 + incremented group2 + group3 -- text before the match is dropped;
    3. a base without any digit gets "02" appended.

  The two regular expressions are encoded directly and proved against a
  reference reading of each pattern.
*/
module Naming {
  import opened Wrappers
  import opened Digits
  import opened Paths

  // =====================================================================
  // The trailing-number search: re.search(r'(\D*)(\d+)(\D*)$', s)

  /** A match of the trailing pattern starting at index `start`, with its three groups. */
  datatype TrailingMatch = TrailingMatch(start: nat, prefix: string, number: string, suffix: string)

  /** Reference reading of the pattern: `s[start..]` is non-digits, then at least one digit, then non-digits to the end. */
  predicate MatchesAt(s: string, m: TrailingMatch) {
    && m.start <= |s|
    && s[m.start..] == m.prefix + m.number + m.suffix
    && NoDigits(m.prefix)
    && m.number != []
    && AllDigits(m.number)
    && NoDigits(m.suffix)
  }

  /** Index just past the last digit of `s`, or 0 when `s` has no digit. */
  function LastDigitEnd(s: string): (e: nat)
    ensures e <= |s|
    ensures NoDigits(s[e..])
    ensures e > 0 ==> IsDigit(s[e - 1])
  {
    if s == [] then 0
    else if IsDigit(s[|s| - 1]) then |s|
    else
      var e := LastDigitEnd(s[..|s| - 1]);
      assert s[e..] == s[..|s| - 1][e..] + [s[|s| - 1]];
      e
  }

  /** Start of the maximal digit run that ends at index `e`. */
  function RunStart(s: string, e: nat): (i: nat)
    requires e <= |s|
    ensures i <= e && AllDigits(s[i..e])
    ensures i == 0 || !IsDigit(s[i - 1])
    ensures e > 0 && IsDigit(s[e - 1]) ==> i < e
    decreases e
  {
    if e == 0 || !IsDigit(s[e - 1]) then e
    else
      var i := RunStart(s, e - 1);
      assert s[i..e] == s[i..e - 1] + [s[e - 1]];
      i
  }

  /**
    The match Python's leftmost search returns: the number is the last digit run,
    and the match starts just after the digit run before it (or at 0).
  */
  function SearchTrailing(s: string): (r: Option<TrailingMatch>)
    ensures r.Some? ==> MatchesAt(s, r.value)
    ensures r.Some? && r.value.start > 0 ==> IsDigit(s[r.value.start - 1]) && r.value.prefix != []
  {
    var e := LastDigitEnd(s);
    if e == 0 then None
    else
      var i := RunStart(s, e);
      var p := LastDigitEnd(s[..i]);
      SliceParts(s, p, i, e);
      Some(TrailingMatch(p, s[p..i], s[i..e], s[e..]))
  }

  /** Every index in [lo, hi) holds a digit. */
  predicate DigitsIn(s: string, lo: nat, hi: nat)
    requires lo <= hi <= |s|
  {
    forall k :: lo <= k < hi ==> IsDigit(s[k])
  }

  /** No index in [lo, hi) holds a digit. */
  predicate NonDigitsIn(s: string, lo: nat, hi: nat)
    requires lo <= hi <= |s|
  {
    forall k :: lo <= k < hi ==> !IsDigit(s[k])
  }

  lemma SliceDigits(s: string, lo: nat, hi: nat)
    requires lo <= hi <= |s|
    ensures AllDigits(s[lo..hi]) ==> DigitsIn(s, lo, hi)
    ensures NoDigits(s[lo..hi]) ==> NonDigitsIn(s, lo, hi)
  {
    assert forall k :: lo <= k < hi ==> s[k] == s[lo..hi][k - lo];
  }

  /** The character classes of a match, read as index ranges of `s`. */
  lemma MatchRanges(s: string, m: TrailingMatch)
    requires MatchesAt(s, m)
    ensures m.start + |m.prefix| + |m.number| <= |s|
    ensures NonDigitsIn(s, m.start, m.start + |m.prefix|)
    ensures DigitsIn(s, m.start + |m.prefix|, m.start + |m.prefix| + |m.number|)
    ensures NonDigitsIn(s, m.start + |m.prefix| + |m.number|, |s|)
    ensures s[m.start..m.start + |m.prefix|] == m.prefix
    ensures s[m.start + |m.prefix|..m.start + |m.prefix| + |m.number|] == m.number
    ensures s[m.start + |m.prefix| + |m.number|..] == m.suffix
  {
    var q := m.start;
    var a := q + |m.prefix|;
    var b := a + |m.number|;
    ThreeParts(m.prefix, m.number, m.suffix);
    assert s[q..a] == s[q..][..a - q];
    assert s[a..b] == s[q..][a - q..b - q];
    assert s[b..] == s[q..][b - q..];
    SliceDigits(s, q, a);
    SliceDigits(s, a, b);
    SliceDigits(s, b, |s|);
  }

  /** Any match starts no earlier than the search's, and one that starts with it is the search's match. */
  lemma LeftmostFor(s: string, m: TrailingMatch)
    requires MatchesAt(s, m)
    ensures SearchTrailing(s).Some?
    ensures SearchTrailing(s).value.start < m.start || m == SearchTrailing(s).value
  {
    MatchRanges(s, m);
    LastDigitEndAt(s, m.start + |m.prefix| + |m.number|);
    var found := SearchTrailing(s).value;
    StartNoLater(s, m, found);
    if found.start == m.start {
      SameStartSameMatch(s, m, found);
    }
  }

  /** A match whose start follows a digit has a non-empty prefix, so no match starts before it. */
  lemma StartNoLater(s: string, m: TrailingMatch, found: TrailingMatch)
    requires MatchesAt(s, m) && MatchesAt(s, found)
    requires found.start > 0 ==> IsDigit(s[found.start - 1]) && found.prefix != []
    ensures found.start <= m.start
  {
    MatchRanges(s, m);
    MatchRanges(s, found);
    var q, a := m.start, m.start + |m.prefix|;
    var p, a' := found.start, found.start + |found.prefix|;
    var b := a + |m.number|;
    assert IsDigit(s[a']);
    assert a' < b;
    assert p > q ==> a < p <= b;
    assert p < a' ==> !IsDigit(s[p]);
  }

  /** Two matches at the same start have the same groups. */
  lemma SameStartSameMatch(s: string, m: TrailingMatch, n: TrailingMatch)
    requires MatchesAt(s, m) && MatchesAt(s, n) && m.start == n.start
    ensures m == n
  {
    MatchRanges(s, m);
    MatchRanges(s, n);
    var a, b := m.start + |m.prefix|, m.start + |m.prefix| + |m.number|;
    var a', b' := n.start + |n.prefix|, n.start + |n.prefix| + |n.number|;
    assert IsDigit(s[a]) && IsDigit(s[a']);
    assert a == a';
    assert IsDigit(s[b - 1]) && IsDigit(s[b' - 1]);
    assert b == b';
  }

  /** `SearchTrailing` is exactly the regex engine's answer: no match exists when it finds none, and otherwise its match is the leftmost one and its groups are the only possible ones at that start. */
  lemma SearchTrailingIsLeftmost(s: string)
    ensures SearchTrailing(s).None? ==> forall m :: !MatchesAt(s, m)
    ensures SearchTrailing(s).Some? ==>
      forall m :: MatchesAt(s, m) ==> SearchTrailing(s).value.start < m.start || m == SearchTrailing(s).value
  {
    forall m | MatchesAt(s, m)
      ensures SearchTrailing(s).Some?
      ensures SearchTrailing(s).value.start < m.start || m == SearchTrailing(s).value
    {
      LeftmostFor(s, m);
    }
  }

  /** The general branch and the "02" fallback. */
  function BumpTrailing(base: string): string {
    match SearchTrailing(base)
    case Some(m) => m.prefix + Increment(m.number) + m.suffix
    case None => base + "02"
  }

  // =====================================================================
  // The assignment pattern: re.match(r'([A-Z])(\d+)_([^_]+)_([^_]+)_([^_]+)_(\d+)$', s)

  /** The six groups of an assignment-style name `X##_Last_First_type_##`. */
  datatype AssignmentName = AssignmentName(letter: char, number: string, last: string, first: string, kind: string, version: string)

  function Compose(a: AssignmentName): string {
    [a.letter] + a.number + "_" + a.last + "_" + a.first + "_" + a.kind + "_" + a.version
  }

  /** Everything before the version group. */
  function VersionFront(a: AssignmentName): string {
    [a.letter] + a.number + "_" + a.last + "_" + a.first + "_" + a.kind + "_"
  }

  lemma ComposeSplit(a: AssignmentName)
    ensures Compose(a) == VersionFront(a) + a.version
  {
  }

  /** The groups' character classes. */
  predicate WellFormed(a: AssignmentName) {
    && 'A' <= a.letter <= 'Z'
    && a.number != [] && AllDigits(a.number)
    && a.last != [] && Lacks(a.last, '_')
    && a.first != [] && Lacks(a.first, '_')
    && a.kind != [] && Lacks(a.kind, '_')
    && a.version != [] && AllDigits(a.version)
  }

  /** `s.split('_')` */
  function Fields(s: string): (f: seq<string>)
    ensures |f| >= 1
    ensures forall i :: 0 <= i < |f| ==> Lacks(f[i], '_')
  {
    if s == [] then [[]]
    else
      var rest := Fields(s[1..]);
      if s[0] == '_' then [[]] + rest
      else
        var f := [[s[0]] + rest[0]] + rest[1..];
        assert forall i :: 1 <= i < |f| ==> f[i] == rest[i];
        f
  }

  /** `'_'.join(f)` */
  function JoinFields(f: seq<string>): string
    requires |f| >= 1
  {
    if |f| == 1 then f[0] else f[0] + "_" + JoinFields(f[1..])
  }

  function MatchAssignment(s: string): (r: Option<AssignmentName>)
    ensures r.Some? ==> WellFormed(r.value) && Compose(r.value) == s
  {
    var f := Fields(s);
    if |f| == 5 && |f[0]| >= 2 && 'A' <= f[0][0] <= 'Z' && AllDigits(f[0][1..])
       && f[1] != [] && f[2] != [] && f[3] != [] && f[4] != [] && AllDigits(f[4])
    then
      var a := AssignmentName(f[0][0], f[0][1..], f[1], f[2], f[3], f[4]);
      JoinFieldsOfFields(s);
      JoinFive(f);
      assert f[0] == [f[0][0]] + f[0][1..];
      Some(a)
    else None
  }

  lemma JoinFive(f: seq<string>)
    requires |f| == 5
    ensures JoinFields(f) == f[0] + "_" + f[1] + "_" + f[2] + "_" + f[3] + "_" + f[4]
  {
    assert f[1..][1..] == f[2..] && f[2..][1..] == f[3..] && f[3..][1..] == f[4..];
    assert JoinFields(f[4..]) == f[4];
    assert JoinFields(f[3..]) == f[3] + "_" + f[4];
    assert JoinFields(f[2..]) == f[2] + "_" + (f[3] + "_" + f[4]);
    assert JoinFields(f[1..]) == f[1] + "_" + (f[2] + "_" + (f[3] + "_" + f[4]));
  }

  lemma {:induction false} JoinFieldsOfFields(s: string)
    ensures JoinFields(Fields(s)) == s
  {
    if s != [] {
      var rest := Fields(s[1..]);
      JoinFieldsOfFields(s[1..]);
      if s[0] == '_' {
        assert Fields(s) == [[]] + rest;
        assert JoinFields(Fields(s)) == [] + "_" + JoinFields(rest);
        assert s == [s[0]] + s[1..];
      } else if |rest| == 1 {
        assert s == [s[0]] + s[1..];
      } else {
        var f := Fields(s);
        assert f[1..] == rest[1..];
        assert JoinFields(rest) == rest[0] + "_" + JoinFields(rest[1..]);
        assert s == [s[0]] + s[1..];
      }
    }
  }

  lemma {:induction false} FieldsOfPlain(a: string)
    requires Lacks(a, '_')
    ensures Fields(a) == [a]
  {
    if a != [] {
      FieldsOfPlain(a[1..]);
      assert [a[0]] + a[1..] == a;
    }
  }

  lemma {:induction false} FieldsOfJoin(a: string, b: string)
    requires Lacks(a, '_')
    ensures Fields(a + "_" + b) == [a] + Fields(b)
  {
    if a == [] {
      assert a + "_" + b == "_" + b;
      assert ("_" + b)[1..] == b;
    } else {
      FieldsOfJoin(a[1..], b);
      assert (a + "_" + b)[1..] == a[1..] + "_" + b;
      assert [a[0]] + a[1..] == a;
    }
  }

  lemma DigitsLackUnderscore(d: string)
    requires AllDigits(d)
    ensures Lacks(d, '_')
  {
  }

  /** The encoding agrees with the pattern in both directions: it accepts exactly the well-formed compositions and returns their groups. */
  lemma MatchAssignmentExact(s: string, a: AssignmentName)
    ensures MatchAssignment(s) == Some(a) <==> WellFormed(a) && Compose(a) == s
  {
    if WellFormed(a) && Compose(a) == s {
      ComposeFields(a);
      assert ([a.letter] + a.number)[1..] == a.number;
    }
  }

  /** The fields of a well-formed composition are its five groups. */
  lemma ComposeFields(a: AssignmentName)
    requires WellFormed(a)
    ensures Fields(Compose(a)) == [[a.letter] + a.number, a.last, a.first, a.kind, a.version]
  {
    var head := [a.letter] + a.number;
    DigitsLackUnderscore(a.number);
    DigitsLackUnderscore(a.version);
    assert Lacks(head, '_') by {
      forall k | 0 <= k < |head| ensures head[k] != '_' {
        if k > 0 { assert head[k] == a.number[k - 1]; }
      }
    }
    Nest5(head, a.last, a.first, a.kind, a.version, "_");
    FieldsOfTwoThen(head, a.last, a.first + "_" + (a.kind + "_" + a.version));
    FieldsOfTwoThen(a.first, a.kind, a.version);
    FieldsOfPlain(a.version);
  }

  lemma Nest5(x: string, l: string, f: string, k: string, v: string, u: string)
    ensures x + u + l + u + f + u + k + u + v == x + u + (l + u + (f + u + (k + u + v)))
  {
  }

  lemma FieldsOfTwoThen(p: string, q: string, rest: string)
    requires Lacks(p, '_') && Lacks(q, '_')
    ensures Fields(p + "_" + (q + "_" + rest)) == [p, q] + Fields(rest)
  {
    FieldsOfJoin(q, rest);
    FieldsOfJoin(p, q + "_" + rest);
  }

  // =====================================================================
  // The next name

  /** The new base name Save Plus computes from the current base name. */
  function NextBase(base: string): string {
    match MatchAssignment(base)
    case Some(a) => Compose(a.(version := Increment(a.version)))
    case None => BumpTrailing(base)
  }

  /** `str.lower()` on ASCII letters; other characters are kept as they are. */
  function Lower(s: string): (r: string)
    ensures |r| == |s|
  {
    if s == [] then []
    else [if 'A' <= s[0] <= 'Z' then (s[0] as int + 32) as char else s[0]] + Lower(s[1..])
  }

  /** `ext.lower() in ['.ma', '.mb']` */
  predicate IsMayaExtension(ext: string) {
    Lower(ext) == ".ma" || Lower(ext) == ".mb"
  }

  /** The extension the new file gets: the current one when it is a Maya one (any case), else `defaultExt`. */
  function FixExtension(ext: string, defaultExt: string): string {
    if IsMayaExtension(ext) then ext else defaultExt
  }

  /** The new file name for a current file name: new base plus fixed extension. */
  function NextFileName(fileName: string, defaultExt: string): string {
    var (base, ext) := SplitExt(fileName);
    NextBase(base) + FixExtension(ext, defaultExt)
  }

  // =====================================================================
  // Properties of the rule

  /** An assignment-style name stays assignment-style with the same letter, number, names and type; only the version is incremented. */
  lemma AssignmentKeepsFields(s: string, a: AssignmentName)
    requires MatchAssignment(s) == Some(a)
    ensures MatchAssignment(NextBase(s)) == Some(a.(version := Increment(a.version)))
    ensures ValueOf(Increment(a.version)) == ValueOf(a.version) + 1
  {
    var a' := a.(version := Increment(a.version));
    IncrementFacts(a.version);
    assert WellFormed(a');
    MatchAssignmentExact(NextBase(s), a');
  }

  /** Some non-digit lies between two digits of `s`: its digits form more than one run. */
  predicate HasGap(s: string) {
    exists i, j, k :: 0 <= i < j < k < |s| && IsDigit(s[i]) && !IsDigit(s[j]) && IsDigit(s[k])
  }

  /** An assignment-style name has at least two digit runs: its number and its version. */
  lemma AssignmentHasGap(s: string)
    ensures MatchAssignment(s).Some? ==> HasGap(s)
  {
    if MatchAssignment(s).Some? {
      var a := MatchAssignment(s).value;
      var u := 1 + |a.number|;
      assert s[1] == a.number[0];
      assert s[u] == '_';
      assert s[|s| - 1] == a.version[|a.version| - 1];
    }
  }

  lemma SingleRunHasNoGap(pre: string, d: string, suf: string)
    requires NoDigits(pre) && AllDigits(d) && NoDigits(suf)
    ensures !HasGap(pre + d + suf)
  {
    var s := pre + d + suf;
    assert forall k :: 0 <= k < |pre| ==> s[k] == pre[k];
    assert forall k :: |pre| + |d| <= k < |s| ==> s[k] == suf[k - |pre| - |d|];
    forall i, j, k | 0 <= i < j < k < |s| && IsDigit(s[i]) && IsDigit(s[k]) ensures IsDigit(s[j]) {
      assert s[j] == d[j - |pre|];
    }
  }

  /** A name whose digits form one run is never an assignment-style name. */
  lemma SingleRunIsNotAssignment(pre: string, d: string, suf: string)
    requires NoDigits(pre) && AllDigits(d) && NoDigits(suf)
    ensures MatchAssignment(pre + d + suf).None?
  {
    AssignmentHasGap(pre + d + suf);
    SingleRunHasNoGap(pre, d, suf);
  }

  /**
    A base with exactly one digit run keeps everything around it and only the number
    changes (filename5 -> filename6, filename00002 -> filename00003).
  */
  lemma SingleRunKeepsFront(pre: string, d: string, suf: string)
    requires NoDigits(pre) && d != [] && AllDigits(d) && NoDigits(suf)
    ensures NextBase(pre + d + suf) == pre + Increment(d) + suf
  {
    var s := pre + d + suf;
    SingleRunIsNotAssignment(pre, d, suf);
    var m := TrailingMatch(0, pre, d, suf);
    assert MatchesAt(s, m);
    SearchTrailingIsLeftmost(s);
    assert SearchTrailing(s) == Some(m);
  }

  /** A base without any digit gets "02" appended (filename -> filename02). */
  lemma NoDigitAppends02(s: string)
    requires NoDigits(s)
    ensures NextBase(s) == s + "02"
  {
    SingleRunIsNotAssignment(s, [], []);
    assert s + [] + [] == s;

  }

  /** Save Plus never proposes the name it started from. */
  lemma NextBaseChanges(s: string)
    ensures NextBase(s) != s
  {
    match MatchAssignment(s)
    case Some(a) => AssignmentChanges(s, a);
    case None =>
      match SearchTrailing(s)
      case None =>
        assert |NextBase(s)| == |s| + 2;
      case Some(m) =>
        TrailingChanges(s, m);
  }

  lemma AssignmentChanges(s: string, a: AssignmentName)
    requires MatchAssignment(s) == Some(a)
    ensures NextBase(s) != s
  {
    var v := a.version;
    var a' := a.(version := Increment(v));
    var front := VersionFront(a);
    ComposeSplit(a);
    ComposeSplit(a');
    assert VersionFront(a') == front;
    IncrementFacts(v);
    assert (front + Increment(v))[|front|..] == Increment(v);
    assert (front + v)[|front|..] == v;
  }

  lemma TrailingChanges(s: string, m: TrailingMatch)
    requires SearchTrailing(s) == Some(m)
    ensures BumpTrailing(s) != s
  {
    var inc := Increment(m.number);
    var r := m.prefix + inc + m.suffix;
    assert BumpTrailing(s) == r;
    IncrementFacts(m.number);
    assert |s| == m.start + |m.prefix| + |m.number| + |m.suffix| by {
      assert |s[m.start..]| == |m.prefix + m.number + m.suffix|;
    }
    if |r| == |s| {
      if m.start == 0 {
        ThreeParts(m.prefix, inc, m.suffix);
        ThreeParts(m.prefix, m.number, m.suffix);
        assert s == m.prefix + m.number + m.suffix;
      } else {
        IncrementOverflow(m.number);
        assert m.start == 1;
        assert r[0] == m.prefix[0];
        assert s[m.start..][0] == m.prefix[0];
        assert !IsDigit(r[0]) && IsDigit(s[0]);
      }
    }
  }

  lemma BasenameOfPlain(x: string)
    requires Lacks(x, '/')
    ensures Basename(x) == x
  {
    LastIndexAppend([], x, '/');
    assert [] + x == x;
  }

  /** A plain base followed by an extension splits back into the two. */
  lemma NextFileNameOf(x: string, e: string, defaultExt: string)
    requires Lacks(x, '/') && !AllDots(x)
    requires e != [] && IsExtension(e)
    ensures NextFileName(x + e, defaultExt) == NextBase(x) + FixExtension(e, defaultExt)
  {
    BasenameOfPlain(x);
    SplitExtAppend(x, e);
  }

  /** Some character of `s` is a digit. */
  predicate HasDigit(s: string) {
    exists i :: 0 <= i < |s| && IsDigit(s[i])
  }

  /** Every new base holds a digit: the incremented number or the appended "02". */
  lemma NextBaseHasDigit(s: string)
    ensures HasDigit(NextBase(s))
  {
    match MatchAssignment(s)
    case Some(a) =>
      AssignmentHasDigit(a);
    case None =>
      match SearchTrailing(s)
      case Some(m) =>
        TrailingHasDigit(m);
        assert NextBase(s) == m.prefix + Increment(m.number) + m.suffix;
      case None =>
        assert (s + "02")[|s|] == '0';
  }

  lemma AssignmentHasDigit(a: AssignmentName)
    requires WellFormed(a)
    ensures HasDigit(Compose(a.(version := Increment(a.version))))
  {
    var a' := a.(version := Increment(a.version));
    IncrementFacts(a.version);
    ComposeSplit(a');
    var r := Compose(a');
    assert r[|r| - 1] == a'.version[|a'.version| - 1];
  }

  lemma TrailingHasDigit(m: TrailingMatch)
    requires m.number != [] && AllDigits(m.number)
    ensures HasDigit(m.prefix + Increment(m.number) + m.suffix)
  {
    var inc := Increment(m.number);
    IncrementFacts(m.number);
    assert (m.prefix + inc + m.suffix)[|m.prefix|] == inc[0];
  }

  /** The new file name is never empty, so the joined path never is either. */
  lemma NextFileNameNonEmpty(fileName: string, defaultExt: string)
    ensures NextFileName(fileName, defaultExt) != []
    ensures forall dir :: Join(dir, NextFileName(fileName, defaultExt)) != []
  {
    NextBaseHasDigit(SplitExt(fileName).0);
  }

  /** A base without '/' gives a new base without '/'. */
  lemma NextBaseIsPlain(s: string)
    requires Lacks(s, '/')
    ensures Lacks(NextBase(s), '/')
  {
    match MatchAssignment(s)
    case Some(a) =>
      AssignmentStaysPlain(s, a);
    case None =>
      match SearchTrailing(s)
      case Some(m) =>
        TrailingStaysPlain(s, m);
        assert NextBase(s) == m.prefix + Increment(m.number) + m.suffix;
      case None =>
        LacksAppend(s, "02", '/');
  }

  lemma AssignmentStaysPlain(s: string, a: AssignmentName)
    requires Lacks(s, '/') && MatchAssignment(s) == Some(a)
    ensures Lacks(Compose(a.(version := Increment(a.version))), '/')
  {
    var v := a.version;
    var a' := a.(version := Increment(v));
    var front := VersionFront(a);
    ComposeSplit(a);
    ComposeSplit(a');
    assert VersionFront(a') == front;
    LacksAppend(front, v, '/');
    IncrementFacts(v);
    LacksAppend(front, Increment(v), '/');
  }

  lemma TrailingStaysPlain(s: string, m: TrailingMatch)
    requires Lacks(s, '/') && MatchesAt(s, m)
    ensures Lacks(m.prefix + Increment(m.number) + m.suffix, '/')
  {
    var inc := Increment(m.number);
    IncrementFacts(m.number);
    LacksSlice(s, m.start, |s|, '/');
    LacksAppend(m.prefix, m.number, '/');
    LacksAppend(m.prefix + m.number, m.suffix, '/');
    LacksAppend(m.prefix, inc, '/');
    LacksAppend(m.prefix + inc, m.suffix, '/');
  }

  /**
    A plain file name becomes a plain file name whose stem is the new base and whose
    extension is the fixed one, so it stays in the same directory once joined to it.
  */
  lemma NextFileNameSplits(fileName: string, defaultExt: string)
    requires Lacks(fileName, '/')
    requires defaultExt == ".ma" || defaultExt == ".mb"
    ensures Lacks(NextFileName(fileName, defaultExt), '/')
    ensures SplitExt(NextFileName(fileName, defaultExt))
         == (NextBase(SplitExt(fileName).0), FixExtension(SplitExt(fileName).1, defaultExt))
    ensures IsMayaExtension(SplitExt(NextFileName(fileName, defaultExt)).1)
  {
    var (base, ext) := SplitExt(fileName);
    LacksAppend(base, ext, '/');
    ExtensionShape(fileName);
    FixedExtensionShape(ext, defaultExt);
    NewStemSplits(base, FixExtension(ext, defaultExt));
  }

  /** The extension the new name gets is a non-empty Maya extension. */
  lemma FixedExtensionShape(ext: string, defaultExt: string)
    requires IsExtension(ext) && Lacks(ext, '/')
    requires defaultExt == ".ma" || defaultExt == ".mb"
    ensures FixExtension(ext, defaultExt) != [] && IsExtension(FixExtension(ext, defaultExt))
    ensures Lacks(FixExtension(ext, defaultExt), '/') && IsMayaExtension(FixExtension(ext, defaultExt))
  {
    if IsMayaExtension(ext) {
      assert |Lower(ext)| == 3;
    } else {
      DefaultShape(defaultExt);
    }
  }

  lemma DefaultShape(d: string)
    requires d == ".ma" || d == ".mb"
    ensures d != [] && IsExtension(d) && Lacks(d, '/') && IsMayaExtension(d)
  {
    assert d[1..] == "ma" || d[1..] == "mb";
    assert Lower(".ma") == ".ma";
    assert Lower(".mb") == ".mb";
  }

  /** The new stem followed by a non-empty extension splits back into the two. */
  lemma NewStemSplits(base: string, ext: string)
    requires Lacks(base, '/') && Lacks(ext, '/')
    requires ext != [] && IsExtension(ext)
    ensures Lacks(NextBase(base) + ext, '/')
    ensures SplitExt(NextBase(base) + ext) == (NextBase(base), ext)
  {
    var nb := NextBase(base);
    NextBaseIsPlain(base);
    NextBaseHasDigit(base);
    LacksAppend(nb, ext, '/');
    BasenameOfPlain(nb);
    var i :| 0 <= i < |nb| && IsDigit(nb[i]);
    assert nb[i] != '.';
    SplitExtAppend(nb, ext);
  }

  // =====================================================================
  // Where the last digit run is found

  lemma LastDigitEndAt(s: string, e: nat)
    requires 0 < e <= |s| && IsDigit(s[e - 1]) && NonDigitsIn(s, e, |s|)
    ensures LastDigitEnd(s) == e
  {
    var x := LastDigitEnd(s);
    SliceDigits(s, x, |s|);
  }

  lemma RunStartAt(s: string, e: nat, i: nat)
    requires i < e <= |s| && DigitsIn(s, i, e) && (i == 0 || !IsDigit(s[i - 1]))
    ensures RunStart(s, e) == i
  {
    var r := RunStart(s, e);
    SliceDigits(s, r, e);
  }

  /**
    For any base `pre + d + suf` whose last digit run is exactly `d`, the search
    puts `d` in the number group and `suf` in the suffix group, and its match
    starts just after the last digit of `pre`.
  */
  lemma SearchOfLastRun(pre: string, d: string, suf: string)
    requires d != [] && AllDigits(d) && NoDigits(suf)
    requires pre == [] || !IsDigit(pre[|pre| - 1])
    ensures SearchTrailing(pre + d + suf)
         == Some(TrailingMatch(LastDigitEnd(pre), pre[LastDigitEnd(pre)..], d, suf))
  {
    var s := pre + d + suf;
    var i, e := |pre|, |pre| + |d|;
    LastRunBounds(pre, d, suf);
    ThreeParts(pre, d, suf);
    SearchAt(s, e, i, pre, d, suf);
  }

  /** The three pieces of a concatenation, read back by slicing. */
  /** The tail from `p` is cut at `i` and `e`, and the prefix up to `i` agrees with `s` below `i`. */
  lemma SliceParts(s: string, p: nat, i: nat, e: nat)
    requires p <= i <= e <= |s|
    ensures s[..i][p..] == s[p..i]
    ensures s[p..] == s[p..i] + s[i..e] + s[e..]
    ensures p > 0 ==> s[p - 1] == s[..i][p - 1]
  {
    assert s[p..] == s[p..i] + s[i..e] + s[e..];
  }

  lemma ThreeParts(a: string, b: string, c: string)
    ensures (a + b + c)[..|a|] == a
    ensures (a + b + c)[|a|..|a| + |b|] == b
    ensures (a + b + c)[|a| + |b|..] == c
  {
    var s := a + b + c;
    assert s[..|a|] == a;
    assert s[|a|..|a| + |b|] == b;
    assert s[|a| + |b|..] == c;
  }

  /** The search, unfolded once given where the last run ends (`e`) and starts (`i`). */
  lemma SearchAt(s: string, e: nat, i: nat, front: string, number: string, suffix: string)
    requires 0 < e == LastDigitEnd(s) && i == RunStart(s, e)
    requires front == s[..i] && number == s[i..e] && suffix == s[e..]
    ensures SearchTrailing(s)
         == Some(TrailingMatch(LastDigitEnd(front), front[LastDigitEnd(front)..], number, suffix))
  {
    var p := LastDigitEnd(front);
    assert s[p..i] == front[p..];
  }

  lemma LastRunBounds(pre: string, d: string, suf: string)
    requires d != [] && AllDigits(d) && NoDigits(suf)
    requires pre == [] || !IsDigit(pre[|pre| - 1])
    ensures LastDigitEnd(pre + d + suf) == |pre| + |d|
    ensures RunStart(pre + d + suf, |pre| + |d|) == |pre|
  {
    var s := pre + d + suf;
    var i, e := |pre|, |pre| + |d|;
    ThreeParts(pre, d, suf);
    SliceDigits(s, i, e);
    SliceDigits(s, e, |s|);
    assert i > 0 ==> s[i - 1] == pre[|pre| - 1];
    LastDigitEndAt(s, e);
    RunStartAt(s, e, i);
  }

  /**
    As written, a base `pre + d + suf` whose last digit run is `d` becomes only
    what follows the previous digit run of `pre`, then the new number, then `suf`.
  */
  lemma NextBaseAsWritten(pre: string, d: string, suf: string)
    requires d != [] && AllDigits(d) && NoDigits(suf)
    requires pre == [] || !IsDigit(pre[|pre| - 1])
    requires MatchAssignment(pre + d + suf).None?
    ensures NextBase(pre + d + suf) == pre[LastDigitEnd(pre)..] + Increment(d) + suf
  {
    SearchOfLastRun(pre, d, suf);
  }

  /** The intended rule: the last digit run is incremented and everything before the match is kept. */
  function NextBaseKeepingFront(base: string): string {
    match MatchAssignment(base)
    case Some(a) => Compose(a.(version := Increment(a.version)))
    case None =>
      match SearchTrailing(base)
      case Some(m) => base[..m.start] + m.prefix + Increment(m.number) + m.suffix
      case None => base + "02"
  }

  /** Only the last digit run changes. */
  lemma LastRunKeepsFront(pre: string, d: string, suf: string)
    requires d != [] && AllDigits(d) && NoDigits(suf)
    requires pre == [] || !IsDigit(pre[|pre| - 1])
    requires MatchAssignment(pre + d + suf).None?
    ensures NextBaseKeepingFront(pre + d + suf) == pre + Increment(d) + suf
  {
    var s := pre + d + suf;
    SearchOfLastRun(pre, d, suf);
    var p := LastDigitEnd(pre);
    var inc := Increment(d);
    assert NextBaseKeepingFront(s) == s[..p] + pre[p..] + inc + suf;
    TakeOfAppend(pre, d, p);
    TakeOfAppend(pre + d, suf, p);
    Regroup4(pre[..p], pre[p..], inc, suf);
    assert pre[..p] + pre[p..] == pre;
  }

  lemma TakeOfAppend(a: string, b: string, n: nat)
    requires n <= |a|
    ensures (a + b)[..n] == a[..n]
  {
  }

  /** The text the as-written rule drops: everything before the match. */
  function DroppedFront(s: string): (r: string)
    ensures r <= s
  {
    match SearchTrailing(s)
    case Some(m) => s[..m.start]
    case None => []
  }

  /** The intended name is the dropped text followed by the as-written name. */
  lemma KeepingFrontAddsDropped(s: string)
    requires MatchAssignment(s).None?
    ensures NextBaseKeepingFront(s) == DroppedFront(s) + NextBase(s)
  {
    match SearchTrailing(s)
    case None =>
      assert DroppedFront(s) == [];
    case Some(m) =>
      var inc := Increment(m.number);
      assert NextBase(s) == m.prefix + inc + m.suffix;
      assert NextBaseKeepingFront(s) == s[..m.start] + m.prefix + inc + m.suffix;
      Regroup4(s[..m.start], m.prefix, inc, m.suffix);
  }

  lemma Regroup4(w: string, x: string, y: string, z: string)
    ensures w + x + y + z == w + (x + y + z)
  {
  }

  /** Text is dropped exactly when the base's digits form more than one run. */
  lemma DroppedIffGap(s: string)
    ensures DroppedFront(s) != [] <==> HasGap(s)
  {
    match SearchTrailing(s)
    case None =>
      NoMatchNoGap(s);
    case Some(m) =>
      if m.start > 0 {
        LaterStartHasGap(s, m);
      } else {
        ZeroStartNoGap(s, m);
      }
  }

  /** The two rules agree exactly on the bases whose digits form at most one run. */
  lemma FrontDropped(s: string)
    requires MatchAssignment(s).None?
    ensures NextBaseKeepingFront(s) == NextBase(s) <==> !HasGap(s)
  {
    KeepingFrontAddsDropped(s);
    DroppedIffGap(s);
    assert |DroppedFront(s) + NextBase(s)| == |DroppedFront(s)| + |NextBase(s)|;
  }

  lemma NoMatchNoGap(s: string)
    requires SearchTrailing(s).None?
    ensures !HasGap(s)
  {
    if HasGap(s) {
      var i, j, k :| 0 <= i < j < k < |s| && IsDigit(s[i]) && !IsDigit(s[j]) && IsDigit(s[k]);
      ExistsMatchAtDigitRun(s, k);
    }
  }

  lemma LaterStartHasGap(s: string, m: TrailingMatch)
    requires SearchTrailing(s) == Some(m) && m.start > 0
    ensures HasGap(s)
  {
    MatchRanges(s, m);
    var a := m.start + |m.prefix|;
    assert IsDigit(s[m.start - 1]) && !IsDigit(s[m.start]) && IsDigit(s[a]);
  }

  lemma ZeroStartNoGap(s: string, m: TrailingMatch)
    requires SearchTrailing(s) == Some(m) && m.start == 0
    ensures !HasGap(s)
  {
    MatchRanges(s, m);
  }

  /** A string with a digit has a match of the trailing pattern. */
  lemma ExistsMatchAtDigitRun(s: string, k: nat)
    requires k < |s| && IsDigit(s[k])
    ensures SearchTrailing(s).Some?
  {
    assert LastDigitEnd(s) > 0 by {
      var e := LastDigitEnd(s);
      SliceDigits(s, e, |s|);
    }
  }
}
