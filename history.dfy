/**
  The version history of Old/tempv02.py, temp04.py/temp04.py and Old/temp04.py/temp04.py
  (`VersionHistoryModel`): a dictionary from a group key to the records of that group,
  newest first and at most 50 long, kept in the dictionary's insertion order.

  The group key comes from `re.search(r'(\D*?)(\d+)([^/\\]*?)$', basename)`, encoded
  directly by `KeySearch` and proved to be the leftmost match of the pattern.
*/
module History {
  import opened Wrappers
  import opened Digits
  import opened Paths
  import opened Naming

  // =====================================================================
  // The group key

  predicate IsSep(c: char) {
    c == '/' || c == '\\'
  }

  /** No separator at or after index `j`. */
  predicate NoSepFrom(s: string, j: nat) {
    forall k :: j <= k < |s| ==> !IsSep(s[k])
  }

  /** Index of the first digit of `s`, or |s| when there is none. */
  function FirstDigit(s: string): (i: nat)
    ensures i <= |s|
    ensures forall k :: 0 <= k < i ==> !IsDigit(s[k])
    ensures i < |s| ==> IsDigit(s[i])
  {
    if s == [] || IsDigit(s[0]) then 0
    else
      var i := 1 + FirstDigit(s[1..]);
      assert forall k :: 1 <= k < i ==> s[k] == s[1..][k - 1];
      i
  }

  /** Index of the last separator of `s`, or -1. */
  function LastSep(s: string): (i: int)
    ensures -1 <= i < |s|
    ensures i >= 0 ==> IsSep(s[i])
    ensures NoSepFrom(s, i + 1)
  {
    if s == [] then -1
    else if IsSep(s[|s| - 1]) then |s| - 1
    else LastSep(s[..|s| - 1])
  }

  /** A match of the lazy pattern: group 1 is `s[start..digit]`, the digit run starts at `digit`. */
  datatype KeyMatch = KeyMatch(start: nat, digit: nat)

  /** Reference reading of the pattern at `start`: non-digits, then a digit, and no separator from there to the end. */
  predicate KeyMatchAt(s: string, m: KeyMatch) {
    && m.start <= m.digit < |s|
    && NonDigitsIn(s, m.start, m.digit)
    && IsDigit(s[m.digit])
    && NoSepFrom(s, m.digit)
  }

  /**
    The regex engine's answer: from 0 when no separator follows the first digit,
    otherwise from just after the last digit before the last separator, with the
    first digit after that separator.
  */
  function KeySearch(s: string): (r: Option<KeyMatch>)
    ensures r.Some? ==> KeyMatchAt(s, r.value)
  {
    var j0 := FirstDigit(s);
    if j0 == |s| then None
    else
      var b := LastSep(s);
      if b < j0 then Some(KeyMatch(0, j0))
      else
        var j := b + 1 + FirstDigit(s[b + 1..]);
        if j == |s| then None
        else
          var q := LastDigitEnd(s[..b]);
          AfterLastDigit(s, b, q, j);
          Some(KeyMatch(q, j))
  }

  lemma AfterLastDigit(s: string, b: nat, q: nat, j: nat)
    requires b < j < |s| && IsSep(s[b]) && q == LastDigitEnd(s[..b])
    requires forall k :: b + 1 <= k < j ==> !IsDigit(s[k])
    ensures q <= b && NonDigitsIn(s, q, j)
  {
    assert NoDigits(s[..b][q..]);
    assert forall k :: q <= k < b ==> s[k] == s[..b][q..][k - q];
  }

  /** Any match starts no earlier than the search's, and none exists when the search finds none. */
  lemma KeySearchIsLeftmost(s: string, m: KeyMatch)
    requires KeyMatchAt(s, m)
    ensures KeySearch(s).Some? && KeySearch(s).value.start <= m.start
  {
    var j0 := FirstDigit(s);
    var b := LastSep(s);
    assert j0 <= m.digit;
    if b >= j0 {
      assert b < m.digit;
      var j := b + 1 + FirstDigit(s[b + 1..]);
      assert forall k :: b + 1 <= k < j ==> s[k] == s[b + 1..][k - b - 1];
      assert m.digit < |s| && IsDigit(s[b + 1..][m.digit - b - 1]);
      var q := LastDigitEnd(s[..b]);
      assert s[..b][j0] == s[j0];
      assert q > 0 && IsDigit(s[..b][q - 1]);
    }
  }

  /** The key part of a record's path: the directory joined with group 1, or the directory alone. */
  function StoreKey(path: string): (k: string)
  {
    var name := Basename(path);
    match KeySearch(name)
    case Some(m) => Join(Dirname(path), name[m.start..m.digit])
    case None => Dirname(path)
  }

  /** The key `get_versions_for_file` tries: only when the pattern matches. */
  function LookupKey(path: string): (k: Option<string>)
    ensures k.Some? ==> k.value == StoreKey(path)
  {
    var name := Basename(path);
    match KeySearch(name)
    case Some(m) => Some(Join(Dirname(path), name[m.start..m.digit]))
    case None => None
  }

  /**
    A name with no separator is keyed by its text before the first digit, so every
    name sharing that text in one directory shares the group (shot01.ma, shot02.ma,
    shot01_backup_20250101_120000.ma).
  */
  lemma KeyIsTextBeforeFirstDigit(dir: string, front: string, rest: string)
    requires IsDirForm(dir) && NoDigits(front)
    requires rest != [] && IsDigit(rest[0])
    requires NoSepFrom(front + rest, 0)
    ensures StoreKey(Join(dir, front + rest)) == Join(dir, front)
    ensures LookupKey(Join(dir, front + rest)) == Some(Join(dir, front))
  {
    var name := front + rest;
    assert Lacks(name, '/') by {
      assert forall k :: 0 <= k < |name| ==> !IsSep(name[k]);
    }
    JoinSplits(dir, name);
    SearchFromStart(front, rest);
    assert name[..|front|] == front;
  }

  /** A name without any digit is keyed by its directory alone, and the lookup tries no key. */
  lemma KeyOfNameWithoutDigit(path: string)
    requires NoDigits(Basename(path))
    ensures StoreKey(path) == Dirname(path)
    ensures LookupKey(path).None?
  {
    var name := Basename(path);
    assert FirstDigit(name) == |name|;
  }

  lemma SearchFromStart(front: string, rest: string)
    requires NoDigits(front)
    requires rest != [] && IsDigit(rest[0])
    requires NoSepFrom(front + rest, 0)
    ensures KeySearch(front + rest) == Some(KeyMatch(0, |front|))
  {
    var name := front + rest;
    var j0 := FirstDigit(name);
    assert name[|front|] == rest[0];
    assert forall k :: 0 <= k < |front| ==> name[k] == front[k];
    assert j0 == |front|;
    assert LastSep(name) == -1;
  }

  // =====================================================================
  // Records and the store

  /** One history entry; the date string is not modelled and the timestamp is the caller's integer. */
  datatype Record = Record(path: string, filename: string, timestamp: int, notes: string)

  const MaxPerGroup: nat := 50

  /** The record `add_version(path, notes)` builds. */
  function NewRecord(path: string, notes: string, timestamp: int): (r: Record)
    ensures r.path == path && r.filename == Basename(path) && r.notes == notes && r.timestamp == timestamp
  {
    Record(path, Basename(path), timestamp, notes)
  }

  /** The dictionary of groups and the order in which its keys were first inserted. */
  datatype Store = Store(groups: map<string, seq<Record>>, order: seq<string>)

  predicate Distinct(s: seq<string>) {
    forall i, j :: 0 <= i < j < |s| ==> s[i] != s[j]
  }

  /** The order lists every key once, and every record sits in the group of its own path's key. */
  ghost predicate WellKept(st: Store) {
    && (forall k :: k in st.groups ==> k in st.order)
    && (forall k :: k in st.order ==> k in st.groups)
    && Distinct(st.order)
    && (forall k, i :: k in st.groups && 0 <= i < |st.groups[k]| ==> StoreKey(st.groups[k][i].path) == k)
  }

  /** Every group holds at most 50 records. */
  predicate Bounded(st: Store) {
    forall k :: k in st.groups ==> |st.groups[k]| <= MaxPerGroup
  }

  function GroupOf(st: Store, key: string): seq<Record> {
    if key in st.groups then st.groups[key] else []
  }

  function Min(a: int, b: int): int {
    if a < b then a else b
  }

  /**
    `add_version`: the record goes to the front of the group of its key, which is
    created at the end of the dictionary order when missing; only the oldest records
    beyond 50 are cut, and every other group is left as it was.
  */
  function Added(st: Store, rec: Record): (r: Store)
    ensures r.groups.Keys == st.groups.Keys + {StoreKey(rec.path)}
    ensures forall k :: k in st.groups && k != StoreKey(rec.path) ==> r.groups[k] == st.groups[k]
    ensures r.groups[StoreKey(rec.path)] <= [rec] + GroupOf(st, StoreKey(rec.path))
    ensures |r.groups[StoreKey(rec.path)]| == Min(MaxPerGroup, |GroupOf(st, StoreKey(rec.path))| + 1)
    ensures r.order == st.order + if StoreKey(rec.path) in st.groups then [] else [StoreKey(rec.path)]
  {
    var key := StoreKey(rec.path);
    var vs := [rec] + GroupOf(st, key);
    var order := if key in st.groups then st.order else st.order + [key];
    Store(st.groups[key := if |vs| > MaxPerGroup then vs[..MaxPerGroup] else vs], order)
  }

  // ---------------------------------------------------------------------
  // get_versions_for_file

  predicate Holds(vs: seq<Record>, path: string) {
    exists i :: 0 <= i < |vs| && vs[i].path == path
  }

  /** The first group, in the order of `keys`, holding a record of `path`, or nothing. */
  function Scan(st: Store, keys: seq<string>, path: string): seq<Record>
    requires forall k :: k in keys ==> k in st.groups
  {
    if keys == [] then []
    else if Holds(st.groups[keys[0]], path) then st.groups[keys[0]]
    else Scan(st, keys[1..], path)
  }

  /** `get_versions_for_file`: the group of the path's key, else the first group holding the path, else nothing. */
  function Lookup(st: Store, path: string): seq<Record>
    requires WellKept(st)
  {
    match LookupKey(path)
    case Some(k) => if k in st.groups then st.groups[k] else Scan(st, st.order, path)
    case None => Scan(st, st.order, path)
  }

  // ---------------------------------------------------------------------
  // get_recent_versions

  /** The groups' lists concatenated in the order of `keys`. */
  function Flatten(st: Store, keys: seq<string>): seq<Record>
    requires forall k :: k in keys ==> k in st.groups
  {
    if keys == [] then [] else Flatten(st, keys[..|keys| - 1]) + st.groups[keys[|keys| - 1]]
  }

  predicate SortedDesc(s: seq<Record>) {
    forall i, j :: 0 <= i < j < |s| ==> s[i].timestamp >= s[j].timestamp
  }

  /** Insert `x` before the first record that is not newer than it. */
  function Insert(x: Record, s: seq<Record>): (r: seq<Record>)
    ensures multiset(r) == multiset(s) + multiset{x}
    ensures r[0] == x || (s != [] && r[0] == s[0])
    ensures SortedDesc(s) ==> SortedDesc(r)
  {
    if s == [] || s[0].timestamp <= x.timestamp then
      SortedCons(x, s);
      [x] + s
    else
      assert s == [s[0]] + s[1..];
      var rest := Insert(x, s[1..]);
      assert SortedDesc(s) ==> s[0].timestamp >= rest[0].timestamp;
      SortedCons(s[0], rest);
      [s[0]] + rest
  }

  /** A record no older than the head of a sorted list can go in front of it. */
  lemma SortedCons(h: Record, t: seq<Record>)
    ensures SortedDesc(t) && (t == [] || h.timestamp >= t[0].timestamp) ==> SortedDesc([h] + t)
  {
    if SortedDesc(t) && (t == [] || h.timestamp >= t[0].timestamp) {
      forall i, j | 0 <= i < j < |[h] + t|
        ensures ([h] + t)[i].timestamp >= ([h] + t)[j].timestamp
      {
        if i == 0 && j > 1 {
          assert t[0].timestamp >= t[j - 1].timestamp;
        }
      }
    }
  }

  /** `sorted(records, key=timestamp, reverse=True)`, an insertion sort from the back. */
  function SortDesc(s: seq<Record>): (r: seq<Record>)
    ensures multiset(r) == multiset(s)
    ensures SortedDesc(r)
  {
    if s == [] then []
    else
      assert s == [s[0]] + s[1..];
      Insert(s[0], SortDesc(s[1..]))
  }

  /** The records with timestamp `t`, in their order. */
  function WithTimestamp(s: seq<Record>, t: int): seq<Record> {
    if s == [] then []
    else (if s[0].timestamp == t then [s[0]] else []) + WithTimestamp(s[1..], t)
  }

  /** Python's `s[:n]` for any integer `n`. */
  function PrefixTo(s: seq<Record>, n: int): (r: seq<Record>)
    ensures r <= s
    ensures n >= 0 ==> |r| == Min(n, |s|)
    ensures n < 0 ==> |r| == if |s| + n > 0 then |s| + n else 0
  {
    if n >= 0 then (if n < |s| then s[..n] else s)
    else if |s| + n > 0 then s[..|s| + n] else []
  }

  /** `get_recent_versions(count)` */
  function Recent(st: Store, count: int): seq<Record>
    requires WellKept(st)
  {
    PrefixTo(SortDesc(Flatten(st, st.order)), count)
  }

  // ---------------------------------------------------------------------
  // Properties of the store

  /** add_version keeps every record in its own key's group, each key listed once, and every group within 50. */
  lemma AddedWellKept(st: Store, rec: Record)
    requires WellKept(st)
    ensures WellKept(Added(st, rec))
    ensures Bounded(st) ==> Bounded(Added(st, rec))
  {
    var key := StoreKey(rec.path);
    var r := Added(st, rec);
    var g := r.groups[key];
    forall i | 0 <= i < |g|
      ensures StoreKey(g[i].path) == key
    {
      if i > 0 {
        assert g[i] == GroupOf(st, key)[i - 1];
      }
    }
  }

  /** Right after `add_version(p)`, looking up `p` gives its group with the new record first. */
  lemma LookupAfterAdd(st: Store, rec: Record)
    requires WellKept(st)
    ensures WellKept(Added(st, rec))
    ensures Lookup(Added(st, rec), rec.path) == Added(st, rec).groups[StoreKey(rec.path)]
    ensures Lookup(Added(st, rec), rec.path)[0] == rec
  {
    AddedWellKept(st, rec);
    var r := Added(st, rec);
    var key := StoreKey(rec.path);
    if LookupKey(rec.path).None? {
      assert r.groups[key][0] == rec;
      assert key in r.order;
      ScanFindsOwnGroup(r, r.order, rec.path);
    }
  }

  /** In a well-kept store the only group that can hold a path is the group of that path's key. */
  lemma {:induction false} ScanFindsOwnGroup(st: Store, keys: seq<string>, path: string)
    requires WellKept(st)
    requires forall k :: k in keys ==> k in st.groups
    requires StoreKey(path) in keys && Holds(st.groups[StoreKey(path)], path)
    ensures Scan(st, keys, path) == st.groups[StoreKey(path)]
  {
    var key := StoreKey(path);
    if keys[0] != key {
      assert key in keys[1..];
      ScanFindsOwnGroup(st, keys[1..], path);
    }
  }

  /** The scan gives the first group holding the path, and nothing exactly when no group holds it. */
  lemma {:induction false} ScanIsFirst(st: Store, keys: seq<string>, path: string)
    requires forall k :: k in keys ==> k in st.groups
    ensures Scan(st, keys, path) == [] <==> forall i :: 0 <= i < |keys| ==> !Holds(st.groups[keys[i]], path)
    ensures Scan(st, keys, path) != [] ==>
      exists i :: 0 <= i < |keys| && Holds(st.groups[keys[i]], path) && Scan(st, keys, path) == st.groups[keys[i]] &&
        forall j :: 0 <= j < i ==> !Holds(st.groups[keys[j]], path)
  {
    if keys != [] {
      ScanIsFirst(st, keys[1..], path);
      if !Holds(st.groups[keys[0]], path) && Scan(st, keys, path) != [] {
        var i :| 0 <= i < |keys[1..]| && Holds(st.groups[keys[1..][i]], path) &&
          Scan(st, keys[1..], path) == st.groups[keys[1..][i]] &&
          forall j :: 0 <= j < i ==> !Holds(st.groups[keys[1..][j]], path);
        assert forall j :: 1 <= j < i + 1 ==> keys[j] == keys[1..][j - 1];
        assert keys[i + 1] == keys[1..][i];
      }
      assert forall i :: 1 <= i < |keys| ==> keys[i] == keys[1..][i - 1];
    }
  }

  /** Inserting `x` adds it to the records of its own timestamp ahead of them and changes no other timestamp's records. */
  lemma {:induction false} InsertStable(x: Record, s: seq<Record>, t: int)
    ensures WithTimestamp(Insert(x, s), t) == (if x.timestamp == t then [x] else []) + WithTimestamp(s, t)
  {
    var mx := if x.timestamp == t then [x] else [];
    if s == [] || s[0].timestamp <= x.timestamp {
      WithTimestampCons(x, s, t);
    } else {
      var rest := Insert(x, s[1..]);
      var m0 := if s[0].timestamp == t then [s[0]] else [];
      WithTimestampCons(s[0], rest, t);
      InsertStable(x, s[1..], t);
      SwapEmpty(m0, mx, WithTimestamp(s[1..], t));
      calc {
        WithTimestamp(Insert(x, s), t);
        m0 + WithTimestamp(rest, t);
        m0 + (mx + WithTimestamp(s[1..], t));
        mx + (m0 + WithTimestamp(s[1..], t));
        mx + WithTimestamp(s, t);
      }
    }
  }

  /** Two lists of which one is empty can be swapped in front of a third. */
  lemma SwapEmpty(a: seq<Record>, b: seq<Record>, c: seq<Record>)
    requires a == [] || b == []
    ensures a + (b + c) == b + (a + c)
  {
    if a == [] {
      assert a + (b + c) == b + c;
    } else {
      assert b + (a + c) == a + c;
    }
  }

  lemma WithTimestampCons(h: Record, s: seq<Record>, t: int)
    ensures WithTimestamp([h] + s, t) == (if h.timestamp == t then [h] else []) + WithTimestamp(s, t)
  {
    assert ([h] + s)[1..] == s;
  }

  /** The sort is stable: the records of any one timestamp keep their original order. */
  lemma {:induction false} SortStable(s: seq<Record>, t: int)
    ensures WithTimestamp(SortDesc(s), t) == WithTimestamp(s, t)
  {
    if s != [] {
      SortStable(s[1..], t);
      InsertStable(s[0], SortDesc(s[1..]), t);
    }
  }

  /**
    `get_recent_versions(count)` returns the first `count` of all records in non-increasing
    timestamp order (all of them when fewer), drawn from the groups, ties in dictionary order.
  */
  lemma RecentFacts(st: Store, count: int)
    requires WellKept(st)
    ensures SortedDesc(Recent(st, count))
    ensures multiset(Recent(st, count)) <= multiset(Flatten(st, st.order))
    ensures count >= 0 ==> |Recent(st, count)| == Min(count, |Flatten(st, st.order)|)
    ensures Recent(st, count) <= SortDesc(Flatten(st, st.order))
  {
    var all := SortDesc(Flatten(st, st.order));
    var r := Recent(st, count);
    assert all == r + all[|r|..];
    assert multiset(all) == multiset(r) + multiset(all[|r|..]);
  }

  /** The inner loop of the scan: does any record of `vs` have this path? */
  method ContainsPath(vs: seq<Record>, path: string) returns (found: bool)
    ensures found <==> Holds(vs, path)
  {
    var j := 0;
    while j < |vs|
      invariant 0 <= j <= |vs|
      invariant forall m :: 0 <= m < j ==> vs[m].path != path
    {
      if vs[j].path == path {
        return true;
      }
      j := j + 1;
    }
    return false;
  }

  // =====================================================================
  // VersionHistoryModel

  /** The in-memory history: `versions`, a dictionary of groups, and its key order. */
  class VersionHistory {
    var groups: map<string, seq<Record>>
    var order: seq<string>

    function State(): Store
      reads this
    {
      Store(groups, order)
    }

    ghost predicate Valid()
      reads this
    {
      WellKept(State()) && Bounded(State())
    }

    /** An empty history; loading the saved JSON file is not modelled. */
    constructor ()
      ensures Valid()
      ensures groups == map[] && order == []
    {
      groups := map[];
      order := [];
    }

    /** `add_version(file_path, notes)` with the clock reading passed in as `timestamp`. */
    method AddVersion(filePath: string, notes: string, timestamp: int) returns (rec: Record)
      requires Valid()
      modifies this
      ensures Valid()
      ensures rec == NewRecord(filePath, notes, timestamp)
      ensures State() == Added(old(State()), rec)
    {
      var baseName := Basename(filePath);
      var key := StoreKey(filePath);
      ghost var st := State();
      if key !in groups {
        groups := groups[key := []];
        order := order + [key];
      }
      assert groups[key] == GroupOf(st, key);
      rec := Record(filePath, baseName, timestamp, notes);
      ghost var vs := [rec] + GroupOf(st, key);
      groups := groups[key := [rec] + groups[key]];
      if |groups[key]| > MaxPerGroup {
        groups := groups[key := groups[key][..MaxPerGroup]];
      }
      ghost var after := Added(st, rec);
      assert groups == st.groups[key := if |vs| > MaxPerGroup then vs[..MaxPerGroup] else vs];
      assert State() == after;
      AddedWellKept(st, rec);
    }

    /** `get_recent_versions(count)`: gather every group in order, sort newest first, keep `[:count]`. */
    method GetRecentVersions(count: int) returns (r: seq<Record>)
      requires Valid()
      ensures r == Recent(State(), count)
    {
      var all: seq<Record> := [];
      var i := 0;
      while i < |order|
        invariant 0 <= i <= |order|
        invariant all == Flatten(State(), order[..i])
      {
        assert order[..i + 1][..i] == order[..i];
        all := all + groups[order[i]];
        i := i + 1;
      }
      assert order[..|order|] == order;
      r := PrefixTo(SortDesc(all), count);
    }

    /** `get_versions_for_file(file_path)`: the key's group, else a scan of every record's path. */
    method GetVersionsForFile(filePath: string) returns (r: seq<Record>)
      requires Valid()
      ensures r == Lookup(State(), filePath)
    {
      var key := LookupKey(filePath);
      if key.Some? && key.value in groups {
        return groups[key.value];
      }
      var i := 0;
      while i < |order|
        invariant 0 <= i <= |order|
        invariant Scan(State(), order[i..], filePath) == Scan(State(), order, filePath)
      {
        var versions := groups[order[i]];
        var found := ContainsPath(versions, filePath);
        if found {
          return versions;
        }
        assert order[i..][1..] == order[i + 1..];
        i := i + 1;
      }
      return [];
    }
  }
}
