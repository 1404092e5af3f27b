/**
  The deterministic helpers of the Save Plus panel in src/savePlus_main.py: the
  shortened path shown in the interface, the version preview, the name generator's
  format, the "Use New Name" picker and the choice of the save directory. The
  widgets' values, the current scene and the files on disk are parameters.
*/
module Panel {
  import opened Wrappers
  import opened Digits
  import opened Paths
  import opened Naming
  import opened SavePlus

  // =====================================================================
  // truncate_path

  /** Python's `s[:n]` for `n >= 0`. */
  function Front(s: string, n: nat): (r: string)
    ensures r <= s && |r| <= n
  {
    if n < |s| then s[..n] else s
  }

  /** Python's `s[-n:]` for `n > 0`. */
  function Back(s: string, n: nat): (r: string)
    requires n > 0
    ensures |r| <= n && |r| <= |s| && r == s[|s| - |r|..]
  {
    if n < |s| then s[|s| - n..] else s
  }

  /**
    `truncate_path(path, max_length)`: a path that fits is shown as it is; otherwise
    the file name is kept and the directory is cut in its middle (the drive of
    `splitdrive` is always empty on POSIX).
  */
  function TruncatePath(path: string, maxLength: int): (r: string)
    ensures path == [] || |path| <= maxLength ==> r == path
    ensures path != [] && |path| > maxLength ==> EndsWith(r, "/" + Basename(path))
    ensures path != [] && |path| > maxLength && maxLength - |Basename(path)| - 5 <= 0 ==>
      r == "/.../" + Basename(path)
    ensures path != [] && |path| > maxLength && maxLength - |Basename(path)| - 5 > 0 ==>
      && |r| <= maxLength + 1
      && Front(Dirname(path), (maxLength - |Basename(path)| - 5) / 2) + "/.../" <= r
      && ShortForm(r, Dirname(path), Basename(path), (maxLength - |Basename(path)| - 5) / 2)
  {
    if path == [] || |path| <= maxLength then path
    else Shorten(Dirname(path), Basename(path), maxLength - |Basename(path)| - 5)
  }

  /** The shortened form: `available` characters of the directory, split around "/.../", then the file name. */
  function Shorten(directory: string, filename: string, available: int): (r: string)
    ensures EndsWith(r, "/" + filename)
    ensures available <= 0 ==> r == "/.../" + filename
    ensures available > 0 ==>
      && |r| <= available + |filename| + 6
      && Front(directory, available / 2) + "/.../" <= r
      && ShortForm(r, directory, filename, available / 2)
  {
    if available <= 0 then
      EndsWithTail("/...", "/" + filename);
      "/.../" + filename
    else
      var half := available / 2;
      var dirStart := Front(directory, half);
      var dirEnd := if half > 0 then Back(directory, half) else "";
      var r := dirStart + "/.../" + dirEnd + "/" + filename;
      assert r == (dirStart + "/.../") + (dirEnd + "/" + filename);
      assert r == (dirStart + "/.../" + dirEnd) + ("/" + filename);
      EndsWithTail(dirStart + "/.../" + dirEnd, "/" + filename);
      MiddleOf(dirStart + "/.../", dirEnd, "/" + filename);
      assert r == (dirStart + "/.../") + dirEnd + ("/" + filename);
      r
  }

  /**
    `r` is the first `half` characters of the directory, "/.../", the last `half`
    characters of the directory (none when `half` is 0), "/" and the file name.
  */
  predicate ShortForm(r: string, directory: string, filename: string, half: int) {
    var front := Front(directory, if half < 0 then 0 else half);
    && |front| + 6 + |filename| <= |r|
    && var m := r[|front| + 5..|r| - |filename| - 1];
       && r == front + "/.../" + m + "/" + filename
       && |m| == (if half <= 0 then 0 else if half < |directory| then half else |directory|)
       && m == directory[|directory| - |m|..]
  }

  lemma MiddleOf(a: string, b: string, c: string)
    ensures (a + b + c)[|a|..|a| + |b|] == b
  {
    assert (a + b + c)[|a|..|a| + |b|] == (a + b)[|a|..];
  }

  lemma EndsWithTail(a: string, b: string)
    ensures EndsWith(a + b, b)
  {
    assert (a + b)[|a|..] == b;
  }

  // =====================================================================
  // update_version_preview

  /** The file-type dropdown: index 0 is Maya ASCII, anything else Maya Binary. */
  function DropdownExtension(index: int): (e: string)
    ensures e == ".ma" || e == ".mb"
  {
    if index == 0 then ".ma" else ".mb"
  }

  /** The new file name the preview shows, `None` for "N/A". It applies only the trailing-number rule. */
  function PreviewName(filename: string, index: int): (r: Option<string>)
    ensures r.None? <==> filename == []
  {
    if filename == [] then None
    else
      var (base, ext) := SplitExt(filename);
      Some(BumpTrailing(base) + FixExtension(ext, DropdownExtension(index)))
  }

  /** The preview line: "N/A", or the current name, an arrow and the new name. */
  function PreviewText(filename: string, index: int): (r: string)
    ensures filename == [] <==> r == "N/A"
    ensures filename != [] ==> (PreviewName(filename, index).Some?
      && Basename(filename) <= r
      && EndsWith(r, PreviewName(filename, index).value))
  {
    if filename == [] then "N/A"
    else
      var b := Basename(filename);
      var n := PreviewName(filename, index).value;
      var front := b + " \U{2192} ";
      assert front[|b| + 1] == '\U{2192}';
      EndsWithTail(front, n);
      assert b <= front + n;
      assert (front + n)[|b| + 1] == '\U{2192}';
      front + n
  }

  /** Off the assignment pattern the preview names the file the next-version rule names. */
  lemma PreviewMatchesRule(filename: string, index: int)
    requires filename != []
    requires MatchAssignment(SplitExt(filename).0).None?
    ensures PreviewName(filename, index) == Some(NextFileName(filename, DropdownExtension(index)))
    ensures IsMayaExtension(SplitExt(PreviewName(filename, index).value).1) || !Lacks(filename, '/')
  {
    if Lacks(filename, '/') {
      NextFileNameSplits(filename, DropdownExtension(index));
    }
  }

  // =====================================================================
  // generate_filename

  /** `str(n).zfill(2)` for a spin box value in 1..99: always exactly two digits. */
  function TwoDigits(n: int): (r: string)
    requires 1 <= n <= 99
    ensures |r| == 2 && AllDigits(r) && ValueOf(r) == n
  {
    ZFillFacts(Decimal(n), 2);
    DecimalWidth(n, 2);
    ZFill(Decimal(n), 2)
  }

  /**
    The name generator's `X##_Last_First_stage_status_##`; nothing when either
    name is empty. The spin boxes keep both numbers in 1..99.
  */
  function GenerateFilename(letter: string, assignment: int, last: string, first: string,
                            stage: string, status: string, version: int): (r: Option<string>)
    requires 1 <= assignment <= 99 && 1 <= version <= 99
    ensures r.None? <==> last == [] || first == []
    ensures r.Some? ==> EndsWith(r.value, "_" + TwoDigits(version))
  {
    if last == [] || first == [] then None
    else
      var head := letter + TwoDigits(assignment) + "_" + last + "_" + first + "_" + Lower(stage) + "_" + status;
      Some(head + ("_" + TwoDigits(version)))
  }

  /** Lower-casing keeps a string free of digits and underscores. */
  lemma {:induction false} LowerKeepsPlain(s: string)
    requires NoDigits(s) && Lacks(s, '_')
    ensures NoDigits(Lower(s)) && Lacks(Lower(s), '_')
  {
    if s != [] {
      LowerKeepsPlain(s[1..]);
    }
  }

  /** A generated name splits on '_' into six fields: the assignment, both names, stage, status and version. */
  lemma GeneratedFields(letter: string, assignment: int, last: string, first: string,
                        stage: string, status: string, version: int)
    requires 1 <= assignment <= 99 && 1 <= version <= 99
    requires last != [] && first != []
    requires Lacks(letter, '_') && Lacks(last, '_') && Lacks(first, '_') && Lacks(Lower(stage), '_') && Lacks(status, '_')
    ensures Fields(GenerateFilename(letter, assignment, last, first, stage, status, version).value)
      == [letter + TwoDigits(assignment), last, first, Lower(stage), status, TwoDigits(version)]
    ensures MatchAssignment(GenerateFilename(letter, assignment, last, first, stage, status, version).value).None?
  {
    GeneratedFieldList(letter, assignment, last, first, stage, status, version);
  }

  /** The split of a generated name, field by field. */
  lemma GeneratedFieldList(letter: string, assignment: int, last: string, first: string,
                           stage: string, status: string, version: int)
    requires 1 <= assignment <= 99 && 1 <= version <= 99
    requires last != [] && first != []
    requires Lacks(letter, '_') && Lacks(last, '_') && Lacks(first, '_') && Lacks(Lower(stage), '_') && Lacks(status, '_')
    ensures Fields(GenerateFilename(letter, assignment, last, first, stage, status, version).value)
      == [letter + TwoDigits(assignment), last, first, Lower(stage), status, TwoDigits(version)]
  {
    var a, v := TwoDigits(assignment), TwoDigits(version);
    var lo := Lower(stage);
    var name := GenerateFilename(letter, assignment, last, first, stage, status, version).value;
    Nest(letter + a, last, first, lo, status, v, "_");
    assert name == (letter + a) + "_" + (last + "_" + (first + "_" + (lo + "_" + (status + "_" + v))));
    DigitsLackUnderscore(a);
    DigitsLackUnderscore(v);
    LacksAppend(letter, a, '_');
    var t4 := status + "_" + v;
    var t3 := lo + "_" + t4;
    var t2 := first + "_" + t3;
    var t1 := last + "_" + t2;
    FieldsOfPlain(v);
    FieldsOfJoin(status, v);
    FieldsOfJoin(lo, t4);
    assert Fields(t3) == [lo, status, v];
    FieldsOfTwoThen(last, first, t3);
    FieldsOfJoin(letter + a, t1);
    assert Fields(name) == [letter + a] + ([last, first] + [lo, status, v]);
  }

  // =====================================================================
  // get_save_directory

  /** The panel's settings and Maya's answers that decide the save directory. */
  datatype DirectorySettings = DirectorySettings(
    respectProject: bool,      // "respect project structure" is checked
    projectDirectory: string,  // the panel's project directory, empty when unset
    useCurrentDir: bool,       // "use current directory" is checked
    selectedDirectory: string, // the directory picked in the panel, empty when none
    currentFile: string,       // the open scene, empty when unsaved
    workspace: string)         // Maya's workspace directory

  /** `get_save_directory`: the first rule of the priority chain that applies. */
  function SaveDirectory(s: DirectorySettings): (r: string)
    ensures s.respectProject && s.projectDirectory != [] ==> r == Join(s.projectDirectory, "scenes")
    ensures !(s.respectProject && s.projectDirectory != []) ==>
      (r == s.selectedDirectory <== s.selectedDirectory != [] && !(s.currentFile != [] && s.useCurrentDir))
    ensures !(s.respectProject && s.projectDirectory != []) && s.currentFile != [] ==>
      (r == Dirname(s.currentFile) <== s.useCurrentDir || s.selectedDirectory == [])
    ensures !(s.respectProject && s.projectDirectory != []) && s.currentFile == [] && s.selectedDirectory == [] ==>
      r == Join(s.workspace, "scenes")
  {
    if s.respectProject && s.projectDirectory != [] then Join(s.projectDirectory, "scenes")
    else if s.currentFile != [] && s.useCurrentDir then Dirname(s.currentFile)
    else if s.selectedDirectory != [] then s.selectedDirectory
    else if s.currentFile != [] then Dirname(s.currentFile)
    else Join(s.workspace, "scenes")
  }

  /** The workspace's scenes directory is used only when no other rule applies; a scenes directory is never empty. */
  lemma SaveDirectoryFallback(s: DirectorySettings)
    ensures Join(s.workspace, "scenes") != [] && Join(s.projectDirectory, "scenes") != []
    ensures SaveDirectory(s) == [] ==> s.currentFile != [] && Lacks(s.currentFile, '/')
  {
    if SaveDirectory(s) == [] {
      DirnameEmpty(s.currentFile);
    }
  }

  // =====================================================================
  // save_as_new: "Use New Name"

  /** `os.path.join(base_dir, f"{base_name}_{counter}{ext}")` */
  function Candidate(dir: string, base: string, ext: string, k: nat): string {
    Join(dir, base + "_" + Decimal(k) + ext)
  }

  /** The candidate for counter `k` next to the chosen file `filename`. */
  function Numbered(filename: string, k: nat): string {
    Candidate(Dirname(filename), SplitExt(Basename(filename)).0, SplitExt(Basename(filename)).1, k)
  }

  /** The names tried before counter `c`. */
  function TriedBelow(dir: string, base: string, ext: string, c: nat): set<string> {
    if c <= 1 then {} else TriedBelow(dir, base, ext, c - 1) + {Candidate(dir, base, ext, c - 1)}
  }

  lemma {:induction false} TriedBelowHolds(dir: string, base: string, ext: string, c: nat)
    ensures forall k :: 1 <= k < c ==> Candidate(dir, base, ext, k) in TriedBelow(dir, base, ext, c)
  {
    if c > 1 {
      TriedBelowHolds(dir, base, ext, c - 1);
    }
  }

  /** Different counters give different names. */
  lemma CandidateInjective(dir: string, base: string, ext: string, j: nat, k: nat)
    requires Lacks(base, '/')
    requires Candidate(dir, base, ext, j) == Candidate(dir, base, ext, k)
    ensures j == k
  {
    var x, y := base + "_" + Decimal(j) + ext, base + "_" + Decimal(k) + ext;
    assert x[0] != '/' && y[0] != '/' by {
      if base == [] {
        assert x[0] == '_' && y[0] == '_';
      } else {
        assert x[0] == base[0] && y[0] == base[0];
      }
    }
    var p := if dir == [] || dir[|dir| - 1] == '/' then dir else dir + "/";
    assert Join(dir, x) == p + x && Join(dir, y) == p + y;
    assert x == (p + x)[|p|..] && y == (p + y)[|p|..];
    var n := |base| + 1;
    assert Decimal(j) == x[n..|x| - |ext|];
    assert Decimal(k) == y[n..|y| - |ext|];
  }

  /** The candidate of counter `c` is none of those tried before counter `m <= c`. */
  lemma {:induction false} NotYetTried(dir: string, base: string, ext: string, c: nat, m: nat)
    requires Lacks(base, '/') && m <= c
    ensures Candidate(dir, base, ext, c) !in TriedBelow(dir, base, ext, m)
  {
    if m > 1 {
      NotYetTried(dir, base, ext, c, m - 1);
      if Candidate(dir, base, ext, c) == Candidate(dir, base, ext, m - 1) {
        CandidateInjective(dir, base, ext, c, m - 1);
      }
    }
  }

  /**
    The "Use New Name" loop: counters 1, 2, ... until `base_k.ext` is not on disk.
    It returns the name of the smallest free counter and ends for any finite set of files.
  */
  method UniqueName(filename: string, existing: set<string>) returns (r: string)
    ensures r !in existing
    ensures exists k :: k >= 1 && r == Numbered(filename, k) && (forall j :: 1 <= j < k ==> Numbered(filename, j) in existing)
  {
    var dir := Dirname(filename);
    var (base, ext) := SplitExt(Basename(filename));
    LacksSlice(Basename(filename), 0, |base|, '/');
    assert base == Basename(filename)[..|base|];
    var counter := 1;
    r := Candidate(dir, base, ext, counter);
    ghost var tried := TriedBelow(dir, base, ext, counter);
    while r in existing
      invariant counter >= 1 && r == Candidate(dir, base, ext, counter)
      invariant tried == TriedBelow(dir, base, ext, counter) && tried <= existing
      decreases existing - tried
    {
      NotYetTried(dir, base, ext, counter, counter);
      tried := tried + {r};
      counter := counter + 1;
      r := Candidate(dir, base, ext, counter);
    }
    TriedBelowHolds(dir, base, ext, counter);
    assert forall j :: Numbered(filename, j) == Candidate(dir, base, ext, j);
  }

  // =====================================================================
  // Where the preview and the name generator part from the save

  /** The trailing-number rule on `head + mid + ver`, where `head` ends in a digit and `mid` has none: only `mid` survives. */
  lemma TrailingAfterNumberedHead(head: string, mid: string, ver: string)
    requires head != [] && IsDigit(head[|head| - 1])
    requires mid != [] && NoDigits(mid)
    requires ver != [] && AllDigits(ver)
    ensures BumpTrailing(head + mid + ver) == mid + Increment(ver)
    ensures MatchAssignment(head + mid + ver).None? ==>
      NextBaseKeepingFront(head + mid + ver) == head + mid + Increment(ver)
  {
    var pre := head + mid;
    assert pre[|pre| - 1] == mid[|mid| - 1];
    assert pre[|head|..] == mid;
    SliceDigits(pre, |head|, |pre|);
    assert pre[|head| - 1] == head[|head| - 1];
    LastDigitEndAt(pre, |head|);
    SearchOfLastRun(pre, ver, []);
    assert pre + ver + [] == head + mid + ver;
    if MatchAssignment(head + mid + ver).None? {
      LastRunKeepsFront(pre, ver, []);
      assert pre + Increment(ver) + [] == head + mid + Increment(ver);
    }
  }

  /** The text between a name's assignment number and its final number. */
  function Middle(last: string, first: string, kind: string): (r: string)
    ensures r != [] && r[0] == '_'
    ensures NoDigits(last) && NoDigits(first) && NoDigits(kind) ==> NoDigits(r)
  {
    var r := "_" + last + "_" + first + "_" + kind + "_";
    NoDigitsAppend("_" + last, "_" + first);
    NoDigitsAppend("_" + last + "_" + first, "_" + kind);
    NoDigitsAppend("_" + last + "_" + first + "_" + kind, "_");
    NoDigitsAppend("_", last);
    NoDigitsAppend("_", first);
    NoDigitsAppend("_", kind);
    r
  }

  /**
    As written, the preview of a five-field assignment name keeps only what follows
    its assignment number, while the save keeps the whole name and bumps the version.
  */
  lemma PreviewOfAssignment(a: AssignmentName)
    requires WellFormed(a) && NoDigits(a.last) && NoDigits(a.first) && NoDigits(a.kind)
    ensures BumpTrailing(Compose(a)) == Middle(a.last, a.first, a.kind) + Increment(a.version)
    ensures NextBase(Compose(a)) == Compose(a.(version := Increment(a.version)))
    ensures BumpTrailing(Compose(a)) != NextBase(Compose(a))
  {
    var head := [a.letter] + a.number;
    var mid := Middle(a.last, a.first, a.kind);
    assert Compose(a) == head + mid + a.version;
    TrailingAfterNumberedHead(head, mid, a.version);
    MatchAssignmentExact(Compose(a), a);
    assert BumpTrailing(Compose(a))[0] == '_';
    assert NextBase(Compose(a))[0] == a.letter;
  }

  /** The preview as evidently intended: the name the next-version rule gives, assignment names included. */
  function PreviewNameIntended(filename: string, index: int): (r: Option<string>)
    ensures r.None? <==> filename == []
    ensures r.Some? && MatchAssignment(SplitExt(filename).0).None? ==> r == PreviewName(filename, index)
  {
    if filename == [] then None else Some(NextFileName(filename, DropdownExtension(index)))
  }

  /** With the dropdown on Maya ASCII, the intended preview of a scene's name is the name `save_plus_proc` writes. */
  lemma IntendedPreviewIsSavedName(path: string)
    requires Basename(path) != []
    ensures PreviewNameIntended(Basename(path), 0) == Some(Basename(NextPath(path, ".ma")))
  {
    NextPathSplits(path, ".ma");
  }

  /**
    As written, a name made by the generator has six '_' fields, so the five-field
    assignment rule never sees it and the next version loses the assignment letter
    and number.
  */
  lemma GeneratedNameLosesAssignment(letter: string, assignment: int, last: string, first: string,
                                     stage: string, status: string, version: int)
    requires 1 <= assignment <= 99 && 1 <= version <= 99
    requires last != [] && first != []
    requires Lacks(letter, '_') && Lacks(last, '_') && Lacks(first, '_') && Lacks(stage, '_') && Lacks(status, '_')
    requires NoDigits(last) && NoDigits(first) && NoDigits(stage) && NoDigits(status)
    ensures NextBase(GenerateFilename(letter, assignment, last, first, stage, status, version).value)
      == Middle(last, first, Lower(stage) + "_" + status) + Increment(TwoDigits(version))
  {
    GeneratedShape(letter, assignment, last, first, stage, status, version);
  }

  /** The intended rule bumps only the generated name's version. */
  lemma GeneratedNameKeepsFront(letter: string, assignment: int, last: string, first: string,
                                stage: string, status: string, version: int)
    requires 1 <= assignment <= 99 && 1 <= version <= 99
    requires last != [] && first != []
    requires Lacks(letter, '_') && Lacks(last, '_') && Lacks(first, '_') && Lacks(stage, '_') && Lacks(status, '_')
    requires NoDigits(last) && NoDigits(first) && NoDigits(stage) && NoDigits(status)
    ensures NextBaseKeepingFront(GenerateFilename(letter, assignment, last, first, stage, status, version).value)
      == letter + TwoDigits(assignment) + Middle(last, first, Lower(stage) + "_" + status) + Increment(TwoDigits(version))
    ensures ValueOf(Increment(TwoDigits(version))) == version + 1
  {
    GeneratedShape(letter, assignment, last, first, stage, status, version);
    IncrementFacts(TwoDigits(version));
  }

  lemma GeneratedShape(letter: string, assignment: int, last: string, first: string,
                       stage: string, status: string, version: int)
    requires 1 <= assignment <= 99 && 1 <= version <= 99
    requires last != [] && first != []
    requires Lacks(letter, '_') && Lacks(last, '_') && Lacks(first, '_') && Lacks(stage, '_') && Lacks(status, '_')
    requires NoDigits(last) && NoDigits(first) && NoDigits(stage) && NoDigits(status)
    ensures var name := GenerateFilename(letter, assignment, last, first, stage, status, version).value;
      var head := letter + TwoDigits(assignment);
      var mid := Middle(last, first, Lower(stage) + "_" + status);
      && MatchAssignment(name).None?
      && BumpTrailing(name) == mid + Increment(TwoDigits(version))
      && NextBase(name) == BumpTrailing(name)
      && NextBaseKeepingFront(name) == head + mid + Increment(TwoDigits(version))
  {
    var name := GenerateFilename(letter, assignment, last, first, stage, status, version).value;
    var a, v := TwoDigits(assignment), TwoDigits(version);
    var lo := Lower(stage);
    LowerKeepsPlain(stage);
    GeneratedFields(letter, assignment, last, first, stage, status, version);
    var head := letter + a;
    var kind := lo + "_" + status;
    NoDigitsAppend(lo, "_");
    NoDigitsAppend(lo + "_", status);
    var mid := Middle(last, first, kind);
    Regroup(head, last, first, lo, status, v, "_");
    assert name == head + mid + v;
    assert head[|head| - 1] == a[1];
    TrailingAfterNumberedHead(head, mid, v);
  }

  lemma Nest(x: string, l: string, f: string, s: string, t: string, v: string, u: string)
    ensures x + u + l + u + f + u + s + u + t + (u + v) == x + u + (l + u + (f + u + (s + u + (t + u + v))))
  {
  }

  lemma Regroup(x: string, l: string, f: string, s: string, t: string, v: string, u: string)
    ensures x + u + l + u + f + u + s + u + t + (u + v) == x + (u + l + u + f + u + (s + u + t) + u) + v
  {
  }
}
