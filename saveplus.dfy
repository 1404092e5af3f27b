/**
  The Save Plus commands as functions of the host they run in.

  `SavePlusProc` is `save_plus_proc` of savePlus.py and Old/tempv02.py; `QuickSavePlus`
  is `quick_save_plus` of the installers; `BackupPath` is the name built by
  `create_backup` of Old/tempv02.py.  The Maya scene, the workspace, the files that
  already exist and the failures of `os.makedirs` and of the Maya save are all
  fields of `Host`; the save itself is the change of the scene name and the new
  member of `existing`.
*/
module SavePlus {
  import opened Wrappers
  import opened Paths
  import opened Naming

  /** What the commands read from Maya and the file system, and what a failing call would raise. */
  datatype Host = Host(
    sceneName: string,            // `cmds.file(query=True, sceneName=True)`, "" for an unsaved scene
    workspace: string,            // `cmds.workspace(query=True, directory=True)`
    existing: set<string>,        // the paths for which `os.path.exists` holds
    mkdirError: Option<string>,   // the text of the error `os.makedirs` raises, if it fails
    renameError: Option<string>,  // the text of the error `cmds.file(rename=…)` raises, if it fails
    saveError: Option<string>)    // the text of the error `cmds.file(save=True)` raises, if it fails

  /** `(ok, message, path)`: savePlus.py returns the first two, Old/tempv02.py all three; `path` is "" on failure. */
  datatype Reply = Reply(ok: bool, message: string, path: string)

  /** The reply together with the host after the call. */
  datatype Outcome = Outcome(reply: Reply, host: Host)

  function Fail(message: string, h: Host): (r: Outcome)
    ensures !r.reply.ok && r.reply.path == [] && r.host == h
  {
    Outcome(Reply(false, message, []), h)
  }

  /**
    Rename the scene to `path`, then save it; `shown` names the file in the success
    message.  Both calls share one error reply.  A failing rename changes nothing;
    a failing save comes after the rename, so the scene keeps the new name.
  */
  function Store(path: string, shown: string, h: Host): (r: Outcome)
    requires path != []
    ensures r.reply.ok <==> h.renameError.None? && h.saveError.None?
    ensures r.reply.ok ==> r.reply.path == path && r.host == h.(sceneName := path, existing := h.existing + {path})
    ensures !r.reply.ok ==> r.reply.path == []
    ensures !r.reply.ok && h.renameError.Some? ==> r.host == h
    ensures !r.reply.ok && h.renameError.None? ==> r.host == h.(sceneName := path)
  {
    match (h.renameError, h.saveError)
    case (Some(e), _) => Outcome(Reply(false, "Error saving file: " + e, []), h)
    case (None, Some(e)) => Outcome(Reply(false, "Error saving file: " + e, []), h.(sceneName := path))
    case (None, None) => Outcome(Reply(true, shown + " saved successfully", path), h.(sceneName := path, existing := h.existing + {path}))
  }

  /** `os.makedirs(dir)` when `dir` does not exist yet. */
  function MakeDirs(dir: string, h: Host): (r: Option<Host>)
    ensures r.None? <==> dir !in h.existing && h.mkdirError.Some?
    ensures r.Some? ==> r.value == h.(existing := h.existing + {dir})
  {
    if dir in h.existing then Some(h)
    else if h.mkdirError.Some? then None
    else Some(h.(existing := h.existing + {dir}))
  }

  /** `os.path.join(workspace, "scenes")` */
  function ScenesDir(h: Host): (r: string)
    ensures r != [] && r[|r| - 1] == 's'
  {
    Join(h.workspace, "scenes")
  }

  /** The argument, or the open scene when there is none. */
  function Requested(filePath: string, h: Host): string {
    if filePath != [] then filePath else h.sceneName
  }

  /** The path a bare file name is resolved to: the workspace's scenes directory. */
  function Target(filePath: string, h: Host): (t: string)
    ensures filePath != [] ==> t != []
  {
    if Dirname(filePath) == [] then Join(ScenesDir(h), filePath) else filePath
  }

  /** The first-time save keeps the name and appends ".ma" unless it already ends with ".ma" or ".mb" (case-sensitive). */
  function FirstSavePath(path: string): (r: string)
    ensures path <= r
  {
    var name := Basename(path);
    if !EndsWith(name, ".ma") && !EndsWith(name, ".mb") then path + ".ma" else path
  }

  /** The path of the next version: the new file name in the same directory. */
  function NextPath(path: string, defaultExt: string): string {
    Join(Dirname(path), NextFileName(Basename(path), defaultExt))
  }

  /** `save_plus_proc(file_path)`; an empty `filePath` stands for no argument. */
  function SavePlusProc(filePath: string, h: Host): (r: Outcome)
    ensures r.reply.ok ==> r.reply.path != [] && r.reply.path !in h.existing
    ensures r.reply.ok ==> r.host.sceneName == r.reply.path && r.reply.path in r.host.existing
    ensures r.host == h.(sceneName := r.host.sceneName, existing := r.host.existing)
    ensures r.reply.ok ==>
      r.host.existing <= h.existing + {ScenesDir(h), Dirname(Target(Requested(filePath, h), h)), r.reply.path}
    ensures !r.reply.ok ==> r.reply.path == []
    ensures !r.reply.ok ==> r.host.existing <= h.existing + {ScenesDir(h), Dirname(Target(Requested(filePath, h), h))}
    ensures !r.reply.ok && r.host.sceneName != h.sceneName ==>
      && h.renameError.None? && h.saveError.Some?
      && var path := Target(Requested(filePath, h), h);
         r.host.sceneName == (if h.sceneName == [] then FirstSavePath(path) else NextPath(path, ".ma"))
    ensures h.existing <= r.host.existing
  {
    var fp := Requested(filePath, h);
    if fp == [] then Fail("File must be saved before using SavePlus", h)
    else if Dirname(fp) == [] && MakeDirs(ScenesDir(h), h).None? then
      Fail("Error: Could not create scenes directory: " + h.mkdirError.value, h)
    else
      var h1 := if Dirname(fp) == [] then MakeDirs(ScenesDir(h), h).value else h;
      assert h1 == h.(existing := h1.existing) && h1.existing <= h.existing + {ScenesDir(h)};
      var path := Target(fp, h);
      var r := SaveAt(path, h.sceneName == [], h1);
      assert r.reply.ok ==> r.host.existing <= h.existing + {ScenesDir(h), Dirname(path), r.reply.path};
      assert !r.reply.ok ==> r.host.existing <= h.existing + {ScenesDir(h), Dirname(path)};
      r
  }

  /** The part of `save_plus_proc` after the target path is known: create its directory, then save the first or the next version. */
  function SaveAt(path: string, firstTime: bool, h: Host): (r: Outcome)
    requires path != []
    ensures r.reply.ok ==> r.reply.path != [] && r.reply.path !in h.existing
    ensures r.reply.ok ==> r.host.sceneName == r.reply.path && r.reply.path in r.host.existing
    ensures r.host == h.(sceneName := r.host.sceneName, existing := r.host.existing)
    ensures r.reply.ok ==> r.host.existing <= h.existing + {Dirname(path), r.reply.path}
    ensures !r.reply.ok ==> r.reply.path == [] && r.host.existing <= h.existing + {Dirname(path)}
    ensures !r.reply.ok && r.host.sceneName != h.sceneName ==>
      h.renameError.None? && h.saveError.Some? && r.host.sceneName == (if firstTime then FirstSavePath(path) else NextPath(path, ".ma"))
    ensures h.existing <= r.host.existing
  {
    var dir := Dirname(path);
    match MakeDirs(dir, h)
    case None => Fail("Error: Could not create directory " + dir, h)
    case Some(h2) =>
      if firstTime then SaveFirst(path, h2) else SaveNext(path, h2)
  }

  /** A scene never saved before: save under the target's own name, refusing to overwrite. */
  function SaveFirst(path: string, h: Host): (r: Outcome)
    requires path != []
    ensures r.reply.ok ==> r.reply.path != [] && r.reply.path !in h.existing
    ensures r.reply.ok ==> r.host == h.(sceneName := r.reply.path, existing := h.existing + {r.reply.path})
    ensures !r.reply.ok ==> r.reply.path == [] && r.host == h.(sceneName := r.host.sceneName)
    ensures !r.reply.ok && r.host.sceneName != h.sceneName ==>
      h.renameError.None? && h.saveError.Some? && r.host.sceneName == FirstSavePath(path) && FirstSavePath(path) !in h.existing
  {
    var p := FirstSavePath(path);
    if p in h.existing then Fail("Error: File " + Basename(p) + " already exists", h)
    else Store(p, Basename(p), h)
  }

  /** A saved scene: save its next version in the same directory, refusing to overwrite. */
  function SaveNext(path: string, h: Host): (r: Outcome)
    ensures r.reply.ok ==> r.reply.path != [] && r.reply.path !in h.existing
    ensures r.reply.ok ==> r.host == h.(sceneName := r.reply.path, existing := h.existing + {r.reply.path})
    ensures !r.reply.ok ==> r.reply.path == [] && r.host == h.(sceneName := r.host.sceneName)
    ensures !r.reply.ok && r.host.sceneName != h.sceneName ==>
      h.renameError.None? && h.saveError.Some? && r.host.sceneName == NextPath(path, ".ma") && NextPath(path, ".ma") !in h.existing
  {
    var newName := NextFileName(Basename(path), ".ma");
    var newPath := Join(Dirname(path), newName);
    if newPath in h.existing then Fail("Warning: " + newName + " already exists, file not saved", h)
    else
      NextFileNameNonEmpty(Basename(path), ".ma");
      Store(newPath, newName, h)
  }

  /** `quick_save_plus()`: like the main command on the open scene, but ".mb" is the default extension and nothing is created. */
  function QuickSavePlus(h: Host): (r: Outcome)
    ensures r.reply.ok ==> r.reply.path != [] && r.reply.path !in h.existing
    ensures r.reply.ok ==> r.host == h.(sceneName := r.reply.path, existing := h.existing + {r.reply.path})
    ensures !r.reply.ok ==> r.reply.path == [] && r.host == h.(sceneName := r.host.sceneName)
    ensures !r.reply.ok && r.host.sceneName != h.sceneName ==>
      h.renameError.None? && h.saveError.Some? && r.host.sceneName == NextPath(h.sceneName, ".mb") && NextPath(h.sceneName, ".mb") !in h.existing
  {
    if h.sceneName == [] then Fail("File must be saved at least once before using Quick SavePlus", h)
    else
      var newName := NextFileName(Basename(h.sceneName), ".mb");
      var newPath := Join(Dirname(h.sceneName), newName);
      if newPath in h.existing then Fail("Warning: " + newName + " already exists, file not saved", h)
      else
        NextFileNameNonEmpty(Basename(h.sceneName), ".mb");
        match (h.renameError, h.saveError)
        case (Some(e), _) => Outcome(Reply(false, "Error saving file: " + e, []), h)
        case (None, Some(e)) => Outcome(Reply(false, "Error saving file: " + e, []), h.(sceneName := newPath))
        case (None, None) => Outcome(Reply(true, "File saved successfully as: " + newName, newPath), h.(sceneName := newPath, existing := h.existing + {newPath}))
  }

  /** The copy `create_backup` writes: `base + "_backup_" + timestamp + ext` beside the scene; none for an unsaved scene. */
  function BackupPath(sceneName: string, timestamp: string): (r: Option<string>)
    ensures r.None? <==> sceneName == []
  {
    if sceneName == [] then None
    else
      var (base, ext) := SplitExt(Basename(sceneName));
      Some(Join(Dirname(sceneName), base + "_backup_" + timestamp + ext))
  }

  // ---------------------------------------------------------------------
  // Properties

  /** With no argument and no open scene nothing is created or saved. */
  lemma NoSceneRefused(h: Host)
    requires h.sceneName == []
    ensures SavePlusProc([], h) == Outcome(Reply(false, "File must be saved before using SavePlus", []), h)
    ensures QuickSavePlus(h) == Outcome(Reply(false, "File must be saved at least once before using Quick SavePlus", []), h)
  {
  }

  /** A bare file name is placed in the workspace's scenes directory under the same name. */
  lemma BareNameGoesToScenes(filePath: string, h: Host)
    requires Dirname(filePath) == []
    ensures Dirname(Target(filePath, h)) == ScenesDir(h)
    ensures Basename(Target(filePath, h)) == filePath
  {
    DirnameEmpty(filePath);
    JoinSplits(ScenesDir(h), filePath);
  }

  /** The resolved target never has an empty directory part, so it is never a bare name. */
  lemma TargetHasDirectory(filePath: string, h: Host)
    ensures Dirname(Target(filePath, h)) != []
  {
    if Dirname(filePath) == [] {
      BareNameGoesToScenes(filePath, h);
    }
  }

  /**
    An existing scene is saved as exactly the next version in the same directory,
    and only when no file of that name exists: the call succeeds if and only if
    the next path is free and neither `os.makedirs` nor the save fails.
  */
  lemma SavePlusSavesNextVersion(filePath: string, h: Host)
    requires h.sceneName != []
    requires h.mkdirError.None? || Dirname(Target(Requested(filePath, h), h)) in h.existing
    requires h.renameError.None? && h.saveError.None?
    ensures var path := Target(Requested(filePath, h), h);
      && (SavePlusProc(filePath, h).reply.ok <==> NextPath(path, ".ma") !in h.existing)
      && (SavePlusProc(filePath, h).reply.ok ==> SavePlusProc(filePath, h).reply.path == NextPath(path, ".ma"))
  {
    var fp := Requested(filePath, h);
    var path := Target(fp, h);
    if Dirname(fp) == [] {
      BareNameGoesToScenes(fp, h);
      ProcOnBareName(filePath, h);
      SaveAtNextVersion(path, MakeDirs(ScenesDir(h), h).value);
      NextPathOutsideCreated(path, ScenesDir(h), h.existing);
    } else {
      assert SavePlusProc(filePath, h) == SaveAt(path, false, h);
      SaveAtNextVersion(path, h);
    }
  }

  /**
    When the save itself fails, the command reports the error, yet the scene has
    already been renamed to the free next-version path, which still does not exist.
  */
  lemma FailedSaveKeepsRename(filePath: string, h: Host)
    requires h.sceneName != []
    requires h.mkdirError.None? || Dirname(Target(Requested(filePath, h), h)) in h.existing
    requires h.renameError.None? && h.saveError.Some?
    requires NextPath(Target(Requested(filePath, h), h), ".ma") !in h.existing
    ensures var next := NextPath(Target(Requested(filePath, h), h), ".ma");
      && !SavePlusProc(filePath, h).reply.ok
      && SavePlusProc(filePath, h).reply.message == "Error saving file: " + h.saveError.value
      && SavePlusProc(filePath, h).host.sceneName == next
      && next !in SavePlusProc(filePath, h).host.existing
  {
    var fp := Requested(filePath, h);
    var path := Target(fp, h);
    if Dirname(fp) == [] {
      BareNameGoesToScenes(fp, h);
      ProcOnBareName(filePath, h);
      NextPathOutsideCreated(path, ScenesDir(h), h.existing);
      SaveAtFailedSave(path, MakeDirs(ScenesDir(h), h).value);
    } else {
      assert SavePlusProc(filePath, h) == SaveAt(path, false, h);
      SaveAtFailedSave(path, h);
    }
  }

  lemma SaveAtFailedSave(path: string, h: Host)
    requires path != [] && (h.mkdirError.None? || Dirname(path) in h.existing) && h.renameError.None? && h.saveError.Some?
    requires NextPath(path, ".ma") !in h.existing
    ensures !SaveAt(path, false, h).reply.ok
    ensures SaveAt(path, false, h).reply.message == "Error saving file: " + h.saveError.value
    ensures SaveAt(path, false, h).host.sceneName == NextPath(path, ".ma")
    ensures NextPath(path, ".ma") !in SaveAt(path, false, h).host.existing
  {
    var h2 := MakeDirs(Dirname(path), h).value;
    assert SaveAt(path, false, h) == SaveNext(path, h2);
    NextPathOutsideCreated(path, Dirname(path), h.existing);
    assert h2.existing <= h.existing + {Dirname(path)};
  }

  /** When the rename itself fails, the command reports the error and the scene keeps its name. */
  lemma FailedRenameKeepsScene(filePath: string, h: Host)
    requires h.sceneName != []
    requires h.mkdirError.None? || Dirname(Target(Requested(filePath, h), h)) in h.existing
    requires h.renameError.Some?
    requires NextPath(Target(Requested(filePath, h), h), ".ma") !in h.existing
    ensures var next := NextPath(Target(Requested(filePath, h), h), ".ma");
      && !SavePlusProc(filePath, h).reply.ok
      && SavePlusProc(filePath, h).reply.message == "Error saving file: " + h.renameError.value
      && SavePlusProc(filePath, h).host.sceneName == h.sceneName
      && next !in SavePlusProc(filePath, h).host.existing
  {
    var fp := Requested(filePath, h);
    var path := Target(fp, h);
    if Dirname(fp) == [] {
      BareNameGoesToScenes(fp, h);
      ProcOnBareName(filePath, h);
      NextPathOutsideCreated(path, ScenesDir(h), h.existing);
      SaveAtFailedRename(path, MakeDirs(ScenesDir(h), h).value);
    } else {
      assert SavePlusProc(filePath, h) == SaveAt(path, false, h);
      SaveAtFailedRename(path, h);
    }
  }

  lemma SaveAtFailedRename(path: string, h: Host)
    requires path != [] && (h.mkdirError.None? || Dirname(path) in h.existing) && h.renameError.Some?
    requires NextPath(path, ".ma") !in h.existing
    ensures !SaveAt(path, false, h).reply.ok
    ensures SaveAt(path, false, h).reply.message == "Error saving file: " + h.renameError.value
    ensures SaveAt(path, false, h).host.sceneName == h.sceneName
    ensures NextPath(path, ".ma") !in SaveAt(path, false, h).host.existing
  {
    var h2 := MakeDirs(Dirname(path), h).value;
    assert SaveAt(path, false, h) == SaveNext(path, h2);
    NextPathOutsideCreated(path, Dirname(path), h.existing);
    assert h2.existing <= h.existing + {Dirname(path)};
  }

  /** Creating the directory of a path does not occupy the path's next version. */
  lemma NextPathOutsideCreated(path: string, dir: string, existing: set<string>)
    requires dir == Dirname(path)
    ensures NextPath(path, ".ma") in existing + {dir} <==> NextPath(path, ".ma") in existing
  {
    NextPathIsNotADirectory(path, ".ma");
  }

  lemma ProcOnBareName(filePath: string, h: Host)
    requires Requested(filePath, h) != [] && Dirname(Requested(filePath, h)) == []
    requires h.mkdirError.None? || ScenesDir(h) in h.existing
    ensures SavePlusProc(filePath, h)
         == SaveAt(Target(Requested(filePath, h), h), h.sceneName == [], MakeDirs(ScenesDir(h), h).value)
  {
  }

  lemma SaveAtNextVersion(path: string, h: Host)
    requires path != [] && (h.mkdirError.None? || Dirname(path) in h.existing) && h.renameError.None? && h.saveError.None?
    ensures SaveAt(path, false, h).reply.ok <==> NextPath(path, ".ma") !in h.existing
    ensures SaveAt(path, false, h).reply.ok ==> SaveAt(path, false, h).reply.path == NextPath(path, ".ma")
  {
    var h2 := MakeDirs(Dirname(path), h).value;
    assert SaveAt(path, false, h) == SaveNext(path, h2);
    NextPathIsNotADirectory(path, ".ma");
    assert NextPath(path, ".ma") in h2.existing <==> NextPath(path, ".ma") in h.existing;
    SaveNextOutcome(path, h2);
  }

  lemma SaveNextOutcome(path: string, h: Host)
    requires h.renameError.None? && h.saveError.None?
    ensures SaveNext(path, h).reply.ok <==> NextPath(path, ".ma") !in h.existing
    ensures SaveNext(path, h).reply.ok ==> SaveNext(path, h).reply.path == NextPath(path, ".ma")
  {
  }

  /** The next path is never one of the directories the command may create. */
  lemma NextPathIsNotADirectory(path: string, defaultExt: string)
    requires defaultExt == ".ma" || defaultExt == ".mb"
    ensures NextPath(path, defaultExt) != Dirname(path)
  {
    var dir := Dirname(path);
    var name := NextFileName(Basename(path), defaultExt);
    NextFileNameSplits(Basename(path), defaultExt);
    NextBaseHasDigit(SplitExt(Basename(path)).0);
    DirnameForm(path);
    JoinSplits(dir, name);
    assert name != [];
  }

  /** The next version lies in the directory of the current one and is named by the naming rule. */
  lemma NextPathSplits(path: string, defaultExt: string)
    requires defaultExt == ".ma" || defaultExt == ".mb"
    ensures Dirname(NextPath(path, defaultExt)) == Dirname(path)
    ensures Basename(NextPath(path, defaultExt)) == NextFileName(Basename(path), defaultExt)
  {
    NextFileNameSplits(Basename(path), defaultExt);
    DirnameForm(path);
    JoinSplits(Dirname(path), NextFileName(Basename(path), defaultExt));
  }

  /**
    A first-time save writes the target itself, with ".ma" appended unless the name
    already ends with ".ma" or ".mb", and refuses when that file exists.
  */
  lemma FirstSaveKeepsName(filePath: string, h: Host)
    requires filePath != [] && h.sceneName == []
    requires h.mkdirError.None? && h.renameError.None? && h.saveError.None?
    ensures var p := FirstSavePath(Target(filePath, h));
      && (SavePlusProc(filePath, h).reply.ok <==> p !in h.existing)
      && (SavePlusProc(filePath, h).reply.ok ==> SavePlusProc(filePath, h).reply.path == p)
  {
    var path := Target(filePath, h);
    var p := FirstSavePath(path);
    FirstSavePathIsNotADirectory(path);
    var h1 := if Dirname(filePath) == [] then MakeDirs(ScenesDir(h), h).value else h;
    if Dirname(filePath) == [] {
      BareNameGoesToScenes(filePath, h);
    }
    assert h1.existing <= h.existing + {Dirname(path)};
    assert SavePlusProc(filePath, h) == SaveAt(path, true, h1);
    var h2 := MakeDirs(Dirname(path), h1).value;
    assert SaveAt(path, true, h1) == SaveFirst(path, h2);
    assert p in h2.existing <==> p in h.existing;
    SaveFirstOutcome(path, h2);
  }

  lemma SaveFirstOutcome(path: string, h: Host)
    requires path != [] && h.renameError.None? && h.saveError.None?
    ensures SaveFirst(path, h).reply.ok <==> FirstSavePath(path) !in h.existing
    ensures SaveFirst(path, h).reply.ok ==> SaveFirst(path, h).reply.path == FirstSavePath(path)
  {
  }

  /** The first-time path is never its own directory, which the command may just have created. */
  lemma FirstSavePathIsNotADirectory(path: string)
    ensures FirstSavePath(path) != Dirname(path)
  {
    DirnameIsPrefix(path);
  }

  /** The quick command saves the next version (".mb" default) beside the scene, and only when that file does not exist. */
  lemma QuickSavesNextVersion(h: Host)
    requires h.sceneName != [] && h.renameError.None? && h.saveError.None?
    ensures QuickSavePlus(h).reply.ok <==> NextPath(h.sceneName, ".mb") !in h.existing
    ensures QuickSavePlus(h).reply.ok ==> QuickSavePlus(h).reply.path == NextPath(h.sceneName, ".mb")
  {
  }

  /** A failing quick save, too, leaves the scene renamed to the next version, which is not written. */
  lemma QuickFailedSaveKeepsRename(h: Host)
    requires h.sceneName != [] && h.renameError.None? && h.saveError.Some?
    requires NextPath(h.sceneName, ".mb") !in h.existing
    ensures QuickSavePlus(h) == Outcome(Reply(false, "Error saving file: " + h.saveError.value, []),
                                        h.(sceneName := NextPath(h.sceneName, ".mb")))
  {
  }

  /** A failing rename in the quick command changes nothing. */
  lemma QuickFailedRenameKeepsScene(h: Host)
    requires h.sceneName != [] && h.renameError.Some?
    requires NextPath(h.sceneName, ".mb") !in h.existing
    ensures QuickSavePlus(h) == Outcome(Reply(false, "Error saving file: " + h.renameError.value, []), h)
  {
  }

  /** The two commands differ only in the default extension: for a Maya file they choose the same name. */
  lemma DefaultOnlyMattersForOtherExtensions(fileName: string)
    requires IsMayaExtension(SplitExt(fileName).1)
    ensures NextFileName(fileName, ".ma") == NextFileName(fileName, ".mb")
  {
  }

  /** The backup lies beside the scene, keeps its stem and extension around the marker, and is never the scene itself. */
  lemma BackupBesideScene(sceneName: string, timestamp: string)
    requires sceneName != [] && Lacks(timestamp, '/')
    ensures var (base, ext) := SplitExt(Basename(sceneName));
      && Dirname(BackupPath(sceneName, timestamp).value) == Dirname(sceneName)
      && Basename(BackupPath(sceneName, timestamp).value) == base + "_backup_" + timestamp + ext
      && BackupPath(sceneName, timestamp).value != sceneName
  {
    var (base, ext) := SplitExt(Basename(sceneName));
    var name := base + "_backup_" + timestamp + ext;
    BackupNameIsPlain(base, timestamp, ext);
    assert Lacks(name, '/');
    DirnameForm(sceneName);
    JoinSplits(Dirname(sceneName), name);
    assert |name| == |Basename(sceneName)| + 8 + |timestamp|;
  }

  /** A backup name built from slash-free parts holds no slash. */
  lemma BackupNameIsPlain(base: string, timestamp: string, ext: string)
    requires Lacks(base + ext, '/') && Lacks(timestamp, '/')
    ensures Lacks(base + "_backup_" + timestamp + ext, '/')
  {
    LacksAppend(base, ext, '/');
    LacksAppend(base, "_backup_", '/');
    LacksAppend(base + "_backup_", timestamp, '/');
    LacksAppend(base + "_backup_" + timestamp, ext, '/');
  }
}
