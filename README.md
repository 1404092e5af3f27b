# Save Plus, modelled in Dafny

Save Plus is a Maya tool that saves the open scene under the "next" version name.
`filename.mb` becomes `filename02.mb`, `shot_v009.ma` becomes `shot_v010.ma`, and
`A01_Smith_John_wip_01.mb` becomes `A01_Smith_John_wip_02.mb`. It refuses to overwrite
a file that already exists. Later versions of the tool add a panel with a few more
pieces:

- a live preview of the next name;
- a name generator;
- a "Use New Name" picker;
- a rule that chooses the save directory;
- timed backups;
- a version history grouped by file.

This project models the logic of the tool, as the Python scripts implement it:

| module | file | what it models |
|---|---|---|
| `Digits` | digits.dfy | ASCII digit strings and `int`/`str`/`zfill`. Includes the version-number increment `str(int(d) + 1).zfill(len(d))`. |
| `Paths` | paths.dfy | POSIX `os.path.dirname`, `basename`, `join` and `splitext`. |
| `Naming` | naming.dfy | The next-name rule shared by every copy of `save_plus_proc` and by `quick_save_plus`. |
| `SavePlus` | saveplus.dfy | `save_plus_proc` and `quick_save_plus` as functions from a `Host` to a reply and the new host, plus the backup name of `create_backup`. |
| `History` | history.dfy | `VersionHistoryModel`. |
| `Panel` | panel.dfy | The helpers of src/savePlus_main.py. |
| `AboutExamples` | about.dfy | The examples of the About dialog. |
| `FindingExamples` | finding_examples.dfy | The concrete names behind the findings below. |

The next-name rule has three branches:

1. **Assignment branch.** A base that fully matches `([A-Z])(\d+)_([^_]+)_([^_]+)_([^_]+)_(\d+)$` keeps everything and increments its last number. The pattern is encoded as "exactly five `_`-separated fields". `MatchAssignmentExact` proves that encoding equal to the pattern's reading.
2. **Trailing branch.** Otherwise the rule uses `re.search(r'(\D*)(\d+)(\D*)$')`. The encoding is `SearchTrailing`, which `SearchTrailingIsLeftmost` proves is the leftmost match, as Python's `re.search` returns it.
3. **No-digit branch.** A base without a digit gets `"02"` appended.

The extension is then forced to `.ma`/`.mb`. The version history keys its groups with the lazy pattern `(\D*?)(\d+)([^/\\]*?)$`. `KeySearch` encodes that pattern and `KeySearchIsLeftmost` proves it leftmost.

The host is a value of type `Host`: the scene name, the workspace, the set of existing paths, and whether `os.makedirs`, the Maya rename or the Maya save fails. A save renames the scene and adds the file to the existing set. `VersionHistoryModel` is a class, `History.VersionHistory`. It holds the dictionary `groups` and its insertion order `order`, and its methods update them in place. Timestamps are integers supplied by the caller.

## Model

| member | source | states |
|---|---|---|
| Digits.IncrementFacts | savePlus.py:1284-1285 | The new number has value n+1 and is all digits. It keeps the original width exactly when n+1 fits in it (001 to 002), otherwise it is the plain decimal of n+1 (99 to 100). It is never shorter than the original and never equal to it. |
| Digits.IncrementOverflow | savePlus.py:1300-1301 | When the number grows, it grows by exactly one digit and starts with '1'. |
| Digits.DecimalWidth | savePlus.py:1285 | `str(n)` fits in w characters exactly when n < 10^w. |
| Digits.ZFillFacts | savePlus.py:1285 | `zfill` keeps the digits and the value, and its width is the larger of the two widths. |
| Digits.Increment | savePlus.py:1284-1285 | `str(int(d) + 1).zfill(len(d))`. Its partners `IncrementFacts` and `IncrementOverflow` state the value n+1, the kept width and the one-digit overflow. |
| Paths.JoinSplits | savePlus.py:1220-1225 | `dirname` and `basename` of `join(d, n)` give back `d` and `n` for a plain name. |
| Paths.SplitExt | savePlus.py:1263 | The stem followed by the extension is the original name. |
| Paths.ExtensionShape | savePlus.py:1263 | The extension `splitext` returns is empty, or a dot followed by neither '/' nor another dot. |
| Paths.SplitExtAppend | savePlus.py:1263 | Appending an extension to a name that is not all dots and splitting again gives both parts back. |
| Paths.DirnameEmpty | savePlus.py:1206 | `dirname` is empty exactly for paths without '/'. |
| Paths.Dirname | savePlus.py:1224 | `posixpath.dirname`. Its partners `DirnameForm`, `DirnameIsPrefix`, `DirnameEmpty` and `JoinSplits` state its shape, that it is a prefix, when it is empty, and that it undoes `join`. |
| Paths.Basename | savePlus.py:1225 | `posixpath.basename`: the result has no '/'. `JoinSplits` states that it undoes `join`. |
| Paths.Join | savePlus.py:1220 | `posixpath.join` of two components. `JoinSplits` states that `dirname` and `basename` give both back for a plain name. |
| Naming.SearchTrailing | savePlus.py:1292 | A returned match is a reading of `(\D*)(\d+)(\D*)$` from its start. A match starting after 0 starts just after a digit. |
| Naming.SearchTrailingIsLeftmost | savePlus.py:1292 | No match exists when the search finds none. Every other reading starts strictly later than the one found, which is the leftmost match `re.search` returns. |
| Naming.LeftmostFor | savePlus.py:1292 | Any reading of the pattern implies a match was found, and that match is it or starts earlier. |
| Naming.MatchAssignment | savePlus.py:1273 | A returned name is well formed and composes back to the base. |
| Naming.MatchAssignmentExact | savePlus.py:1273 | The five-field encoding accepts exactly the well-formed compositions and returns their groups. |
| Naming.ComposeFields | savePlus.py:1273 | A well-formed composition splits on '_' into exactly its five groups, letter and number first. |
| Naming.AssignmentKeepsFields | savePlus.py:1273-1288 | The new base of an assignment name matches again with the same letter, number, names and type, and a version one higher. |
| Naming.SingleRunKeepsFront | savePlus.py:1290-1303 | A base with one digit run keeps all text around it and increments the run. |
| Naming.SingleRunIsNotAssignment | savePlus.py:1273 | A base with one digit run never takes the assignment branch. |
| Naming.NoDigitAppends02 | savePlus.py:1304-1307 | A base without digits becomes base + "02". |
| Naming.BumpTrailing | savePlus.py:1290-1307 | The trailing rule and the "02" fallback. Its partners `SingleRunKeepsFront`, `NoDigitAppends02`, `NextBaseAsWritten` and `TrailingChanges` state what it keeps, drops and adds. |
| Naming.NextBase | savePlus.py:1270-1307 | The new base. Its partners `AssignmentKeepsFields`, `NextBaseChanges` and `NextBaseHasDigit` state the assignment branch and that the base always changes and contains a digit. |
| Naming.FixExtension | savePlus.py:1263-1268 | The current extension when `lower()` makes it `.ma`/`.mb`, otherwise the default. `FixedExtensionShape` states that the result is a non-empty Maya extension. |
| Naming.NextFileName | savePlus.py:1262-1311 | The new base followed by the fixed extension. `NextFileNameOf`, `NextFileNameSplits` and `NextFileNameNonEmpty` state how it splits and that it is never empty. |
| Naming.NextBaseChanges | savePlus.py:1270-1307 | The new base always differs from the old one. |
| Naming.NextBaseHasDigit | savePlus.py:1270-1307 | The new base always contains a digit. |
| Naming.NextFileNameOf | savePlus.py:1262-1311 | For a stem `x` without '/' that is not all dots and an extension `e`, the new file name of `x + e` is the new base of `x` followed by the fixed extension. |
| Naming.NextFileNameSplits | savePlus.py:1262-1311 | The new file name has no '/'. It splits into the new base and the fixed extension, and its extension is `.ma` or `.mb` in some case. |
| Naming.NextFileNameNonEmpty | savePlus.py:1310-1311 | The new file name, and its join with any directory, are never empty. |
| Naming.FixedExtensionShape | savePlus.py:1263-1268 | The fixed extension is non-empty, well shaped and a Maya one. |
| Naming.SearchOfLastRun | savePlus.py:1292-1302 | For `pre + d + suf` with `d` the last digit run, the match is `d`, with `suf` after it and only the text after `pre`'s last digit run before it. |
| Naming.NextBaseAsWritten | savePlus.py:1290-1303 | As written, `pre + d + suf` becomes only what follows `pre`'s last digit run, then the new number, then `suf`. |
| Naming.LastRunKeepsFront | savePlus.py:1290-1303 | The intended rule keeps `pre` whole. |
| Naming.KeepingFrontAddsDropped | savePlus.py:1290-1303 | The intended new base is the dropped front followed by the as-written new base. |
| Naming.DroppedIffGap | savePlus.py:1292 | Text is dropped exactly when the base's digits form more than one run. |
| Naming.FrontDropped | savePlus.py:1290-1303 | The as-written and intended rules agree exactly on bases whose digits form at most one run. |
| Naming.AssignmentHasGap | savePlus.py:1273 | Every assignment name has two digit runs. |
| AboutExamples.AboutNoNumber | savePlus.py:108 | `filename.mb` becomes `filename02.mb`. |
| AboutExamples.AboutOneDigit | savePlus.py:109 | `filename5.mb` becomes `filename6.mb`. |
| AboutExamples.AboutPadded | savePlus.py:110 | `filename00002.mb` becomes `filename00003.mb`. |
| AboutExamples.SceneExampleAsWritten | savePlus.py:111 | As written, `scene45_99.mb` becomes `_100.mb`. |
| AboutExamples.SceneExampleIntended | savePlus.py:111 | The intended rule gives `scene45_100`, as the About dialog shows. |
| SavePlus.Store | savePlus.py:1319-1331 | The save succeeds exactly when neither the rename nor the save fails. On success the scene is renamed to the path and the file exists. On failure the path is "" and no file is added. A failing rename changes nothing. A failing save comes after the rename, so the scene keeps the new name. |
| SavePlus.MakeDirs | savePlus.py:1228-1236 | `makedirs` fails only for a missing directory when the host refuses it. Otherwise the directory exists afterwards and nothing else changes. |
| SavePlus.SavePlusProc | Old/tempv02.py:1959-2102 | On success the path is new, non-empty, is the scene name and exists. On failure the path is "" and no file is added beyond the scenes directory and the target's directory. The scene name changes on failure only when the save itself failed, and then it is the first-time or next-version path. Existing files are never removed. Only the scene name and the existing set change. On success the files added are at most the scenes directory, the target's directory and the saved path. |
| SavePlus.SaveAt | savePlus.py:1227-1331 | The same guarantees once the target path is known. Only the scene name and the existing set change. On success at most the target's directory and the saved path are added, on failure at most the target's directory. A changed scene name on failure means a failed save after a successful rename to the first-time or next-version path. |
| SavePlus.SaveFirst | savePlus.py:1238-1260 | A first-time save writes a new, non-empty path, renames the scene to it and adds it to the existing files. On failure the path is "" and only the scene name may change: to the free first-time path, when the rename worked and the save failed. |
| SavePlus.SaveFirstOutcome | savePlus.py:1240-1260 | With a working rename and save, the first-time save succeeds exactly when the path with its Maya extension is free, and saves there. |
| SavePlus.SaveNext | savePlus.py:1309-1331 | A next-version save writes a new, non-empty path, renames the scene to it and adds it to the existing files. On failure the path is "" and only the scene name may change: to the free next path, when the rename worked and the save failed. |
| SavePlus.SaveNextOutcome | savePlus.py:1309-1331 | With a working rename and save, the next-version save succeeds exactly when the next path is free, and saves there. |
| SavePlus.FailedSaveKeepsRename | Old/tempv02.py:2090-2102 | When the save of a free next version fails, the command reports "Error saving file: …", the scene is already renamed to the next path, and that file still does not exist. |
| SavePlus.SaveAtFailedSave | savePlus.py:1319-1331 | The same once the target path is known. |
| SavePlus.FailedRenameKeepsScene | Old/tempv02.py:2090-2102 | When the rename to a free next version fails, the command reports "Error saving file: …", the scene keeps its old name, and the next path still does not exist. |
| SavePlus.SaveAtFailedRename | savePlus.py:1319-1331 | The same once the target path is known. |
| SavePlus.NoSceneRefused | savePlus.py:1195-1200 | With no argument and no open scene both commands refuse with their messages, and nothing changes. |
| SavePlus.BareNameGoesToScenes | savePlus.py:1205-1219 | A bare file name is placed in the workspace's scenes directory. |
| SavePlus.TargetHasDirectory | savePlus.py:1205-1226 | The path the command works on always has a directory. |
| SavePlus.Target | savePlus.py:1205-1221 | The path the command works on. `BareNameGoesToScenes` and `TargetHasDirectory` state where a bare name goes and that the target always has a directory. |
| SavePlus.FirstSavePath | savePlus.py:1243-1244 | The first-time path extends the target. `FirstSaveKeepsName` and `FirstSavePathIsNotADirectory` state when it is saved and that it is never its own directory. |
| SavePlus.NextPath | savePlus.py:1309-1311 | The next-version path. `NextPathSplits` and `NextPathIsNotADirectory` state its directory and name. |
| SavePlus.SavePlusSavesNextVersion | savePlus.py:1262-1331 | For an already-saved scene with its target directory in place or creatable and a working rename and save, the command succeeds exactly when the next-version path does not exist. Its path is then that next-version path. |
| SavePlus.SaveAtNextVersion | savePlus.py:1309-1331 | The next-version save succeeds exactly when the next path is free, and saves there. |
| SavePlus.NextPathIsNotADirectory | savePlus.py:1310-1311 | The next path is never its own directory, so creating the directory cannot make it exist. |
| SavePlus.NextPathSplits | savePlus.py:1310-1311 | The next path lies in the same directory, and its name is the new file name. |
| SavePlus.FirstSaveKeepsName | savePlus.py:1238-1260 | A first-time save succeeds exactly when the name, with ".ma" added unless it ends in ".ma"/".mb" (case-sensitive), does not exist. It then saves there. |
| SavePlus.FirstSavePathIsNotADirectory | savePlus.py:1240-1242 | The first-time path is never its own directory. |
| SavePlus.QuickSavePlus | savePlus-installer.py:50-119 | On success the path is new and becomes the scene, and the file exists. On failure the path is "", no file is added, and only the scene name may change: to the free next path, when the rename worked and the save failed. |
| SavePlus.QuickSavesNextVersion | Old/savePlus-installer.py:50-119 | The quick command succeeds exactly when the next version, with ".mb" as the default extension, does not exist beside the scene. It then saves there. |
| SavePlus.QuickFailedSaveKeepsRename | savePlus-installer.py:114-119 | A failing quick save of a free next version reports the error and leaves the scene renamed to that path, with no file added. |
| SavePlus.QuickFailedRenameKeepsScene | savePlus-installer.py:114-119 | A failing rename in the quick command reports "Error saving file: …" and leaves the host exactly as it was. |
| SavePlus.DefaultOnlyMattersForOtherExtensions | savePlus-installer.py:62-66 | For a name that already has a Maya extension, the ".ma" and ".mb" defaults give the same new name. |
| SavePlus.BackupPath | Old/tempv02.py:1443-1450 | No backup name exists exactly when the scene was never saved. |
| SavePlus.BackupBesideScene | Old/tempv02.py:1451-1455 | The backup lies in the scene's directory and is named base + "_backup_" + timestamp + the scene's extension. It is never the scene itself. |
| History.KeySearch | Old/tempv02.py:424 | A returned match is a reading of the lazy key pattern. |
| History.KeySearchIsLeftmost | Old/tempv02.py:424 | Any reading of the pattern implies the search finds one, and it starts no later. |
| History.KeyIsTextBeforeFirstDigit | Old/tempv02.py:417-429 | A name without separators is keyed by its directory joined with its text before the first digit. So `shot01.ma`, `shot02.ma` and `shot01_backup_….ma` share a group. The lookup key is the same. |
| History.StoreKey | Old/tempv02.py:417-429 | The group key of `add_version`. `KeyIsTextBeforeFirstDigit` states it for a name with a digit, `KeyOfNameWithoutDigit` for a name without one, and `LookupKey` that the lookup uses the same key. |
| History.KeyOfNameWithoutDigit | Old/tempv02.py:417-429 | A name without a digit does not match the key pattern, so its group key is its directory alone and the lookup tries no key. |
| History.LookupKey | Old/tempv02.py:479-484 | The key tried by the lookup, when there is one, is the key records are stored under. |
| History.NewRecord | temp04.py/temp04.py:340-346 | The record carries the path, its basename, the notes and the timestamp. |
| History.Added | Old/temp04.py/temp04.py:338-349 | The key is added. Every other group is unchanged. The key's group is a prefix of the new record followed by the old group, of length min(50, old length + 1). The key order gains the key only when it was new. |
| History.AddedWellKept | Old/tempv02.py:432-449 | Adding keeps every record in its own key's group and each key listed once. It keeps every group at 50 records or fewer. |
| History.LookupAfterAdd | Old/tempv02.py:472-492 | Right after adding a path, looking it up gives that path's group with the new record first, with or without a digit in the name. |
| History.ScanIsFirst | temp04.py/temp04.py:369-373 | The fallback scan gives the first group in dictionary order that holds the path, and nothing exactly when no group holds it. |
| History.ScanFindsOwnGroup | Old/temp04.py/temp04.py:369-372 | In a well-kept history the scan for a stored path finds that path's own group. |
| History.Lookup | Old/tempv02.py:472-492 | `get_versions_for_file`. `LookupAfterAdd`, `ScanIsFirst` and `ScanFindsOwnGroup` state the group it returns. |
| History.ContainsPath | temp04.py/temp04.py:370-372 | The inner loop of the scan reports true exactly when some record of the group has the path. |
| History.SortDesc | Old/tempv02.py:464-468 | The sort is a permutation of its input in non-increasing timestamp order. |
| History.SortStable | Old/tempv02.py:464-468 | The records of any one timestamp keep their relative order, as Python's stable `sorted` does. |
| History.InsertStable | temp04.py/temp04.py:357 | One insertion step adds the record ahead of those of its own timestamp and leaves the other timestamps' records alone. |
| History.PrefixTo | temp04.py/temp04.py:358 | Python's `[:count]`: a prefix of length min(count, n), or n + count for negative counts, floored at 0. |
| History.RecentFacts | Old/tempv02.py:456-470 | The recent list is sorted newest first and drawn from all groups. For count ≥ 0 it has min(count, total) records. It is a prefix of the stable sort. |
| History.Recent | Old/tempv02.py:456-470 | `get_recent_versions`. `RecentFacts`, `SortDesc` and `SortStable` state its order, length and contents. |
| History.VersionHistory.AddVersion | Old/tempv02.py:415-454 | The new state is `Added` of the old state with the returned record, which is built from the path, the notes and the timestamp. The invariant is kept. |
| History.VersionHistory.GetRecentVersions | temp04.py/temp04.py:353-358 | The loop over the dictionary followed by the sort gives `Recent` of the state. |
| History.VersionHistory.GetVersionsForFile | Old/temp04.py/temp04.py:360-373 | The key lookup and the nested scan give `Lookup` of the state. |
| Panel.TruncatePath | src/savePlus_main.py:35-63 | A path that is empty or fits is returned unchanged. Otherwise the result ends in "/" + the file name. With no room it is exactly "/.../" + the file name. Otherwise it is at most max_length + 1 long and is the directory's first half characters, "/.../", its last half characters (none when half is 0), "/" and the file name. |
| Panel.Shorten | src/savePlus_main.py:50-63 | The shortened path ends in "/" + the file name. With no room it is exactly "/.../" + the file name. Otherwise it is at most the room plus the name plus 6 long, and it is the first half characters of the directory, "/.../", a suffix of the directory of length min(half, its length) (empty when half is 0), "/" and the file name. |
| Panel.PreviewName | src/savePlus_main.py:2375-2409 | The preview is "N/A" exactly for an empty name. |
| Panel.PreviewText | src/savePlus_main.py:2379-2409 | The preview line reads "N/A" exactly for an empty name. Otherwise it starts with the current file's basename and ends with the new name that `PreviewName` gives. |
| Panel.DropdownExtension | src/savePlus_main.py:2387 | Index 0 is ".ma" and any other index ".mb". `PreviewMatchesRule` states how the preview uses it. |
| Panel.PreviewMatchesRule | src/savePlus_main.py:2383-2409 | Off the assignment pattern, the preview names the file the next-name rule gives with the dropdown's extension, and that name keeps a Maya extension. |
| Panel.TwoDigits | src/savePlus_main.py:567 | `str(n).zfill(2)` for a spin box value in 1..99 is exactly two digits with value n. |
| Panel.GenerateFilename | src/savePlus_main.py:1769-1792 | The generator produces nothing exactly when a name is empty, and its result ends in "_" + the two-digit version. |
| Panel.GeneratedFields | src/savePlus_main.py:1773-1792 | A generated name splits on '_' into six fields: letter with number, last, first, lower-case stage, status and version. So the five-field assignment pattern never matches it. |
| Panel.GeneratedFieldList | src/savePlus_main.py:1773-1792 | A generated name splits on '_' into exactly letter + number, last, first, lower-case stage, status and two-digit version. |
| Panel.SaveDirectory | src/savePlus_main.py:2600-2630 | The priority chain, in order: project/scenes when respected and set; the current file's directory when "use current" is checked; the selected directory; the current file's directory; workspace/scenes. |
| Panel.SaveDirectoryFallback | src/savePlus_main.py:2626-2630 | The scenes fallbacks are never empty. The chosen directory is empty only for a bare current file name. |
| Panel.UniqueName | src/savePlus_main.py:1466-1478 | The loop ends for every finite set of files. It returns `base_k.ext` beside the file, for the smallest k ≥ 1 whose name does not exist. |
| Panel.CandidateInjective | src/savePlus_main.py:1474-1477 | Different counters give different candidate names. |
| Panel.PreviewOfAssignment | src/savePlus_main.py:2390-2399 | As written, the preview of an assignment name keeps only what follows its assignment number, while the save keeps the whole name. The two differ. |
| Panel.PreviewNameIntended | src/savePlus_main.py:2375-2409 | The intended preview is "N/A" exactly for an empty name, and agrees with the as-written preview off the assignment pattern. |
| Panel.IntendedPreviewIsSavedName | src/savePlus_main.py:2375-2409 | With the dropdown on Maya ASCII, the intended preview of a scene's name is the name `save_plus_proc` writes. |
| Panel.GeneratedNameLosesAssignment | savePlus.py:1270-1303 | As written, the next version of a generated name loses its letter and assignment number. |
| Panel.GeneratedNameKeepsFront | savePlus.py:1270-1303 | The intended rule keeps the generated name and raises only its version by one. |
| FindingExamples.GeneratorExample | src/savePlus_main.py:1769-1792 | The generator's `J02_Smith_John_layout_wip_01` is saved on as `_Smith_John_layout_wip_02`, and as `J02_Smith_John_layout_wip_02` under the intended rule. |
| FindingExamples.PreviewExample | src/savePlus_main.py:2390-2409 | The preview of `A01_Smith_John_wip_01.ma` shows `_Smith_John_wip_02.ma`. The save, and the intended preview, give `A01_Smith_John_wip_02.ma`. |

## Left out

- Maya, Qt and the file system are left out: the widgets, dialogs, menus, status bar, `optionVar`, script jobs, timers and shelf buttons. The scene name, workspace, existing files, spin-box values and failures of `os.makedirs`, of the rename and of the save are parameters. The save itself is the change of the scene name and of the existing set.
- The JSON persistence of the history is left out: `load_history`, `save_history` and `export_history`. A history starts empty, and one loaded from disk is assumed to be one that `add_version` built.
- The timestamps of `time.time()` are caller-supplied integers, and the `date` string of a record is not modelled. `create_backup`'s `strftime` timestamp is a parameter.
- The reminder and backup timers (`check_save_time`, `check_backup_time`) are left out. They use floating-point elapsed minutes.
- `os.path.normpath` is taken as the identity: paths are assumed already normalised. `os.path.splitdrive` gives an empty drive, as on POSIX. Backslashes are not separators in `dirname`/`basename`, though they are in the history key pattern.
- Python's `\d` and `int()` accept all Unicode decimal digits; only ASCII '0'..'9' are modelled. `str.lower()` (Naming.Lower), used on the extension and on the generator's stage, folds only the ASCII letters 'A'..'Z'; other characters are kept as they are. `$` also matches before a final newline; names are assumed to contain no newline.
- src/savePlus_main.py imports a `savePlus_core` module that src/ does not contain. src/savePlus_core.py is not part of this model; the copies of `save_plus_proc` in savePlus.py and Old/tempv02.py stand in for it. The `savePlus_core.py` of the "SavePlus - Work in progress" folder applies the same next-name rule (lines 248-290) as savePlus.py.
- The "Overwrite" and "Cancel" answers of `save_as_new`'s dialog, and the rest of `save_as_new`, are left out. Only the "Use New Name" loop is modelled.
- SavePlus.SavePlusProc: the success messages are "<name> saved successfully" for both copies. The third element of the reply is the Old/tempv02.py return value; savePlus.py returns only the first two.
- SavePlus.MakeDirs: `os.makedirs` also creates every missing parent directory; only the leaf directory is recorded in the existing set.
- Panel.SaveDirectory: when the project structure is respected, `get_save_directory` also creates project/scenes with `os.makedirs` and ignores a failure (src/savePlus_main.py:2606-2610). Only the directory it chooses is modelled, not that creation.
- Panel.PreviewText: the arrow is the single character U+2192.
- Where a prose description of the tool differs from the code, the model follows the code. The history is a dictionary of groups capped at 50 records, not an append-only log. Group keys are case-sensitive and keep the separator before the number. The save refuses an existing next name instead of searching on for a free one.

## Findings

`SavePlus` and `Panel.PreviewName` model the code as written. The corrected members state the evident intention next to it.

| source | as written | input that shows it | evidently intended | confidence | as-written member | corrected member |
|---|---|---|---|---|---|---|
| savePlus.py:1290-1303 | `re.search(r'(\D*)(\d+)(\D*)$')` returns the leftmost match, which starts just after the previous digit run. The text before it is dropped from the new name. | `scene45_99.mb` gives `_100.mb` | `scene45_100.mb`, as the About dialog at savePlus.py:111 shows | not executed | AboutExamples.SceneExampleAsWritten | AboutExamples.SceneExampleIntended |
| SavePlus - Work in progress/savePlus_core.py:259-290 | The assignment pattern has five `_` fields, but the generator of the same version, SavePlus - Work in progress/savePlus_main.py:1564-1574, writes six (stage and status), as src/savePlus_main.py:1782-1792 does. Generated names fall to the trailing rule and lose their assignment prefix. savePlus.py is consistent on its own: its generator (savePlus.py:1039-1040) writes the five fields its pattern (savePlus.py:1273) matches. | `J02_Smith_John_layout_wip_01` gives `_Smith_John_layout_wip_02` | `J02_Smith_John_layout_wip_02` | not executed | Panel.GeneratedNameLosesAssignment | Panel.GeneratedNameKeepsFront |
| src/savePlus_main.py:2390-2409 | The preview applies only the trailing rule, not the assignment rule that the save applies first. | `A01_Smith_John_wip_01.ma` is previewed as `_Smith_John_wip_02.ma` | `A01_Smith_John_wip_02.ma`, the name the save writes | not executed | FindingExamples.PreviewExample | Panel.IntendedPreviewIsSavedName |
