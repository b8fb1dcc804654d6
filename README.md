# nextui-updater-pak: update orchestration in Dafny

This project models the update logic of the NextUI updater pak, an on-device
tool that updates the NextUI firmware on a handheld's SD card and also updates
itself. The model covers four parts:

- **Release check** (`ReleaseCheck`). This is `do_nextui_release_check`. Each
  fetched release is paired, newest first, with the first still-unused tag of
  the same name, and that tag is then used up. The check fails when the newest
  release has no tag. The release the installed build corresponds to is
  selected, and the result is published in the shared state.
- **Update sequencing**:
  - `Extract` models `extract_zip`.
  - `Filters` models the accept-all, quick and full entry filters. The full
    filter reads the card each time it is asked.
  - `SelfUpdate` models `self_update` and `do_self_update`: version gate,
    backup rename, unpacking, rollback, and exit code 5.
  - `NextuiUpdate` models `update_nextui` and `do_update`: release choice,
    asset choice, unpacking, reboot, and the recovery re-check.
  - `Download` models the chunk loop of `download`, which passes the share
    received so far to the progress callback.
- **Shared state** (`AppState`). The class `AppStateManager` has one field per
  field of `AppState`. Every getter, setter and combined operation is one
  method, and its `modifies` frame names exactly the fields it assigns.
- **Start-up** (`Startup`). The installed build is read from the second line
  of `.system/version.txt`, exactly as `str::lines().nth(1)` does, with no
  trimming. The background task runs the self-update and then the release
  check.

The SD card (`FileSystem`) is a map from paths to bytes, plus a set of
directories, plus a set of paths where writes fail. Paths are component lists
relative to the card root. The `std::fs` calls are functions on that value,
applied in place by the `SdCard` class. Network fetches, the downloader,
`semver` parsing, `current_exe` and the `reboot` command are inputs: each is a
value or an error, and the downloader and the parser are functions of their
argument.

Two behaviours follow the code where a reader might expect otherwise:

- The installed-version line is not trimmed (src/main.rs:37-40). Only the
  `\n` or `\r\n` terminator is removed.
- A failed rollback rename in `self_update` is not reported in any special
  way. Its `std::io::Error` is returned through `?` (src/update/mod.rs:111),
  like every other error.

## Model

| member | source | states |
|---|---|---|
| `Text.EscapeChar` | src/update/mod.rs:190 | inside `{:?}`, exactly `"`, `\`, tab, carriage return, line feed and NUL become a two-character backslash escape; every other character is written as itself (see "Left out" for `\u{…}`) |
| `Text.Quoted` | src/update/mod.rs:190 | `{:?}` of a tag name starts and ends with a double quote and is at least two characters longer than the name |
| `Text.EscapedRoundTrip` | src/update/mod.rs:190 | reading the escapes back gives the name: `{:?}` loses nothing |
| `Text.PlainTextQuoted` | src/update/mod.rs:190 | a name with nothing to escape appears verbatim between the quotes |
| `Text.FirstIndex` | src/main.rs:38 | the position of the first occurrence of a character, with none before it, or none when it does not occur |
| `FileSystem.CreateDirAllOn` | src/update/mod.rs:48 | `create_dir_all` succeeds exactly when neither the path nor a directory it would create is a file, failing with "already exists" or "not a directory"; on success no file changes and the path is a directory (`CreateDirAllEffect` gives the rest) |
| `FileSystem.WriteFileOn` | src/update/mod.rs:25-29 | the write succeeds only on a writable non-directory path whose parent is a directory; then the card's files are the old ones plus that path, which holds the content (`WriteFileEffect` gives the rest) |
| `FileSystem.RenameOn` | src/update/mod.rs:95-111 | the rename succeeds only for an existing file and a target that is not a directory, inside a directory; then the files lose the source, gain the target, and the target holds the source's old bytes (`RenameEffect` gives the frame) |
| `FileSystem.Ancestry` | src/update/mod.rs:48 | the directories `create_dir_all(p)` makes are exactly the non-empty leading parts of `p` |
| `FileSystem.Children` | src/update/mod.rs:276-278 | a name is listed in a directory exactly when a file or a directory of that name is inside it |
| `FileSystem.ReadDir` | src/update/mod.rs:276 | `read_dir` succeeds exactly on a directory |
| `FileSystem.CreateDirAllEffect` | src/update/mod.rs:47-49 | a successful `create_dir_all(p)` leaves `p` and all its ancestors as directories, changes no file, and removes nothing |
| `FileSystem.CreateDirAllIdempotent` | src/update/mod.rs:47-49 | creating an existing directory again succeeds and changes nothing |
| `FileSystem.CreateDirAllKeepsWellFormed` | src/update/mod.rs:47-49 | directory creation keeps the card a tree: nothing is both file and directory, and every entry has a parent directory |
| `FileSystem.WriteFileEffect` | src/update/mod.rs:25-29 | create/truncate plus one write leaves the file holding exactly the content, and no other file or directory changes |
| `FileSystem.WriteFileKeepsWellFormed` | src/update/mod.rs:25-29 | writing a file keeps the card a tree |
| `FileSystem.RenameEffect` | src/update/mod.rs:95-111 | a successful rename moves the source's bytes to the target, replacing any file there, removes the source, and changes no other file, no directory and no fault |
| `FileSystem.RenameRoundTrip` | src/update/mod.rs:95-111 | renaming a file to a free name and back restores the card exactly |
| `FileSystem.RenameBackDropsReplaced` | src/update/mod.rs:95-111 | renaming a file over an existing file and back restores the card except that the replaced file is gone |
| `FileSystem.SdCard.CreateDirAll` | src/update/mod.rs:48 | the card becomes `create_dir_all`'s result on success, and is unchanged with the error on failure |
| `FileSystem.SdCard.WriteFile` | src/update/mod.rs:25-29 | the card becomes the write's result on success, and is unchanged with the error on failure |
| `FileSystem.SdCard.Rename` | src/update/mod.rs:95 | the card becomes the rename's result on success, and is unchanged with the error on failure |
| `Filters.JoinPath` | src/update/mod.rs:40-42 | the name the filter sees starts with the first component, followed by `/` when there are more; a single plain component gives a name with no `/` |
| `Filters.SplitPath` | src/update/mod.rs:40-42 | splitting a name at `/` gives a non-empty list of components, none holding `/` |
| `Filters.SplitJoinRoundTrip` | src/update/mod.rs:40-42 | splitting the joined name at `/` gives back the components, so the joined name the filter sees loses nothing |
| `Filters.RomsEntryIff` | src/update/mod.rs:271 | a joined name starts with `Roms/` exactly when its first component is `Roms` and another follows |
| `Filters.FindGroup` | src/update/mod.rs:270-273 | finds the leftmost `(`word characters`)` match, and reports none exactly when no match exists |
| `Filters.EmuTag` | src/update/mod.rs:270-273 | the `emu` capture is absent exactly when the name has no `(\w+)` group; when present it is non-empty word characters, the name contains it in parentheses, and it is the leftmost such group |
| `Filters.AcceptAll` | src/update/mod.rs:100 | the self-update's filter closure, which ignores its argument and returns true, accepts every name on every card |
| `Filters.QuickAccepts` | src/update/mod.rs:299-305 | the quick filter accepts only names beginning with `M` (`MinUI.zip`) or `t` (`trimui`), so never a `Roms/` entry; `NextuiUpdate.QuickReportsExactlyAllowed` gives what it lets through |
| `Filters.FullAccepts` | src/update/mod.rs:268-294 | the full filter refuses only a `Roms/` name with an emulator tag while the `Roms` directory exists; `FullRejectsExactlyProtected` gives the exact condition |
| `Filters.FullRejectsExactlyProtected` | src/update/mod.rs:268-294 | the full filter refuses a name exactly when it is under `Roms/`, has a tag, and an entry of the `Roms` directory contains `(tag)`; an unlistable `Roms` protects nothing |
| `Filters.ProtectedPersists` | src/update/mod.rs:276-290 | once a name is refused, it stays refused while the card only grows |
| `Extract.Step` | src/update/mod.rs:37-58 | an entry is skipped exactly when it is readable and the filter refuses it on the current card, and applied only when the filter accepts it |
| `Extract.StepEffect` | src/update/mod.rs:46-56 | an applied directory entry leaves it and every leading part of it a directory; an applied file entry was read whole and the card then holds exactly its bytes under its name; any other entry changes nothing |
| `Extract.ExtractFrom` | src/update/mod.rs:36-59 | progress is reported only for entries from the walk's start to the archive's end, and a complete walk reports at most once per entry |
| `Extract.Extraction` | src/update/mod.rs:32-59 | `ZipArchive::new` then the walk: a package that is not a zip fails, and progress is reported only for indices of its entries |
| `Extract.ExtractEntry` | src/update/mod.rs:37-56 | one loop turn: the card and the outcome follow the entry's step, and `accepted` is false exactly for a refused entry |
| `Extract.ExtractZip` | src/update/mod.rs:20-62 | the card and outcome are those of the entry-by-entry walk; progress is `index/(len-1)` of the last accepted entry, or unchanged when none was accepted |
| `Extract.StepGrows` | src/update/mod.rs:47-54 | an applied entry removes nothing from the card |
| `Extract.ExtractGrows` | src/update/mod.rs:36-59 | unpacking never removes a file or a directory |
| `Extract.ExtractKeepsWellFormed` | src/update/mod.rs:36-59 | unpacking keeps the card a tree |
| `Extract.ReportedInOrder` | src/update/mod.rs:36-58 | progress reports are for entry indices in strictly increasing order, within the archive |
| `Extract.FailureKeepsEarlierWrites` | src/update/mod.rs:37-54 | a failed walk stops at a first failing entry; the card is what the successful walk over the earlier entries left, and the failing entry changed nothing |
| `Extract.ReportedExactlyAccepted` | src/update/mod.rs:41-58 | with a filter that ignores the card, a complete walk reports progress after exactly the entries the filter accepts |
| `Extract.RejectedFileKept` | src/update/mod.rs:41-44 | a file the filter refuses on every later card keeps its bytes |
| `Extract.ReportedDirectoriesMade` | src/update/mod.rs:46-49 | every directory entry after which progress was reported is a directory on the final card |
| `Extract.UnwrittenFileKept` | src/update/mod.rs:36-59 | a file that no applied entry from a given point on writes keeps its bytes |
| `Extract.LastWriteKept` | src/update/mod.rs:50-54 | a file ends up holding the bytes of the last applied entry that wrote it |
| `Extract.UnnamedFileKept` | src/update/mod.rs:36-59 | a file no archive entry names keeps its bytes |
| `Extract.NoDirectoryMade` | src/update/mod.rs:47-49 | only a directory entry at a path, or an entry below it, can turn that path into a directory |
| `AppState.AppStateManager.constructor` | src/app_state.rs:39-56 | every optional field is None, both flags are false, and the submenu is NextUI |
| `AppState.AppStateManager.Submenu` | src/app_state.rs:66-68 | returns the field and changes nothing |
| `AppState.AppStateManager.ShouldQuit` | src/app_state.rs:70-72 | returns the field and changes nothing |
| `AppState.AppStateManager.CurrentOperation` | src/app_state.rs:74-76 | returns the field and changes nothing |
| `AppState.AppStateManager.Progress` | src/app_state.rs:78-80 | returns the field and changes nothing |
| `AppState.AppStateManager.Error` | src/app_state.rs:82-84 | returns the field and changes nothing |
| `AppState.AppStateManager.Hint` | src/app_state.rs:86-88 | returns the field and changes nothing |
| `AppState.AppStateManager.CurrentVersion` | src/app_state.rs:90-92 | returns the field and changes nothing |
| `AppState.AppStateManager.NextuiRelease` | src/app_state.rs:94-96 | returns the field and changes nothing |
| `AppState.AppStateManager.NextuiTag` | src/app_state.rs:98-100 | returns the field and changes nothing |
| `AppState.AppStateManager.NextuiReleasesAndTags` | src/app_state.rs:102-104 | returns the field and changes nothing |
| `AppState.AppStateManager.NextuiReleasesAndTagsIndex` | src/app_state.rs:106-108 | returns the field and changes nothing |
| `AppState.AppStateManager.ReleaseSelectionMenu` | src/app_state.rs:110-112 | returns the field and changes nothing |
| `AppState.AppStateManager.SetSubmenu` | src/app_state.rs:115-117 | sets `submenu` only |
| `AppState.AppStateManager.SetShouldQuit` | src/app_state.rs:119-121 | sets `should_quit` only |
| `AppState.AppStateManager.SetCurrentOperation` | src/app_state.rs:123-125 | sets `current_operation` only |
| `AppState.AppStateManager.SetProgress` | src/app_state.rs:127-129 | sets `progress` only |
| `AppState.AppStateManager.SetError` | src/app_state.rs:131-133 | sets `error` only; `None` clears it |
| `AppState.AppStateManager.SetHint` | src/app_state.rs:135-137 | sets `hint` only |
| `AppState.AppStateManager.SetCurrentVersion` | src/app_state.rs:139-141 | sets `current_version` only |
| `AppState.AppStateManager.SetNextuiRelease` | src/app_state.rs:143-145 | sets `nextui_release` only |
| `AppState.AppStateManager.SetNextuiTag` | src/app_state.rs:147-149 | sets `nextui_tag` only |
| `AppState.AppStateManager.SetNextuiReleasesAndTags` | src/app_state.rs:151-153 | sets `nextui_releases_and_tags` only |
| `AppState.AppStateManager.SetNextuiReleasesAndTagsIndex` | src/app_state.rs:155-157 | sets `nextui_releases_and_tags_index` only |
| `AppState.AppStateManager.SetReleaseSelectionMenu` | src/app_state.rs:159-161 | sets `release_selection_menu` only |
| `AppState.AppStateManager.StartOperation` | src/app_state.rs:164-168 | sets the label and `Indeterminate` together; nothing else changes |
| `AppState.AppStateManager.StartDeterminateOperation` | src/app_state.rs:170-174 | sets the label and `Determinate(0.0)` together; nothing else changes |
| `AppState.AppStateManager.UpdateProgress` | src/app_state.rs:176-178 | sets `progress` to the determinate fraction and leaves the label alone |
| `AppState.AppStateManager.FinishOperation` | src/app_state.rs:180-184 | clears the label and progress and leaves `error` as it was |
| `AppState.AppStateManager.SetOperationFailed` | src/app_state.rs:186-191 | clears the label and progress and sets `error` to the message |
| `AppState.AppStateManager.ClearError` | src/app_state.rs:193-195 | clears `error` only |
| `AppState.AppStateManager.EnterSubmenu` | src/app_state.rs:197-201 | sets the submenu and clears the hint, and nothing else |
| `ReleaseCheck.FindTag` | src/update/mod.rs:174 | `position`: the first tag with the release's name, or none when no tag has it |
| `ReleaseCheck.RemoveAt` | src/update/mod.rs:181 | `Vec::remove` drops exactly that one tag from the pool and keeps the others in their order |
| `ReleaseCheck.LastInstalled` | src/update/mod.rs:176-179 | the last pair whose tag sha starts with the installed version, or none when no pair does |
| `ReleaseCheck.PairNext` | src/update/mod.rs:174-186 | one turn of the loop: a release with an equal-named tag is appended with that tag, which leaves the pool, and the index is recorded exactly when the commit hash starts with the installed version; a release without one changes nothing; either way the pairs so far plus the pairing of the rest stay the same |
| `ReleaseCheck.PairReleases` | src/update/mod.rs:169-193 | the loop builds exactly the release/tag pairing, gives up with "Latest release has no matching tag: \"…\"" exactly when the newest release has no tag, and records the last installed pair's index as it goes |
| `ReleaseCheck.DoNextuiReleaseCheck` | src/update/mod.rs:127-204 | on each failure the matching message goes to `error` and no release, tag, list or index is stored; on success the pair-0 release and tag, the list and the selected index are stored and `error` is kept; label and progress are cleared either way |
| `ReleaseCheck.PairedReleasesExactly` | src/update/mod.rs:173-186 | the pairing (`Resolve`) keeps exactly the releases that find an unused tag: the n-th release with a given name is paired exactly when at least n fetched tags carry that name |
| `ReleaseCheck.DistinctReleasesPairedIffTagged` | src/update/mod.rs:173-186 | when no two releases share a tag name, a release is paired exactly when some fetched tag carries its name |
| `ReleaseCheck.CheckReleases` | src/update/mod.rs:134-192 | a successful check's selected index lies within its list; `CheckFailsExactly` and `ResolvedSelection` state when it fails and what it selects |
| `ReleaseCheck.ResolvedNamesMatch` | src/update/mod.rs:174-175 | every pair's tag name equals its release's tag name |
| `ReleaseCheck.ResolvedTagsFromPool` | src/update/mod.rs:175-181 | the pairs' tags, counted with multiplicity, are among the fetched tags: a tag is used at most as often as it was fetched |
| `ReleaseCheck.ResolvedKeepsReleaseOrder` | src/update/mod.rs:173-186 | the pairs list the releases in their fetched order, possibly with some left out |
| `ReleaseCheck.UntaggedReleaseDropped` | src/update/mod.rs:173-193 | a release whose name no fetched tag carries ends up in no pair |
| `ReleaseCheck.CheckFailsExactly` | src/update/mod.rs:135-192 | the check fails exactly when a fetch errs, returns nothing, or no tag carries the newest release's name |
| `ReleaseCheck.ResolvedSelection` | src/update/mod.rs:171-200 | on success the newest release heads the list with its own tag, the index is in range, and it is the last installed pair or 0 when none is installed |
| `ReleaseCheck.MissingVersionSelectsOldest` | src/update/mod.rs:171-179 | with no installed version every sha matches `""`, so the last (oldest) pair is selected |
| `SelfUpdate.Newer` | src/update/mod.rs:78 | `available > installed` on `major.minor.patch`: a version is never newer than itself |
| `SelfUpdate.NewerTotalOrder` | src/update/mod.rs:78 | version order is a strict total order: two versions are equal or one is newer, never both newer, and newer is transitive |
| `SelfUpdate.LastDot` | src/update/mod.rs:95 | the position of the last `.` in a file name, or none when it has no `.` |
| `SelfUpdate.FileStem` | src/update/mod.rs:95 | `file_stem` is a prefix of the name, empty only for an empty name, and cut just before a `.` when shorter |
| `SelfUpdate.StemDropsExtension` | src/update/mod.rs:95 | the stem of `stem.ext` is `stem` when the extension holds no `.` |
| `SelfUpdate.WithBakExtension` | src/update/mod.rs:95 | `with_extension("bak")` keeps the parent directory and the path's length, and the last component becomes its stem plus `.bak` |
| `SelfUpdate.BakNameFixedIff` | src/update/mod.rs:95 | the backup path equals the binary's path exactly when the name already ends in `.bak` after a non-empty stem |
| `SelfUpdate.SelfUpdatePlan` | src/update/mod.rs:64-125 | the plan exits only with code 5 and only when an update is available; without one the card is untouched and the function returns (`SuccessMeansNoUpdate`, `ExitMeansInstalled` and the rollback lemmas give the rest) |
| `SelfUpdate.RunSelfUpdate` | src/update/mod.rs:64-125 | the end, the card, the label and the progress follow the self-update plan; progress is `Indeterminate`, or after a failed download the last chunk's share |
| `SelfUpdate.DoSelfUpdate` | src/update/mod.rs:206-218 | a normal return clears label and progress; an error also sets "Self-update failed: …"; an exit leaves the restart label |
| `SelfUpdate.SuccessMeansNoUpdate` | src/update/mod.rs:74-84 | `Ok(())` comes back exactly when both versions parsed and the release is not newer, and then the card is untouched |
| `SelfUpdate.ExitMeansInstalled` | src/update/mod.rs:86-124 | the process exits with code 5 only after a newer build was downloaded, the binary was moved aside and the package unpacked completely |
| `SelfUpdate.BackupFailureAborts` | src/update/mod.rs:94-95 | when the backup rename fails, nothing is unpacked, the card is untouched, and the rename error is returned |
| `SelfUpdate.RollbackOnCard` | src/update/mod.rs:95-111 | on the card: once the binary was moved to its `.bak` path, replacing any older backup there, and a package with no directory at the binary's path and no file at the backup path was unpacked, renaming the backup back succeeds, restores the old bytes and leaves no backup |
| `SelfUpdate.PlanAfterRollback` | src/update/mod.rs:97-113 | when the unpack fails and renaming the backup back succeeds, the plan returns "Failed to extract update package" with the card as that rename left it |
| `SelfUpdate.RollbackRestoresBinary` | src/update/mod.rs:97-113 | after a failed unpack the backup is renamed back, whether or not an older `.bak` was on the card: the binary has its old bytes, the backup is gone, and the error is "Failed to extract update package"; a package that is not a zip leaves the card as it was, minus the older backup |
| `NextuiUpdate.FindAsset` | src/update/mod.rs:249-251 | the first asset whose name contains the keyword, or none when no asset does |
| `NextuiUpdate.ChooseAsset` | src/update/mod.rs:248-253 | the first asset naming "all" (full) or "base" (quick), else the first asset; "No assets found" exactly when there are none |
| `NextuiUpdate.TargetRelease` | src/update/mod.rs:234-246 | "No release found" exactly when no release is stored; with the menu on, the list's release at the selected index (0 when none is selected); otherwise the stored release |
| `NextuiUpdate.UpdatePlan` | src/update/mod.rs:233-325 | the update succeeds only when the reboot command did and ends on the reboot label; without a target release the card is untouched (`SuccessMeansRebooted` and `OnlyExtractionWrites` give the rest) |
| `NextuiUpdate.UpdateNextui` | src/update/mod.rs:233-325 | the result, the card, the label and the progress follow the update plan, through the full or the quick filter; after a failed download progress is the last chunk's share, or `0.0` when none was reported |
| `Download.ReportChunks` | src/update/fetching.rs:64-76 | once a download ends, progress is the share received by its last chunk when the response announced a length and some chunk arrived, and is unchanged otherwise |
| `NextuiUpdate.DoUpdate` | src/update/mod.rs:220-231 | on failure "Update failed: …" is recorded and the release check re-run; it survives a successful check and is replaced by a failed check's message |
| `NextuiUpdate.CheckedStateSelectsRelease` | src/update/mod.rs:196-246 | after a successful check the selection fits the list, and the update installs the selected pair's release (menu on) or the newest release (menu off) |
| `NextuiUpdate.OnlyExtractionWrites` | src/update/mod.rs:234-287 | the card changes only through the unpacking of the chosen asset's download |
| `NextuiUpdate.SuccessMeansRebooted` | src/update/mod.rs:262-325 | the update succeeds only when the release and asset were found, the package downloaded and unpacked completely, and the reboot command ran |
| `NextuiUpdate.QuickReportsExactlyAllowed` | src/update/mod.rs:299-305 | a complete quick update reports progress after exactly the entries under `MinUI.zip` or `trimui` |
| `NextuiUpdate.QuickKeepsOtherFiles` | src/update/mod.rs:299-305 | a quick update leaves every file outside `MinUI.zip…`/`trimui…` as it was |
| `NextuiUpdate.FullKeepsProtectedFiles` | src/update/mod.rs:268-294 | a full update never overwrites a file of an emulator whose ROM folder is already present |
| `NextuiUpdate.FullSkipsFilesOfFolderItCreated` | src/update/mod.rs:276 | because `read_dir` runs per entry, a `Roms/(GB)` folder the same update just created makes it skip `Roms/(GB)/a` |
| `Startup.StripCr` | src/main.rs:38 | a line loses at most one trailing `\r`, and only when it ends in one |
| `Startup.Lines` | src/main.rs:38 | no line holds a `\n` |
| `Startup.InstalledVersion` | src/main.rs:35-40 | the version, when present, is a single line |
| `Startup.LineCount` | src/main.rs:38 | `lines()` gives one line per `\n`, plus one for an unterminated last line |
| `Startup.SplitFirstLine` | src/main.rs:38 | the first line is the text up to the first `\n`, without a `\r` before it |
| `Startup.SecondLineVerbatim` | src/main.rs:37-40 | the version is the second line exactly as written, spaces included; only its terminator goes |
| `Startup.UnterminatedSecondLine` | src/main.rs:37-40 | a second line with no terminator is kept whole |
| `Startup.CrlfSecondLine` | src/main.rs:37-40 | a `\r\n` ending is removed whole |
| `Startup.MissingMarkerNoVersion` | src/main.rs:35-36 | a missing or unreadable marker reads as empty and gives no version |
| `Startup.SingleLineNoVersion` | src/main.rs:37-40 | one line, terminated or not, gives no version |
| `Startup.Launch` | src/main.rs:23-41 | the version is read from the marker and the card follows the self-update plan; the ensures on the shared state carry the order: after an exit no release data is stored and the restart label stays, otherwise the release check's results are stored over the self-update's, and a self-update error survives only a successful check |

## Left out

- The user interface (src/ui.rs) is not part of this model: rendering, fonts, input mapping, the up-to-date test at ui.rs:30, and "Update anyway" clearing the tag.
- HTTP, JSON decoding and TLS (src/update/fetching.rs) are not modelled. The fetches are `Result` inputs, and `download` is a function from URL to a `Fetched` value: the archive or error, the chunk byte counts, and the announced length.
- `Download.ReportChunks` takes the byte counts after each chunk and the announced length as inputs. The HTTP exchange itself is not modelled, and only the progress left when the download ends is stated, not each value shown along the way.
- Zip parsing and `mangled_name` are not modelled. Each entry arrives with its sanitized name as a path. No claim is made that names stay inside the card.
- `semver` parsing is an input function, and versions are `major.minor.patch` triples. Pre-release and build-metadata ordering is not modelled.
- The regex `\w` is ASCII word characters here. The real class is Unicode.
- `Text.EscapeChar` / `Text.Quoted` escape only `"`, `\`, tab, carriage return, line feed and NUL. Rust's `{:?}` also writes other non-printable characters as `\u{…}`; that Unicode escaping is not modelled.
- Progress values stay unevaluated as `index / (len - 1)`. The `f32` division is not modelled, including the 0/0 of a one-entry archive.
- Threads, the mutex, `thread::sleep` and `println!` are left out. `do_update`'s thread and the start-up task run as sequential steps.
- The race at src/main.rs:29-41 is not modelled. `Launch` sets the installed version before the background task reads it.
- `exit(5)` is the `Exited(5)` outcome rather than a process end.
- `reboot` is an input outcome.
- `AppStateManager::clone` and `inner` are left out. The model shares one object, as `Arc::clone` does.
- Directory renames are not modelled, and the card's write faults apply to files only.
- A missing parent is reported as "not found" even when a file sits where a directory is expected.
- `SdCard.WriteFile` assumes the single `write` call writes all of the content. Short writes are not modelled.
- Path components are plain names. `.`, `..` and the root prefix `/mnt/SDCARD/` are not modelled.
- `Startup.Launch` takes the marker file as optional text. Reading bytes and UTF-8 decoding are not modelled.
