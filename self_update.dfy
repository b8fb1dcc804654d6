/**
 * `self_update` and `do_self_update` (src/update/mod.rs): compare the
 * updater's own version with its newest release, download and unpack the
 * newer build over the card after moving the running binary aside, put the
 * binary back when unpacking fails, and end the process with exit code 5
 * when it succeeds.
 */
module SelfUpdate {
  import opened Wrappers
  import opened Text
  import opened GitHub
  import opened AppState
  import opened FileSystem
  import opened Filters
  import opened Extract
  import opened Download

  /** A release version as `major.minor.patch`. */
  datatype Version = Version(major: nat, minor: nat, patch: nat)

  /** `a > b` in version order. */
  predicate Newer(a: Version, b: Version)
    ensures Newer(a, b) ==> a != b
  {
    || a.major > b.major
    || (a.major == b.major && a.minor > b.minor)
    || (a.major == b.major && a.minor == b.minor && a.patch > b.patch)
  }

  /** Version order is a strict total order, as semver's is on `major.minor.patch`. */
  lemma NewerTotalOrder(a: Version, b: Version, c: Version)
    ensures a == b || Newer(a, b) || Newer(b, a)
    ensures !(Newer(a, b) && Newer(b, a))
    ensures Newer(a, b) && Newer(b, c) ==> Newer(a, c)
  {
  }

  /**
   * What the self-update consults outside the card: the newest updater
   * release, the version parser, the version this build was compiled as,
   * the downloader (by URL) and the path of the running binary.
   */
  datatype Sources = Sources(
    latest: Result<Release, Error>,
    parse: string -> Result<Version, Error>,
    installed: string,
    download: string -> Fetched,
    currentExe: Result<Path, Error>)

  /** Index of the last '.' in `s`. */
  function LastDot(s: string): (r: Option<nat>)
    ensures r.Some? ==> r.value < |s| && s[r.value] == '.' && forall j | r.value < j < |s| :: s[j] != '.'
    ensures r.None? ==> forall j | 0 <= j < |s| :: s[j] != '.'
  {
    if s == [] then None
    else if s[|s| - 1] == '.' then Some(|s| - 1)
    else LastDot(s[..|s| - 1])
  }

  /** `Path::file_stem`: the name up to its last '.', unless that '.' starts the name. */
  function FileStem(name: string): (stem: string)
    ensures |stem| <= |name| && stem == name[..|stem|]
    ensures stem != [] <==> name != []
    ensures |stem| < |name| ==> name[|stem|] == '.'
  {
    match LastDot(name)
    case Some(i) => if i > 0 then name[..i] else name
    case None => name
  }

  /** The stem of `stem.ext` is `stem` when the extension holds no '.'. */
  lemma StemDropsExtension(stem: string, ext: string)
    requires stem != [] && '.' !in ext
    ensures FileStem(stem + "." + ext) == stem
  {
    var name := stem + "." + ext;
    assert name[|stem|] == '.';
    assert forall j | |stem| < j < |name| :: name[j] == ext[j - |stem| - 1];
    assert LastDot(name) == Some(|stem|);
    assert name[..|stem|] == stem;
  }

  /** A name without a '.' is its own stem, and so is a name whose only '.' comes first. */
  lemma StemWithoutExtension(name: string)
    requires forall j | 0 < j < |name| :: name[j] != '.'
    ensures FileStem(name) == name
  {
  }

  /** `Path::with_extension("bak")`; a path without a file name is left as it is. */
  function WithBakExtension(p: Path): (q: Path)
    ensures |q| == |p| && (|p| > 0 ==> Parent(q) == Parent(p))
    ensures |p| > 0 ==> q[|q| - 1] == FileStem(p[|p| - 1]) + ".bak"
  {
    if p == [] then p else Parent(p) + [FileStem(p[|p| - 1]) + ".bak"]
  }

  /** The backup name is the binary's own name exactly when that name already has a non-empty stem and the extension "bak". */
  lemma BakNameFixedIff(p: Path)
    requires |p| > 0
    ensures WithBakExtension(p) == p <==> EndsWith(p[|p| - 1], ".bak") && |p[|p| - 1]| > 4
  {
    var name := p[|p| - 1];
    assert p == Parent(p) + [name];
    if EndsWith(name, ".bak") && |name| > 4 {
      var x := name[..|name| - 4];
      assert name == x + ".bak";
      assert name[|x|] == '.';
      assert LastDot(name).Some? && LastDot(name).value == |x|;
      assert FileStem(name) == x;
    }
    if WithBakExtension(p) == p {
      assert FileStem(name) + ".bak" == name;
    }
  }

  /** How `self_update` ends: it returns, or it ends the process with an exit code. */
  datatype SelfUpdateEnd = Returned(result: Outcome<Error>) | Exited(code: int)

  /** The end, the card afterwards, and the last operation and progress shown. */
  datatype SelfUpdateRun = SelfUpdateRun(end: SelfUpdateEnd, disk: Disk, operation: string, progress: Option<Progress>)

  /** The newest release was fetched, both versions parsed, and the release is newer. */
  predicate UpdateAvailable(src: Sources) {
    && src.latest.Success?
    && src.parse(src.latest.value.tagName).Success?
    && src.parse(src.installed).Success?
    && Newer(src.parse(src.latest.value.tagName).value, src.parse(src.installed).value)
  }

  /** The first error among fetching the release and parsing the two versions, if any. */
  function VersionError(src: Sources): Option<Error> {
    if src.latest.Failure? then Some(src.latest.error)
    else if src.parse(src.latest.value.tagName).Failure? then Some(src.parse(src.latest.value.tagName).error)
    else if src.parse(src.installed).Failure? then Some(src.parse(src.installed).error)
    else None
  }

  const FetchingUpdater := "Fetching latest updater release..."
  const DownloadingUpdater := "Downloading updater..."
  const ExtractFailed := "Failed to extract update package"
  const Restarting := "Self-update success! Restarting updater..."
  /** The exit code that asks the launcher to restart the updater. */
  const RestartCode := 5

  function ExtractingUpdater(tagName: string): string {
    "Extracting NextUI Updater " + tagName + "..."
  }

  /** What `self_update` does to the card and how it ends, step by step. */
  function SelfUpdatePlan(src: Sources, d: Disk): (run: SelfUpdateRun)
    requires UpdateAvailable(src) ==> |src.latest.value.assets| > 0
    ensures run.end.Exited? ==> run.end.code == RestartCode && UpdateAvailable(src)
    ensures !UpdateAvailable(src) ==> run.disk == d && run.end.Returned?
  {
    if VersionError(src).Some? then SelfUpdateRun(Returned(Fail(VersionError(src).value)), d, FetchingUpdater, Some(Indeterminate))
    else if !UpdateAvailable(src) then SelfUpdateRun(Returned(Pass), d, FetchingUpdater, Some(Indeterminate))
    else
      var release := src.latest.value;
      var fetched := src.download(release.assets[0].url);
      match fetched.result
      case Failure(e) =>
        SelfUpdateRun(Returned(Fail(e)), d, DownloadingUpdater, ProgressAfterDownload(fetched, Some(Indeterminate)))
      case Success(archive) =>
        var shown := ExtractingUpdater(release.tagName);
        match src.currentExe
        case Failure(e) => SelfUpdateRun(Returned(Fail(e)), d, shown, Some(Indeterminate))
        case Success(exe) =>
          match RenameOn(d, exe, WithBakExtension(exe))
            case Failure(e) => SelfUpdateRun(Returned(Fail(e)), d, shown, Some(Indeterminate))
            case Success(moved) =>
              var extracted := Extraction(archive, AcceptAll, moved);
              if extracted.outcome.Fail? then
                match RenameOn(extracted.disk, WithBakExtension(exe), exe)
                case Failure(e) => SelfUpdateRun(Returned(Fail(e)), extracted.disk, shown, Some(Indeterminate))
                case Success(restored) => SelfUpdateRun(Returned(Fail(ExtractFailed)), restored, shown, Some(Indeterminate))
              else SelfUpdateRun(Exited(RestartCode), extracted.disk, Restarting, Some(Indeterminate))
  }

  /** `self_update`. */
  method RunSelfUpdate(st: AppStateManager, card: SdCard, src: Sources) returns (end: SelfUpdateEnd)
    requires UpdateAvailable(src) ==> |src.latest.value.assets| > 0
    modifies card, st`currentOperation, st`progress
    ensures var run := SelfUpdatePlan(src, old(card.View()));
      && end == run.end && card.View() == run.disk
      && st.currentOperation == Some(run.operation) && st.progress == run.progress
  {
    st.StartOperation(FetchingUpdater);
    if src.latest.Failure? {
      return Returned(Fail(src.latest.error));
    }
    var release := src.latest.value;
    var available := src.parse(release.tagName);
    if available.Failure? {
      return Returned(Fail(available.error));
    }
    var installed := src.parse(src.installed);
    if installed.Failure? {
      return Returned(Fail(installed.error));
    }
    if Newer(available.value, installed.value) {
      st.SetCurrentOperation(Some(DownloadingUpdater));
    } else {
      return Returned(Pass);
    }

    var fetched := src.download(release.assets[0].url);
    ReportChunks(st, fetched);
    if fetched.result.Failure? {
      return Returned(Fail(fetched.result.error));
    }
    var bytes := fetched.result;
    st.SetCurrentOperation(Some(ExtractingUpdater(release.tagName)));
    st.SetProgress(Some(Indeterminate));

    if src.currentExe.Failure? {
      return Returned(Fail(src.currentExe.error));
    }
    var currentBinary := src.currentExe.value;
    var backup := WithBakExtension(currentBinary);
    var moved := card.Rename(currentBinary, backup);
    if moved.Fail? {
      return Returned(Fail(moved.error));
    }

    var result := ExtractZip(bytes.value, AcceptAll, card, st);
    st.SetProgress(Some(Indeterminate));

    if result.Fail? {
      var restored := card.Rename(backup, currentBinary);
      if restored.Fail? {
        return Returned(Fail(restored.error));
      }
      return Returned(Fail(ExtractFailed));
    }

    st.SetCurrentOperation(Some(Restarting));
    return Exited(RestartCode);
  }

  /** `do_self_update`: run the self-update and report how it went. */
  method DoSelfUpdate(st: AppStateManager, card: SdCard, src: Sources) returns (end: SelfUpdateEnd)
    requires UpdateAvailable(src) ==> |src.latest.value.assets| > 0
    modifies card, st`currentOperation, st`progress, st`error
    ensures var run := SelfUpdatePlan(src, old(card.View()));
      && end == run.end && card.View() == run.disk
      && match end
        case Exited(_) =>
          st.currentOperation == Some(Restarting) && st.progress == Some(Indeterminate) && st.error == old(st.error)
        case Returned(Pass) =>
          st.currentOperation.None? && st.progress.None? && st.error == old(st.error)
        case Returned(Fail(e)) =>
          st.currentOperation.None? && st.progress.None? && st.error == Some("Self-update failed: " + e)
  {
    end := RunSelfUpdate(st, card, src);
    match end {
      case Exited(_) =>
      case Returned(Pass) =>
        st.FinishOperation();
      case Returned(Fail(e)) =>
        st.SetOperationFailed("Self-update failed: " + e);
    }
  }

  // Properties of the self-update.

  /** Only the no-update path returns success, and it leaves the card as it was. */
  lemma SuccessMeansNoUpdate(src: Sources, d: Disk)
    requires UpdateAvailable(src) ==> |src.latest.value.assets| > 0
    ensures SelfUpdatePlan(src, d).end == Returned(Pass) <==> VersionError(src).None? && !UpdateAvailable(src)
    ensures !UpdateAvailable(src) ==> SelfUpdatePlan(src, d).disk == d && SelfUpdatePlan(src, d).end.Returned?
  {
  }

  /** The process exits, with code 5, exactly when a newer build was downloaded, moved in and fully unpacked. */
  lemma ExitMeansInstalled(src: Sources, d: Disk)
    requires UpdateAvailable(src) ==> |src.latest.value.assets| > 0
    requires SelfUpdatePlan(src, d).end.Exited?
    ensures SelfUpdatePlan(src, d).end.code == 5
    ensures UpdateAvailable(src) && src.download(src.latest.value.assets[0].url).result.Success?
    ensures src.currentExe.Success?
    ensures var exe := src.currentExe.value;
      && RenameOn(d, exe, WithBakExtension(exe)).Success?
      && var run := Extraction(src.download(src.latest.value.assets[0].url).result.value, AcceptAll,
                               RenameOn(d, exe, WithBakExtension(exe)).value);
         run.outcome == Pass && SelfUpdatePlan(src, d).disk == run.disk
  {
  }

  /** When the binary cannot be moved aside, nothing is unpacked and the card is untouched. */
  lemma BackupFailureAborts(src: Sources, d: Disk)
    requires UpdateAvailable(src) ==> |src.latest.value.assets| > 0
    requires UpdateAvailable(src) && src.download(src.latest.value.assets[0].url).result.Success?
    requires src.currentExe.Success?
    requires RenameOn(d, src.currentExe.value, WithBakExtension(src.currentExe.value)).Failure?
    ensures SelfUpdatePlan(src, d).disk == d
    ensures SelfUpdatePlan(src, d).end ==
      Returned(Fail(RenameOn(d, src.currentExe.value, WithBakExtension(src.currentExe.value)).error))
  {
  }

  /**
   * On the card alone: after the binary was moved to `bak`, replacing any
   * older backup there, and a package that makes no directory at the
   * binary's path and writes no file at `bak` was unpacked, renaming `bak`
   * back succeeds and restores the old bytes.
   */
  lemma RollbackOnCard(slots: seq<Slot>, d: Disk, exe: Path, bak: Path)
    requires WellFormed(d) && exe in d.files && |exe| > 0
    requires bak != exe
    requires RenameOn(d, exe, bak).Success?
    requires NoDirectoryAt(slots, 0, exe) && NoFileNamed(slots, 0, bak)
    ensures var out := ExtractFrom(slots, AcceptAll, RenameOn(d, exe, bak).value, 0).disk;
      && RenameOn(out, bak, exe).Success?
      && exe in RenameOn(out, bak, exe).value.files
      && RenameOn(out, bak, exe).value.files[exe] == d.files[exe]
      && bak !in RenameOn(out, bak, exe).value.files
  {
    var moved := RenameOn(d, exe, bak).value;
    assert moved.files[bak] == d.files[exe];
    assert exe !in moved.files && exe !in moved.dirs;
    var out := ExtractFrom(slots, AcceptAll, moved, 0).disk;
    NoDirectoryMade(slots, AcceptAll, moved, 0, exe);
    UnnamedFileKept(slots, AcceptAll, moved, 0, bak);
    ExtractGrows(slots, AcceptAll, moved, 0);
    assert IsDir(d, Parent(exe));
    assert IsDir(out, Parent(exe));
  }

  /** The plan's path through a failed unpacking whose rollback rename succeeds. */
  lemma PlanAfterRollback(src: Sources, d: Disk, exe: Path)
    requires UpdateAvailable(src) && |src.latest.value.assets| > 0 && src.currentExe == Success(exe)
    requires src.download(src.latest.value.assets[0].url).result.Success?
    requires RenameOn(d, exe, WithBakExtension(exe)).Success?
    requires var run := Extraction(src.download(src.latest.value.assets[0].url).result.value, AcceptAll,
                                   RenameOn(d, exe, WithBakExtension(exe)).value);
      run.outcome.Fail? && RenameOn(run.disk, WithBakExtension(exe), exe).Success?
    ensures var run := Extraction(src.download(src.latest.value.assets[0].url).result.value, AcceptAll,
                                  RenameOn(d, exe, WithBakExtension(exe)).value);
      && SelfUpdatePlan(src, d).end == Returned(Fail(ExtractFailed))
      && SelfUpdatePlan(src, d).disk == RenameOn(run.disk, WithBakExtension(exe), exe).value
  {
  }

  /**
   * When unpacking fails, the backup is renamed back over whatever the
   * package had already written at the binary's path: provided the package
   * makes no directory there and writes no file at the backup path, the
   * binary is back with its old bytes, the backup is gone, and the error is
   * "Failed to extract update package". A backup left by an earlier
   * self-update is replaced by the first rename and gone afterwards. A
   * package that cannot be opened at all leaves the card as it was, except
   * for that older backup.
   */
  lemma RollbackRestoresBinary(src: Sources, d: Disk, exe: Path)
    requires UpdateAvailable(src) ==> |src.latest.value.assets| > 0
    requires UpdateAvailable(src) && src.currentExe == Success(exe) && |exe| > 0
    requires WellFormed(d) && exe in d.files
    requires WithBakExtension(exe) != exe
    requires RenameOn(d, exe, WithBakExtension(exe)).Success?
    requires src.download(src.latest.value.assets[0].url).result.Success?
    requires src.download(src.latest.value.assets[0].url).result.value.Entries? ==>
      && NoDirectoryAt(src.download(src.latest.value.assets[0].url).result.value.slots, 0, exe)
      && NoFileNamed(src.download(src.latest.value.assets[0].url).result.value.slots, 0, WithBakExtension(exe))
    requires Extraction(src.download(src.latest.value.assets[0].url).result.value, AcceptAll,
                        RenameOn(d, exe, WithBakExtension(exe)).value).outcome.Fail?
    ensures SelfUpdatePlan(src, d).end == Returned(Fail(ExtractFailed))
    ensures exe in SelfUpdatePlan(src, d).disk.files && SelfUpdatePlan(src, d).disk.files[exe] == d.files[exe]
    ensures WithBakExtension(exe) !in SelfUpdatePlan(src, d).disk.files
    ensures src.download(src.latest.value.assets[0].url).result.value.Malformed? ==>
      SelfUpdatePlan(src, d).disk == d.(files := d.files - {WithBakExtension(exe)})
  {
    var archive := src.download(src.latest.value.assets[0].url).result.value;
    if archive.Malformed? {
      RenameBackDropsReplaced(d, exe, WithBakExtension(exe));
    } else {
      RollbackOnCard(archive.slots, d, exe, WithBakExtension(exe));
    }
    PlanAfterRollback(src, d, exe);
  }
}
