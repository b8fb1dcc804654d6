/**
 * `update_nextui` and `do_update` (src/update/mod.rs): pick the release the
 * user selected, pick its package, download it, unpack it over the card
 * through the quick or the full filter, and reboot; on any failure report
 * it and run the release check again.
 */
module NextuiUpdate {
  import opened Wrappers
  import opened Text
  import opened GitHub
  import opened AppState
  import opened FileSystem
  import opened Filters
  import opened Extract
  import opened Download
  import opened ReleaseCheck

  const NoReleaseFound := "No release found"
  const NoAssetsFound := "No assets found"
  const DownloadingUpdate := "Downloading update..."
  const UpdateComplete := "Update complete, preparing to reboot..."
  const Rebooting := "Rebooting system..."

  function DownloadingAsset(name: string): string {
    "Downloading " + name + "..."
  }

  function ExtractingAsset(name: string): string {
    "Extracting " + name + "...\nPlease wait..."
  }

  /** The word a package name must contain to be preferred: the complete package or the base one. */
  function AssetKeyword(full: bool): string {
    if full then "all" else "base"
  }

  /** Position of the first asset whose name contains `keyword` (`iter().find`). */
  function FindAsset(assets: seq<Asset>, keyword: string): (r: Option<nat>)
    ensures r.Some? ==> r.value < |assets| && Contains(assets[r.value].name, keyword)
    ensures r.Some? ==> forall j | 0 <= j < r.value :: !Contains(assets[j].name, keyword)
    ensures r.None? ==> forall j | 0 <= j < |assets| :: !Contains(assets[j].name, keyword)
  {
    if assets == [] then None
    else if Contains(assets[0].name, keyword) then Some(0)
    else match FindAsset(assets[1..], keyword)
      case None => None
      case Some(k) => Some(k + 1)
  }

  /**
   * The package to download: the first asset naming the keyword, otherwise
   * the first asset, and an error when the release has no assets.
   */
  function ChooseAsset(assets: seq<Asset>, full: bool): (r: Result<Asset, Error>)
    ensures r.Failure? <==> assets == []
    ensures r.Failure? ==> r.error == NoAssetsFound
    ensures r.Success? ==>
      || (exists k | 0 <= k < |assets| :: r.value == assets[k] && Contains(assets[k].name, AssetKeyword(full))
            && forall j | 0 <= j < k :: !Contains(assets[j].name, AssetKeyword(full)))
      || (r.value == assets[0] && forall j | 0 <= j < |assets| :: !Contains(assets[j].name, AssetKeyword(full)))
  {
    match FindAsset(assets, AssetKeyword(full))
    case Some(k) => Success(assets[k])
    case None => if assets == [] then Failure(NoAssetsFound) else Success(assets[0])
  }

  /** What `update_nextui` needs of the state not to panic: with the menu on, a list the index fits. */
  predicate SelectionValid(stored: Option<Release>, menu: bool, list: Option<seq<ReleaseAndTag>>, index: Option<nat>) {
    stored.Some? && menu ==> list.Some? && index.GetOr(0) < |list.value|
  }

  /**
   * The release to install: the list entry under the selection (0 when none)
   * when the selection menu is on, otherwise the stored newest release; no
   * stored release is an error either way.
   */
  function TargetRelease(stored: Option<Release>, menu: bool, list: Option<seq<ReleaseAndTag>>, index: Option<nat>): (r: Result<Release, Error>)
    requires SelectionValid(stored, menu, list, index)
    ensures r.Failure? <==> stored.None?
    ensures r.Failure? ==> r.error == NoReleaseFound
    ensures r.Success? && menu ==> exists k | 0 <= k < |list.value| :: r.value == list.value[k].release
    ensures r.Success? && menu ==> r.value == list.value[index.GetOr(0)].release
    ensures r.Success? && !menu ==> r.value == stored.value
  {
    if stored.None? then Failure(NoReleaseFound)
    else if menu then Success(list.value[index.GetOr(0)].release)
    else Success(stored.value)
  }

  /** The filter an update unpacks through. */
  function UpdateFilter(full: bool): Filter {
    if full then FullAccepts else QuickAccepts
  }

  /** What `update_nextui` consults outside the card: the downloader (by URL) and the reboot command. */
  datatype UpdateSources = UpdateSources(download: string -> Fetched, reboot: Outcome<Error>)

  /** How the update ended, the card afterwards, and the operation label and progress it left. */
  datatype UpdateRun = UpdateRun(result: Outcome<Error>, disk: Disk, operation: string, progress: Option<Progress>)

  /** What `update_nextui` does, step by step. */
  function UpdatePlan(
    stored: Option<Release>, menu: bool, list: Option<seq<ReleaseAndTag>>, index: Option<nat>,
    full: bool, src: UpdateSources, d: Disk
  ): (run: UpdateRun)
    requires SelectionValid(stored, menu, list, index)
    ensures run.result.Pass? ==> src.reboot.Pass? && run.operation == Rebooting
    ensures TargetRelease(stored, menu, list, index).Failure? ==> run.disk == d
  {
    match TargetRelease(stored, menu, list, index)
    case Failure(e) => UpdateRun(Fail(e), d, DownloadingUpdate, Some(Indeterminate))
    case Success(release) =>
      match ChooseAsset(release.assets, full)
      case Failure(e) => UpdateRun(Fail(e), d, DownloadingUpdate, Some(Indeterminate))
      case Success(asset) =>
        var fetched := src.download(asset.url);
        match fetched.result
        case Failure(e) =>
          UpdateRun(Fail(e), d, DownloadingAsset(asset.name), ProgressAfterDownload(fetched, Some(Determinate(ZeroFraction))))
        case Success(archive) =>
          var run := Extraction(archive, UpdateFilter(full), d);
          if run.outcome.Fail? then
            UpdateRun(run.outcome, run.disk, ExtractingAsset(asset.name), ProgressAfter(archive, run, Some(Indeterminate)))
          else UpdateRun(src.reboot, run.disk, Rebooting, Some(Indeterminate))
  }

  /** `update_nextui`. */
  method UpdateNextui(st: AppStateManager, card: SdCard, full: bool, src: UpdateSources) returns (r: Outcome<Error>)
    requires SelectionValid(st.nextuiRelease, st.releaseSelectionMenu, st.nextuiReleasesAndTags, st.nextuiReleasesAndTagsIndex)
    modifies card, st`currentOperation, st`progress
    ensures var run := UpdatePlan(st.nextuiRelease, st.releaseSelectionMenu, st.nextuiReleasesAndTags,
                                  st.nextuiReleasesAndTagsIndex, full, src, old(card.View()));
      && r == run.result && card.View() == run.disk
      && st.currentOperation == Some(run.operation) && st.progress == run.progress
  {
    st.StartOperation(DownloadingUpdate);
    var stored := st.NextuiRelease();
    if stored.None? {
      return Fail(NoReleaseFound);
    }
    var release := stored.value;
    var menu := st.ReleaseSelectionMenu();
    if menu {
      var selected := st.NextuiReleasesAndTagsIndex();
      var index := selected.GetOr(0);
      var list := st.NextuiReleasesAndTags();
      release := list.value[index].release;
    }

    var chosen := ChooseAsset(release.assets, full);
    if chosen.Failure? {
      return Fail(chosen.error);
    }
    var asset := chosen.value;

    st.StartDeterminateOperation(DownloadingAsset(asset.name));
    var fetched := src.download(asset.url);
    ReportChunks(st, fetched);
    if fetched.result.Failure? {
      return Fail(fetched.result.error);
    }
    var bytes := fetched.result;

    st.SetCurrentOperation(Some(ExtractingAsset(asset.name)));
    st.SetProgress(Some(Indeterminate));
    var result := ExtractZip(bytes.value, UpdateFilter(full), card, st);
    if result.Fail? {
      return result;
    }

    st.SetProgress(Some(Indeterminate));
    st.SetCurrentOperation(Some(UpdateComplete));
    st.SetCurrentOperation(Some(Rebooting));
    return src.reboot;
  }

  /**
   * `do_update`: run the update; when it fails, report "Update failed: …"
   * and fetch the releases again. A release check that succeeds leaves the
   * report in place; one that fails replaces it with its own.
   */
  method DoUpdate(
    st: AppStateManager, card: SdCard, full: bool, src: UpdateSources,
    releases: Result<seq<Release>, Error>, tags: Result<seq<Tag>, Error>
  )
    requires SelectionValid(st.nextuiRelease, st.releaseSelectionMenu, st.nextuiReleasesAndTags, st.nextuiReleasesAndTagsIndex)
    modifies card, st`currentOperation, st`progress, st`error
    modifies st`nextuiRelease, st`nextuiTag, st`nextuiReleasesAndTags, st`nextuiReleasesAndTagsIndex
    ensures var run := UpdatePlan(old(st.nextuiRelease), st.releaseSelectionMenu, old(st.nextuiReleasesAndTags),
                                  old(st.nextuiReleasesAndTagsIndex), full, src, old(card.View()));
      && card.View() == run.disk
      && match run.result
        case Pass =>
          && st.currentOperation == Some(Rebooting) && st.progress == Some(Indeterminate)
          && st.error == old(st.error)
          && st.nextuiRelease == old(st.nextuiRelease) && st.nextuiTag == old(st.nextuiTag)
          && st.nextuiReleasesAndTags == old(st.nextuiReleasesAndTags)
          && st.nextuiReleasesAndTagsIndex == old(st.nextuiReleasesAndTagsIndex)
        case Fail(e) =>
          && st.currentOperation.None? && st.progress.None?
          && match CheckReleases(releases, tags, st.currentVersion)
            case CheckFailed(message) =>
              && st.error == Some(message)
              && st.nextuiRelease == old(st.nextuiRelease) && st.nextuiTag == old(st.nextuiTag)
              && st.nextuiReleasesAndTags == old(st.nextuiReleasesAndTags)
              && st.nextuiReleasesAndTagsIndex == old(st.nextuiReleasesAndTagsIndex)
            case Resolved(pairs, index) =>
              && st.error == Some("Update failed: " + e)
              && st.nextuiRelease == Some(pairs[0].release) && st.nextuiTag == Some(pairs[0].tag)
              && st.nextuiReleasesAndTags == Some(pairs)
              && st.nextuiReleasesAndTagsIndex == Some(index)
  {
    var r := UpdateNextui(st, card, full, src);
    if r.Fail? {
      st.SetOperationFailed("Update failed: " + r.error);
      DoNextuiReleaseCheck(st, releases, tags);
    }
  }

  // Properties of the update.

  /**
   * A successful release check leaves a state `update_nextui` can use: the
   * selection fits the list, and the release it installs is the selected
   * pair's with the menu on, the newest release with it off.
   */
  lemma CheckedStateSelectsRelease(
    releases: Result<seq<Release>, Error>, tags: Result<seq<Tag>, Error>, version: Option<string>, menu: bool
  )
    requires CheckReleases(releases, tags, version).Resolved?
    ensures var c := CheckReleases(releases, tags, version);
      && SelectionValid(Some(c.pairs[0].release), menu, Some(c.pairs), Some(c.index))
      && TargetRelease(Some(c.pairs[0].release), menu, Some(c.pairs), Some(c.index))
         == Success(if menu then c.pairs[c.index].release else releases.value[0])
  {
    ResolvedSelection(releases, tags, version);
  }

  /** The card is only written by the unpacking: every earlier failure leaves it as it was. */
  lemma OnlyExtractionWrites(
    stored: Option<Release>, menu: bool, list: Option<seq<ReleaseAndTag>>, index: Option<nat>,
    full: bool, src: UpdateSources, d: Disk
  )
    requires SelectionValid(stored, menu, list, index)
    ensures var run := UpdatePlan(stored, menu, list, index, full, src, d);
      run.disk != d ==>
        && TargetRelease(stored, menu, list, index).Success?
        && ChooseAsset(TargetRelease(stored, menu, list, index).value.assets, full).Success?
        && var asset := ChooseAsset(TargetRelease(stored, menu, list, index).value.assets, full).value;
           && src.download(asset.url).result.Success?
           && run.disk == Extraction(src.download(asset.url).result.value, UpdateFilter(full), d).disk
  {
  }

  /** The update succeeds only when the package unpacked completely and the reboot command ran. */
  lemma SuccessMeansRebooted(
    stored: Option<Release>, menu: bool, list: Option<seq<ReleaseAndTag>>, index: Option<nat>,
    full: bool, src: UpdateSources, d: Disk
  )
    requires SelectionValid(stored, menu, list, index)
    requires UpdatePlan(stored, menu, list, index, full, src, d).result == Pass
    ensures src.reboot == Pass
    ensures TargetRelease(stored, menu, list, index).Success?
    ensures var asset := ChooseAsset(TargetRelease(stored, menu, list, index).value.assets, full);
      && asset.Success? && src.download(asset.value.url).result.Success?
      && Extraction(src.download(asset.value.url).result.value, UpdateFilter(full), d).outcome == Pass
  {
  }

  lemma QuickIsCardBlind()
    ensures CardBlind(UpdateFilter(false))
  {
  }

  /**
   * A quick update that unpacks completely reports progress after exactly
   * the entries named under `MinUI.zip` or `trimui`.
   */
  lemma QuickReportsExactlyAllowed(slots: seq<Slot>, d: Disk)
    requires ExtractFrom(slots, UpdateFilter(false), d, 0).outcome == Pass
    ensures forall k | 0 <= k < |slots| ::
      slots[k].Readable? &&
      (k in ExtractFrom(slots, UpdateFilter(false), d, 0).reported <==>
        StartsWith(JoinPath(slots[k].entry.name), "MinUI.zip") || StartsWith(JoinPath(slots[k].entry.name), "trimui"))
  {
    QuickIsCardBlind();
    ReportedExactlyAccepted(slots, UpdateFilter(false), d, 0);
  }

  /** A quick update leaves every file outside `MinUI.zip…` and `trimui…` as it was. */
  lemma QuickKeepsOtherFiles(slots: seq<Slot>, d: Disk, p: Path)
    requires p in d.files
    requires !StartsWith(JoinPath(p), "MinUI.zip") && !StartsWith(JoinPath(p), "trimui")
    ensures p in ExtractFrom(slots, UpdateFilter(false), d, 0).disk.files
    ensures ExtractFrom(slots, UpdateFilter(false), d, 0).disk.files[p] == d.files[p]
  {
    RejectedFileKept(slots, UpdateFilter(false), d, 0, p);
  }

  /**
   * A full update never overwrites a file of an emulator whose ROM folder
   * is already on the card: once protected, its entry is refused on every
   * later card, so the file keeps its bytes.
   */
  lemma FullKeepsProtectedFiles(slots: seq<Slot>, d: Disk, p: Path)
    requires p in d.files && Protected(JoinPath(p), d)
    ensures p in ExtractFrom(slots, UpdateFilter(true), d, 0).disk.files
    ensures ExtractFrom(slots, UpdateFilter(true), d, 0).disk.files[p] == d.files[p]
  {
    forall d' | Grows(d, d')
      ensures !UpdateFilter(true)(JoinPath(p), d')
    {
      ProtectedPersists(JoinPath(p), d, d');
      FullRejectsExactlyProtected(JoinPath(p), d');
    }
    RejectedFileKept(slots, UpdateFilter(true), d, 0, p);
  }

  /** A name starting `Roms/(GB)` with no other parenthesis has the tag `GB`. */
  lemma TagOfRomFolder(name: string)
    requires StartsWith(name, "Roms/(GB)")
    requires forall i | 9 <= i < |name| :: name[i] != '(' && name[i] != ')'
    ensures EmuTag(name) == Some("GB")
  {
    assert name[..9] == "Roms/(GB)";
    assert name[5] == name[..9][5] == '(' && name[8] == name[..9][8] == ')';
    assert name[6..8] == name[..9][6..8] == "GB";
    assert AllWord(name[6..8]);
    assert GroupAt(name, 5, 8);
    var r := FindGroup(name, 0);
    assert r.Some?;
    assert r.value.0 == 5 && r.value.1 == 8;
  }

  /** A card holding only an empty ROM library. */
  const EmptyLibrary := Disk(map[], {RomsRoot}, {})

  /** A package holding a new ROM folder `Roms/(GB)` and then a file inside it. */
  const NewRomFolder: seq<Slot> := [
    Readable(ZipEntry(["Roms", "(GB)"], Directory)),
    Readable(ZipEntry(["Roms", "(GB)", "a"], File(Success([1]))))
  ]

  /** The card after the package's first entry: the library now holds `(GB)`. */
  const MadeRomFolder := Disk(map[], {RomsRoot, ["Roms", "(GB)"]}, {})

  /** Before the folder exists the full filter accepts it. */
  lemma FolderEntryAccepted()
    ensures UpdateFilter(true)("Roms/(GB)", EmptyLibrary)
  {
    var first := "Roms/(GB)";
    TagOfRomFolder(first);
    assert StartsWith(first, "Roms/");
    assert Children(EmptyLibrary, RomsRoot) == {};
  }

  /** Unpacking the folder entry creates it. */
  lemma FolderEntryCreated()
    ensures Step(NewRomFolder[0], UpdateFilter(true), EmptyLibrary) == Done(MadeRomFolder)
  {
    assert JoinPath(NewRomFolder[0].entry.name) == "Roms/(GB)";
    FolderEntryAccepted();
    FolderCreated();
  }

  lemma FolderCreated()
    ensures CreateDirAllOn(EmptyLibrary, ["Roms", "(GB)"]) == Success(MadeRomFolder)
  {
    assert Ancestry(["Roms", "(GB)"]) == {RomsRoot, ["Roms", "(GB)"]} by {
      assert ["Roms", "(GB)"][..1] == RomsRoot;
      assert ["Roms", "(GB)"][..2] == ["Roms", "(GB)"];
    }
    assert EmptyLibrary.files == map[];
    assert EmptyLibrary.(dirs := EmptyLibrary.dirs + Ancestry(["Roms", "(GB)"])) == MadeRomFolder;
  }

  /** Once the folder exists, the file inside it is protected: its tag names that folder. */
  lemma FolderFileProtected()
    ensures Protected("Roms/(GB)/a", MadeRomFolder)
  {
    var second := "Roms/(GB)/a";
    TagOfRomFolder(second);
    assert StartsWith(second, "Roms/");
    assert RomsRoot + ["(GB)"] == ["Roms", "(GB)"];
    assert "(" + "GB" + ")" == "(GB)";
    assert OccursAt("(GB)", "(GB)", 0);
    assert Contains("(GB)", "(" + "GB" + ")");
  }

  /** Once the folder exists the full filter refuses the file inside it. */
  lemma FolderFileRefused()
    ensures Step(NewRomFolder[1], UpdateFilter(true), MadeRomFolder) == Skipped
  {
    assert JoinPath(NewRomFolder[1].entry.name) == "Roms/(GB)/a";
    FolderFileProtected();
    FullRejectsExactlyProtected("Roms/(GB)/a", MadeRomFolder);
  }

  /**
   * Because the full filter looks at the card as it is when each entry is
   * reached, a ROM folder the same update has just created makes it refuse
   * that folder's own files: the folder is made, its file is not written,
   * and progress is reported only for the folder.
   */
  lemma FullSkipsFilesOfFolderItCreated()
    ensures var run := ExtractFrom(NewRomFolder, UpdateFilter(true), EmptyLibrary, 0);
      && run.outcome == Pass
      && ["Roms", "(GB)"] in run.disk.dirs
      && ["Roms", "(GB)", "a"] !in run.disk.files
      && run.reported == [0]
  {
    FolderEntryCreated();
    FolderFileRefused();
    assert ExtractFrom(NewRomFolder, UpdateFilter(true), MadeRomFolder, 1)
      == ExtractFrom(NewRomFolder, UpdateFilter(true), MadeRomFolder, 2);
  }
}
