/**
 * `extract_zip` (src/update/mod.rs): walk the archive's entries in index
 * order, ask the filter about each sanitized name against the card as it is
 * at that moment, create accepted directories and write accepted files, and
 * report progress after every accepted entry. The first error stops the walk
 * and leaves what was already written on the card.
 */
module Extract {
  import opened Wrappers
  import opened FileSystem
  import opened Filters
  import opened AppState

  /** What an entry holds; a file's content is what `read_to_end` gives. */
  datatype EntryKind = Directory | File(content: Result<Bytes, Error>) | Other

  /** An entry with its name already sanitized (`mangled_name`). */
  datatype ZipEntry = ZipEntry(name: Path, kind: EntryKind)

  /** What `archive.by_index(i)` gives. */
  datatype Slot = Readable(entry: ZipEntry) | Unreadable(err: Error)

  /** What `ZipArchive::new` makes of the downloaded bytes. */
  datatype Archive = Malformed(err: Error) | Entries(slots: seq<Slot>)

  /** An entry filter: the sanitized name and the card at call time. */
  type Filter = (string, Disk) -> bool

  datatype EntryStep = Skipped | Done(disk: Disk) | Failed(err: Error)

  /** One entry's effect on the card. */
  function Step(slot: Slot, filter: Filter, d: Disk): (s: EntryStep)
    ensures s.Skipped? <==> slot.Readable? && !filter(JoinPath(slot.entry.name), d)
    ensures s.Done? ==> slot.Readable? && filter(JoinPath(slot.entry.name), d)
  {
    match slot
    case Unreadable(e) => Failed(e)
    case Readable(entry) =>
      if !filter(JoinPath(entry.name), d) then Skipped
      else match entry.kind
        case Directory =>
          (match CreateDirAllOn(d, entry.name)
           case Success(d') => Done(d')
           case Failure(e) => Failed(e))
        case File(content) =>
          (match content
           case Failure(e) => Failed(e)
           case Success(bytes) =>
             match WriteFileOn(d, entry.name, bytes)
             case Success(d') => Done(d')
             case Failure(e) => Failed(e))
        case Other => Done(d)
  }

  /**
   * The card after the walk, how it ended, and the indices of the entries
   * after which progress was reported.
   */
  datatype Run = Run(disk: Disk, outcome: Outcome<Error>, reported: seq<nat>)

  /** The walk over `slots[i..]` starting from card `d`. */
  function ExtractFrom(slots: seq<Slot>, filter: Filter, d: Disk, i: nat): (run: Run)
    requires i <= |slots|
    ensures forall k | k in run.reported :: i <= k < |slots|
    ensures run.outcome.Pass? ==> |run.reported| <= |slots| - i
    decreases |slots| - i
  {
    if i == |slots| then Run(d, Pass, [])
    else match Step(slots[i], filter, d)
      case Skipped => ExtractFrom(slots, filter, d, i + 1)
      case Failed(e) => Run(d, Fail(e), [])
      case Done(d') =>
        Resumed([i], ExtractFrom(slots, filter, d', i + 1))
  }

  /** `run` continued after the reports in `done`. */
  function Resumed(done: seq<nat>, run: Run): Run {
    run.(reported := done + run.reported)
  }

  /** `ZipArchive::new` on the downloaded bytes, then the walk over its entries from the first. */
  function Extraction(archive: Archive, filter: Filter, d: Disk): (run: Run)
    ensures run.outcome.Pass? ==> archive.Entries?
    ensures forall k | k in run.reported :: archive.Entries? && k < |archive.slots|
  {
    match archive
    case Malformed(e) => Run(d, Fail(e), [])
    case Entries(slots) => ExtractFrom(slots, filter, d, 0)
  }

  /** The progress value the last of the reports `done` leaves, `index / (len - 1)`. */
  function LastProgress(done: seq<nat>, len: nat, before: Option<Progress>): Option<Progress> {
    if done == [] || len == 0 then before
    else Some(Determinate(Ratio(done[|done| - 1], len - 1)))
  }

  /** The progress value a walk over `archive` leaves. */
  function ProgressAfter(archive: Archive, run: Run, before: Option<Progress>): Option<Progress> {
    if archive.Malformed? then before else LastProgress(run.reported, |archive.slots|, before)
  }

  /**
   * The body of the loop for one entry: read it, ask the filter, create the
   * directory or write the file. `accepted` is false exactly when the filter
   * turned the entry away.
   */
  method ExtractEntry(slot: Slot, filter: Filter, card: SdCard) returns (accepted: bool, r: Outcome<Error>)
    modifies card
    ensures r == if Step(slot, filter, old(card.View())).Failed? then Fail(Step(slot, filter, old(card.View())).err) else Pass
    ensures r.Pass? ==> (accepted <==> Step(slot, filter, old(card.View())).Done?)
    ensures card.View() == if Step(slot, filter, old(card.View())).Done? then Step(slot, filter, old(card.View())).disk else old(card.View())
  {
    if slot.Unreadable? {
      return false, Fail(slot.err);
    }
    var entry := slot.entry;
    if !filter(JoinPath(entry.name), card.View()) {
      return false, Pass;
    }
    accepted := true;
    match entry.kind {
      case Directory =>
        r := card.CreateDirAll(entry.name);
      case File(content) =>
        if content.Failure? {
          return true, Fail(content.error);
        }
        r := card.WriteFile(entry.name, content.value);
      case Other =>
        r := Pass;
    }
  }

  /**
   * The body of `ExtractZip`'s loop, split out to keep its proof small:
   * one turn over `slots[i]`, where the walk so far, with reports `done`,
   * continues from the next entry and an accepted entry is reported.
   */
  method Advance(
    slots: seq<Slot>, filter: Filter, card: SdCard, st: AppStateManager, i: nat,
    ghost done: seq<nat>, ghost before: Option<Progress>
  ) returns (o: Outcome<Error>, ghost done': seq<nat>)
    requires i < |slots|
    requires st.progress == LastProgress(done, |slots|, before)
    modifies card, st`progress
    ensures o.Fail? ==> Resumed(done, ExtractFrom(slots, filter, old(card.View()), i)) == Run(card.View(), o, done)
    ensures o.Pass? ==>
      Resumed(done, ExtractFrom(slots, filter, old(card.View()), i)) == Resumed(done', ExtractFrom(slots, filter, card.View(), i + 1))
    ensures o.Fail? ==> done' == done
    ensures st.progress == LastProgress(done', |slots|, before)
  {
    ghost var before := card.View();
    done' := done;
    var accepted;
    accepted, o := ExtractEntry(slots[i], filter, card);
    if o.Fail? {
      FailedStepEnds(slots, filter, before, i);
      return;
    }
    if !accepted {
      SkippedStepResumes(slots, filter, before, i);
      return;
    }
    DoneStepResumes(slots, filter, before, i);
    ResumedTwice(done, [i], ExtractFrom(slots, filter, card.View(), i + 1));
    st.UpdateProgress(Ratio(i, |slots| - 1));
    done' := done + [i];
  }

  method ExtractZip(archive: Archive, filter: Filter, card: SdCard, st: AppStateManager) returns (r: Outcome<Error>)
    modifies card, st`progress
    ensures var run := Extraction(archive, filter, old(card.View()));
      && card.View() == run.disk && r == run.outcome
      && st.progress == ProgressAfter(archive, run, old(st.progress))
  {
    if archive.Malformed? {
      return Fail(archive.err);
    }
    var slots := archive.slots;
    var n := |slots|;
    ghost var whole := ExtractFrom(slots, filter, card.View(), 0);
    ghost var done: seq<nat> := [];
    var i := 0;
    while i < n
      invariant 0 <= i <= n
      invariant whole == Resumed(done, ExtractFrom(slots, filter, card.View(), i))
      invariant st.progress == LastProgress(done, n, old(st.progress))
    {
      var o;
      o, done := Advance(slots, filter, card, st, i, done, old(st.progress));
      if o.Fail? {
        return o;
      }
      i := i + 1;
    }
    assert whole == Run(card.View(), Pass, done);
    return Pass;
  }

  // One step of the walk, unfolded.

  lemma FailedStepEnds(slots: seq<Slot>, filter: Filter, d: Disk, i: nat)
    requires i < |slots| && Step(slots[i], filter, d).Failed?
    ensures ExtractFrom(slots, filter, d, i) == Run(d, Fail(Step(slots[i], filter, d).err), [])
  {
  }

  lemma SkippedStepResumes(slots: seq<Slot>, filter: Filter, d: Disk, i: nat)
    requires i < |slots| && Step(slots[i], filter, d).Skipped?
    ensures ExtractFrom(slots, filter, d, i) == ExtractFrom(slots, filter, d, i + 1)
  {
  }

  lemma DoneStepResumes(slots: seq<Slot>, filter: Filter, d: Disk, i: nat)
    requires i < |slots| && Step(slots[i], filter, d).Done?
    ensures ExtractFrom(slots, filter, d, i) == Resumed([i], ExtractFrom(slots, filter, Step(slots[i], filter, d).disk, i + 1))
  {
  }

  lemma ResumedTwice(a: seq<nat>, b: seq<nat>, run: Run)
    ensures Resumed(a, Resumed(b, run)) == Resumed(a + b, run)
  {
    assert a + (b + run.reported) == (a + b) + run.reported;
  }

  // Properties of the walk.

  lemma StepGrows(slot: Slot, filter: Filter, d: Disk)
    requires Step(slot, filter, d).Done?
    ensures Grows(d, Step(slot, filter, d).disk)
  {
    if slot.entry.kind.Directory? {
      CreateDirAllEffect(d, slot.entry.name);
    }
  }

  /**
   * What an applied entry leaves: a directory entry makes the directory and
   * every directory above it, a file entry holds exactly the bytes read,
   * and any other entry changes nothing.
   */
  lemma StepEffect(slot: Slot, filter: Filter, d: Disk)
    requires Step(slot, filter, d).Done?
    ensures var out := Step(slot, filter, d).disk;
      var name := slot.entry.name;
      && (slot.entry.kind.Directory? ==> forall k | 0 <= k <= |name| :: IsDir(out, name[..k]))
      && (slot.entry.kind.File? ==>
            slot.entry.kind.content.Success? && name in out.files && out.files[name] == slot.entry.kind.content.value)
      && (slot.entry.kind.Other? ==> out == d)
  {
    match slot.entry.kind {
      case Directory => CreateDirAllEffect(d, slot.entry.name);
      case File(content) => WriteFileEffect(d, slot.entry.name, content.value);
      case Other =>
    }
  }

  /** Extraction never removes a file or a directory from the card. */
  lemma {:induction false} ExtractGrows(slots: seq<Slot>, filter: Filter, d: Disk, i: nat)
    requires i <= |slots|
    ensures Grows(d, ExtractFrom(slots, filter, d, i).disk)
    decreases |slots| - i
  {
    if i < |slots| {
      match Step(slots[i], filter, d)
      case Skipped => ExtractGrows(slots, filter, d, i + 1);
      case Failed(_) =>
      case Done(d') =>
        StepGrows(slots[i], filter, d);
        ExtractGrows(slots, filter, d', i + 1);
    }
  }

  /** Extraction keeps the card a well-formed directory tree. */
  lemma {:induction false} ExtractKeepsWellFormed(slots: seq<Slot>, filter: Filter, d: Disk, i: nat)
    requires i <= |slots| && WellFormed(d)
    ensures WellFormed(ExtractFrom(slots, filter, d, i).disk)
    decreases |slots| - i
  {
    if i < |slots| {
      match Step(slots[i], filter, d)
      case Skipped => ExtractKeepsWellFormed(slots, filter, d, i + 1);
      case Failed(_) =>
      case Done(d') =>
        var entry := slots[i].entry;
        match entry.kind {
          case Directory => CreateDirAllKeepsWellFormed(d, entry.name);
          case File(content) => WriteFileKeepsWellFormed(d, entry.name, content.value);
          case Other =>
        }
        ExtractKeepsWellFormed(slots, filter, d', i + 1);
    }
  }

  /** Progress is reported in index order, at most once per entry. */
  lemma {:induction false} ReportedInOrder(slots: seq<Slot>, filter: Filter, d: Disk, i: nat)
    requires i <= |slots|
    ensures forall a | 0 <= a < |ExtractFrom(slots, filter, d, i).reported| ::
      i <= ExtractFrom(slots, filter, d, i).reported[a] < |slots|
    ensures forall a, b | 0 <= a < b < |ExtractFrom(slots, filter, d, i).reported| ::
      ExtractFrom(slots, filter, d, i).reported[a] < ExtractFrom(slots, filter, d, i).reported[b]
    decreases |slots| - i
  {
    if i < |slots| {
      match Step(slots[i], filter, d)
      case Skipped =>
        assert ExtractFrom(slots, filter, d, i) == ExtractFrom(slots, filter, d, i + 1);
        ReportedInOrder(slots, filter, d, i + 1);
      case Failed(_) =>
      case Done(d') =>
        ReportedInOrder(slots, filter, d', i + 1);
        var rest := ExtractFrom(slots, filter, d', i + 1).reported;
        assert ExtractFrom(slots, filter, d, i).reported == [i] + rest;
    }
  }

  /**
   * The first error ends the walk at some entry `k`: the card then is what
   * a successful walk over the entries before `k` leaves, and entry `k`
   * itself changed nothing.
   */
  lemma {:induction false} FailureKeepsEarlierWrites(slots: seq<Slot>, filter: Filter, d: Disk, i: nat)
    requires i <= |slots| && ExtractFrom(slots, filter, d, i).outcome.Fail?
    ensures exists k | i <= k < |slots| ::
      var pre := ExtractFrom(slots[..k], filter, d, i);
      && pre.outcome == Pass
      && pre.disk == ExtractFrom(slots, filter, d, i).disk
      && Step(slots[k], filter, pre.disk).Failed?
    decreases |slots| - i
  {
    assert i < |slots|;
    match Step(slots[i], filter, d)
    case Failed(_) =>
      assert ExtractFrom(slots[..i], filter, d, i) == Run(d, Pass, []);
    case Skipped =>
      FailureKeepsEarlierWrites(slots, filter, d, i + 1);
      var k :| i + 1 <= k < |slots| && var pre := ExtractFrom(slots[..k], filter, d, i + 1);
        pre.outcome == Pass && pre.disk == ExtractFrom(slots, filter, d, i + 1).disk && Step(slots[k], filter, pre.disk).Failed?;
      assert slots[..k][i] == slots[i];
      assert ExtractFrom(slots[..k], filter, d, i) == ExtractFrom(slots[..k], filter, d, i + 1);
    case Done(d') =>
      FailureKeepsEarlierWrites(slots, filter, d', i + 1);
      var k :| i + 1 <= k < |slots| && var pre := ExtractFrom(slots[..k], filter, d', i + 1);
        pre.outcome == Pass && pre.disk == ExtractFrom(slots, filter, d', i + 1).disk && Step(slots[k], filter, pre.disk).Failed?;
      assert slots[..k][i] == slots[i];
      assert ExtractFrom(slots[..k], filter, d, i) == Resumed([i], ExtractFrom(slots[..k], filter, d', i + 1));
  }

  /** A filter that never looks at the card. */
  ghost predicate CardBlind(filter: Filter) {
    forall name, d1, d2 :: filter(name, d1) == filter(name, d2)
  }

  /**
   * With a filter that ignores the card, a successful walk reports progress
   * after exactly the entries the filter accepts, and after no other.
   */
  lemma {:induction false} ReportedExactlyAccepted(slots: seq<Slot>, filter: Filter, d: Disk, i: nat)
    requires i <= |slots| && CardBlind(filter)
    requires ExtractFrom(slots, filter, d, i).outcome == Pass
    ensures forall k | i <= k < |slots| ::
      (slots[k].Readable? && (k in ExtractFrom(slots, filter, d, i).reported <==> filter(JoinPath(slots[k].entry.name), d)))
    decreases |slots| - i
  {
    if i < |slots| {
      match Step(slots[i], filter, d)
      case Skipped =>
        assert ExtractFrom(slots, filter, d, i) == ExtractFrom(slots, filter, d, i + 1);
        ReportedInOrder(slots, filter, d, i + 1);
        ReportedExactlyAccepted(slots, filter, d, i + 1);
      case Done(d') =>
        ReportedInOrder(slots, filter, d', i + 1);
        ReportedExactlyAccepted(slots, filter, d', i + 1);
    }
  }

  /** A file the filter turns away on every card that grows from `d` keeps its content. */
  lemma {:induction false} RejectedFileKept(slots: seq<Slot>, filter: Filter, d: Disk, i: nat, p: Path)
    requires i <= |slots| && p in d.files
    requires forall d' | Grows(d, d') :: !filter(JoinPath(p), d')
    ensures var out := ExtractFrom(slots, filter, d, i).disk;
      p in out.files && out.files[p] == d.files[p]
    decreases |slots| - i
  {
    if i < |slots| {
      match Step(slots[i], filter, d)
      case Skipped => RejectedFileKept(slots, filter, d, i + 1, p);
      case Failed(_) =>
      case Done(d') =>
        StepGrows(slots[i], filter, d);
        assert d'.files[p] == d.files[p] by {
          assert Grows(d, d);
        }
        RejectedFileKept(slots, filter, d', i + 1, p);
    }
  }

  /** No file entry in `slots[i..]` is named `p`. */
  predicate NoFileNamed(slots: seq<Slot>, i: nat, p: Path) {
    forall k | i <= k < |slots| :: !(slots[k].Readable? && slots[k].entry.kind.File? && slots[k].entry.name == p)
  }

  /** A file no entry of the archive names keeps its content, whatever the filter. */
  lemma {:induction false} UnnamedFileKept(slots: seq<Slot>, filter: Filter, d: Disk, i: nat, p: Path)
    requires i <= |slots| && p in d.files && NoFileNamed(slots, i, p)
    ensures var out := ExtractFrom(slots, filter, d, i).disk;
      p in out.files && out.files[p] == d.files[p]
    decreases |slots| - i
  {
    if i < |slots| {
      match Step(slots[i], filter, d)
      case Skipped => UnnamedFileKept(slots, filter, d, i + 1, p);
      case Failed(_) =>
      case Done(d') => UnnamedFileKept(slots, filter, d', i + 1, p);
    }
  }

  /** No readable entry in `slots[i..]` lies below `p` or is a directory named `p`. */
  predicate NoDirectoryAt(slots: seq<Slot>, i: nat, p: Path) {
    forall k | i <= k < |slots| :: slots[k].Readable? ==>
      !(p < slots[k].entry.name) && !(slots[k].entry.name == p && slots[k].entry.kind.Directory?)
  }

  /** Only a directory entry at `p`, or an entry below it, can make `p` a directory. */
  lemma {:induction false} NoDirectoryMade(slots: seq<Slot>, filter: Filter, d: Disk, i: nat, p: Path)
    requires i <= |slots| && |p| > 0 && p !in d.dirs && NoDirectoryAt(slots, i, p)
    ensures p !in ExtractFrom(slots, filter, d, i).disk.dirs
    decreases |slots| - i
  {
    if i < |slots| {
      match Step(slots[i], filter, d)
      case Skipped => NoDirectoryMade(slots, filter, d, i + 1, p);
      case Failed(_) =>
      case Done(d') =>
        var entry := slots[i].entry;
        if entry.kind.Directory? {
          assert p !in Ancestry(entry.name);
        }
        NoDirectoryMade(slots, filter, d', i + 1, p);
    }
  }

  /** Every reported entry was readable, and each reported directory entry is a directory on the card afterwards. */
  lemma {:induction false} ReportedDirectoriesMade(slots: seq<Slot>, filter: Filter, d: Disk, i: nat)
    requires i <= |slots|
    ensures forall k | k in ExtractFrom(slots, filter, d, i).reported ::
      && i <= k < |slots| && slots[k].Readable?
      && (slots[k].entry.kind.Directory? ==> IsDir(ExtractFrom(slots, filter, d, i).disk, slots[k].entry.name))
    decreases |slots| - i
  {
    if i < |slots| {
      match Step(slots[i], filter, d)
      case Skipped =>
        SkippedStepResumes(slots, filter, d, i);
        ReportedDirectoriesMade(slots, filter, d, i + 1);
      case Failed(_) =>
      case Done(d') =>
        DoneStepResumes(slots, filter, d, i);
        ReportedDirectoriesMade(slots, filter, d', i + 1);
        StepEffect(slots[i], filter, d);
        ExtractGrows(slots, filter, d', i + 1);
        assert slots[i].entry.name[..|slots[i].entry.name|] == slots[i].entry.name;
    }
  }

  /** No entry reported among `reported` after index `k` writes a file at `p`. */
  predicate NoLaterWrite(slots: seq<Slot>, reported: seq<nat>, k: int, p: Path) {
    forall j | j in reported && k < j < |slots| ::
      !(slots[j].Readable? && slots[j].entry.kind.File? && slots[j].entry.name == p)
  }

  /** A file that no applied entry writes keeps its content, whatever else the walk does. */
  lemma {:induction false} UnwrittenFileKept(slots: seq<Slot>, filter: Filter, d: Disk, i: nat, p: Path)
    requires i <= |slots| && p in d.files
    requires NoLaterWrite(slots, ExtractFrom(slots, filter, d, i).reported, i - 1, p)
    ensures var out := ExtractFrom(slots, filter, d, i).disk;
      p in out.files && out.files[p] == d.files[p]
    decreases |slots| - i
  {
    if i < |slots| {
      match Step(slots[i], filter, d)
      case Skipped =>
        SkippedStepResumes(slots, filter, d, i);
        UnwrittenFileKept(slots, filter, d, i + 1, p);
      case Failed(_) =>
      case Done(d') =>
        DoneStepResumes(slots, filter, d, i);
        assert i in ExtractFrom(slots, filter, d, i).reported;
        match slots[i].entry.kind {
          case Directory => CreateDirAllEffect(d, slots[i].entry.name);
          case File(content) => WriteFileEffect(d, slots[i].entry.name, content.value);
          case Other =>
        }
        UnwrittenFileKept(slots, filter, d', i + 1, p);
    }
  }

  /**
   * The last applied entry that writes a file decides its content: when
   * entry `k` wrote `b` at its name and no later applied entry writes
   * there, the card holds `b` there after the walk.
   */
  lemma {:induction false} LastWriteKept(slots: seq<Slot>, filter: Filter, d: Disk, i: nat, k: nat, b: Bytes)
    requires i <= k < |slots| && k in ExtractFrom(slots, filter, d, i).reported
    requires slots[k].Readable? && slots[k].entry.kind == File(Success(b))
    requires NoLaterWrite(slots, ExtractFrom(slots, filter, d, i).reported, k, slots[k].entry.name)
    ensures var out := ExtractFrom(slots, filter, d, i).disk;
      slots[k].entry.name in out.files && out.files[slots[k].entry.name] == b
    decreases |slots| - i
  {
    match Step(slots[i], filter, d)
    case Skipped =>
      SkippedStepResumes(slots, filter, d, i);
      ReportedInOrder(slots, filter, d, i + 1);
      LastWriteKept(slots, filter, d, i + 1, k, b);
    case Failed(_) =>
    case Done(d') =>
      DoneStepResumes(slots, filter, d, i);
      if k == i {
        WriteFileEffect(d, slots[k].entry.name, b);
        UnwrittenFileKept(slots, filter, d', i + 1, slots[k].entry.name);
      } else {
        ReportedInOrder(slots, filter, d', i + 1);
        LastWriteKept(slots, filter, d', i + 1, k, b);
      }
  }
}
