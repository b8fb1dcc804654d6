/**
 * The SD card the updater writes to, reduced to what the updater relies on:
 * files with their bytes, directories, and the failures `std::fs` reports.
 * Paths are lists of components relative to the card's root (`[]` is the
 * root itself, which always exists).
 */
module FileSystem {
  import opened Wrappers

  type Bytes = seq<bv8>
  type Path = seq<string>

  /**
   * `faults` are file paths the card refuses to create, truncate or replace
   * (a read-only or full medium); directory creation never faults.
   */
  datatype Disk = Disk(files: map<Path, Bytes>, dirs: set<Path>, faults: set<Path>)

  // The `Display` texts of the `std::io::Error`s the operations below produce.
  const NotFound := "No such file or directory (os error 2)"
  const AlreadyExists := "File exists (os error 17)"
  const NotADirectory := "Not a directory (os error 20)"
  const IsADirectory := "Is a directory (os error 21)"
  const ReadOnly := "Read-only file system (os error 30)"

  function Parent(p: Path): Path
    requires |p| > 0
  {
    p[..|p| - 1]
  }

  predicate IsDir(d: Disk, p: Path) {
    p == [] || p in d.dirs
  }

  /** The directory tree is a tree: nothing is both a file and a directory, everything hangs off a directory. */
  ghost predicate WellFormed(d: Disk) {
    && [] !in d.files
    && d.files.Keys !! d.dirs
    && (forall p | p in d.dirs :: |p| > 0 && IsDir(d, Parent(p)))
    && (forall p | p in d.files :: |p| > 0 && IsDir(d, Parent(p)))
  }

  /** Every non-empty leading part of `p`: the directories `create_dir_all(p)` creates. */
  function Ancestry(p: Path): (a: set<Path>)
    ensures forall q :: q in a <==> 0 < |q| <= |p| && q == p[..|q|]
  {
    set k | 0 < k <= |p| :: p[..k]
  }

  /** `std::fs::create_dir_all(p)`. */
  function CreateDirAllOn(d: Disk, p: Path): (r: Result<Disk, Error>)
    ensures r.Success? <==> p !in d.files && forall q | q in Ancestry(p) :: q !in d.files
    ensures r.Failure? ==> r.error == AlreadyExists || r.error == NotADirectory
    ensures r.Success? ==> r.value.files == d.files && p in r.value.dirs + {[]}
  {
    if p in d.files then Failure(AlreadyExists)
    else if exists k | 0 < k < |p| :: p[..k] in d.files then Failure(NotADirectory)
    else Success(d.(dirs := d.dirs + Ancestry(p)))
  }

  /** `File::create(p)` followed by one `write` of all of `content`. */
  function WriteFileOn(d: Disk, p: Path, content: Bytes): (r: Result<Disk, Error>)
    ensures r.Success? ==> !IsDir(d, p) && IsDir(d, Parent(p)) && p !in d.faults
    ensures r.Success? ==> r.value.files.Keys == d.files.Keys + {p} && r.value.files[p] == content
  {
    if IsDir(d, p) then Failure(IsADirectory)
    else if !IsDir(d, Parent(p)) then Failure(NotFound)
    else if p in d.faults then Failure(ReadOnly)
    else Success(d.(files := d.files[p := content]))
  }

  /** `std::fs::rename(from, to)` of a file; directories are not renamed here. */
  function RenameOn(d: Disk, from: Path, to: Path): (r: Result<Disk, Error>)
    ensures r.Success? ==> from in d.files && !IsDir(d, to) && IsDir(d, Parent(to))
    ensures r.Success? ==> r.value.files.Keys == d.files.Keys - {from} + {to} && r.value.files[to] == d.files[from]
  {
    if from !in d.files then Failure(NotFound)
    else if IsDir(d, to) then Failure(IsADirectory)
    else if !IsDir(d, Parent(to)) then Failure(NotFound)
    else if from in d.faults || to in d.faults then Failure(ReadOnly)
    else Success(d.(files := (d.files - {from})[to := d.files[from]]))
  }

  /** Names of the entries directly inside `dir`. */
  function Children(d: Disk, dir: Path): (names: set<string>)
    ensures forall n :: n in names <==> dir + [n] in d.files || dir + [n] in d.dirs
  {
    var inside := set p | p in d.files.Keys + d.dirs && |p| == |dir| + 1 && p[..|dir|] == dir;
    var names := set p | p in inside :: p[|dir|];
    assert forall n :: dir + [n] in d.files || dir + [n] in d.dirs ==> dir + [n] in inside && (dir + [n])[|dir|] == n;
    assert forall p | p in inside :: p == dir + [p[|dir|]];
    names
  }

  /** `std::fs::read_dir(dir)`, entry names only. */
  function ReadDir(d: Disk, dir: Path): (r: Result<set<string>, Error>)
    ensures r.Success? <==> IsDir(d, dir)
  {
    if IsDir(d, dir) then Success(Children(d, dir))
    else if dir in d.files then Failure(NotADirectory)
    else Failure(NotFound)
  }

  /** `after` is `before` with nothing removed. */
  ghost predicate Grows(before: Disk, after: Disk) {
    && before.files.Keys <= after.files.Keys
    && before.dirs <= after.dirs
    && before.faults == after.faults
  }

  lemma CreateDirAllEffect(d: Disk, p: Path)
    requires CreateDirAllOn(d, p).Success?
    ensures var d' := CreateDirAllOn(d, p).value;
      && IsDir(d', p) && (forall k | 0 <= k <= |p| :: IsDir(d', p[..k]))
      && d'.files == d.files && d.dirs <= d'.dirs && d'.faults == d.faults
  {
    var d' := CreateDirAllOn(d, p).value;
    assert p[..|p|] == p;
    forall k | 0 < k <= |p| ensures p[..k] in d'.dirs {
      assert p[..k] in Ancestry(p);
    }
  }

  /** Creating a directory that already exists changes nothing and does not fail. */
  lemma CreateDirAllIdempotent(d: Disk, p: Path)
    requires CreateDirAllOn(d, p).Success?
    ensures var d' := CreateDirAllOn(d, p).value;
      CreateDirAllOn(d', p) == Success(d')
  {
    var d' := CreateDirAllOn(d, p).value;
    assert d'.dirs + Ancestry(p) == d'.dirs;
  }

  lemma CreateDirAllKeepsWellFormed(d: Disk, p: Path)
    requires WellFormed(d) && CreateDirAllOn(d, p).Success?
    ensures WellFormed(CreateDirAllOn(d, p).value)
  {
    var d' := CreateDirAllOn(d, p).value;
    forall q | q in Ancestry(p) ensures q !in d.files && |q| > 0 && IsDir(d', Parent(q)) {
      if |q| < |p| {
        assert q == p[..|q|];
      } else {
        assert q == p;
      }
      if |q| > 1 {
        assert Parent(q) == p[..|q| - 1];
        assert Parent(q) in Ancestry(p);
      }
    }
  }

  lemma WriteFileEffect(d: Disk, p: Path, content: Bytes)
    requires WriteFileOn(d, p, content).Success?
    ensures var d' := WriteFileOn(d, p, content).value;
      && d'.files[p] == content
      && (forall q | q != p :: (q in d'.files <==> q in d.files) && (q in d.files ==> d'.files[q] == d.files[q]))
      && d'.dirs == d.dirs && d'.faults == d.faults
  {
  }

  lemma WriteFileKeepsWellFormed(d: Disk, p: Path, content: Bytes)
    requires WellFormed(d) && WriteFileOn(d, p, content).Success?
    ensures WellFormed(WriteFileOn(d, p, content).value)
  {
  }

  /**
   * A successful rename moves the bytes at `from` to `to`, replacing any
   * file there, and changes no other file, no directory and no fault.
   */
  lemma RenameEffect(d: Disk, from: Path, to: Path)
    requires RenameOn(d, from, to).Success?
    ensures var d' := RenameOn(d, from, to).value;
      && to in d'.files && d'.files[to] == d.files[from]
      && (from != to ==> from !in d'.files)
      && (forall q | q != from && q != to :: (q in d'.files <==> q in d.files) && (q in d.files ==> d'.files[q] == d.files[q]))
      && d'.dirs == d.dirs && d'.faults == d.faults
  {
  }

  /**
   * Renaming a file over an existing file `b` and back restores the card
   * except that the file formerly at `b` is gone.
   */
  lemma RenameBackDropsReplaced(d: Disk, a: Path, b: Path)
    requires WellFormed(d)
    requires a != b
    requires RenameOn(d, a, b).Success?
    ensures RenameOn(RenameOn(d, a, b).value, b, a) == Success(d.(files := d.files - {b}))
  {
    var d1 := RenameOn(d, a, b).value;
    assert a !in d.dirs && a != [];
    assert (d1.files - {b})[a := d1.files[b]] == d.files - {b};
  }

  /**
   * Renaming a file to a free name and back restores the card exactly:
   * the rollback of a backup rename undoes it.
   */
  lemma RenameRoundTrip(d: Disk, a: Path, b: Path)
    requires WellFormed(d)
    requires a != b && b !in d.files
    requires RenameOn(d, a, b).Success?
    ensures RenameOn(RenameOn(d, a, b).value, b, a) == Success(d)
  {
    var d1 := RenameOn(d, a, b).value;
    assert a !in d.dirs && a != [];
    var m := (d1.files - {b})[a := d1.files[b]];
    assert m == d.files;
  }

  /** `res` is the result of an operation on `before`; `after` and `r` are what the card shows for it. */
  predicate Applied(res: Result<Disk, Error>, before: Disk, after: Disk, r: Outcome<Error>) {
    match res
    case Success(d) => after == d && r == Pass
    case Failure(e) => after == before && r == Fail(e)
  }

  /** The mounted SD card: the file system calls change it in place. */
  class SdCard {
    var files: map<Path, Bytes>
    var dirs: set<Path>
    var faults: set<Path>

    function View(): Disk
      reads this
    {
      Disk(files, dirs, faults)
    }

    method Set(d: Disk)
      modifies this
      ensures View() == d
    {
      files, dirs, faults := d.files, d.dirs, d.faults;
    }

    method CreateDirAll(p: Path) returns (r: Outcome<Error>)
      modifies this
      ensures Applied(CreateDirAllOn(old(View()), p), old(View()), View(), r)
    {
      match CreateDirAllOn(View(), p)
      case Success(d) => Set(d); r := Pass;
      case Failure(e) => r := Fail(e);
    }

    method WriteFile(p: Path, content: Bytes) returns (r: Outcome<Error>)
      modifies this
      ensures Applied(WriteFileOn(old(View()), p, content), old(View()), View(), r)
    {
      match WriteFileOn(View(), p, content)
      case Success(d) => Set(d); r := Pass;
      case Failure(e) => r := Fail(e);
    }

    method Rename(from: Path, to: Path) returns (r: Outcome<Error>)
      modifies this
      ensures Applied(RenameOn(old(View()), from, to), old(View()), View(), r)
    {
      match RenameOn(View(), from, to)
      case Success(d) => Set(d); r := Pass;
      case Failure(e) => r := Fail(e);
    }
  }
}
