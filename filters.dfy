/**
 * The per-entry inclusion predicates handed to the archive extractor
 * (src/update/mod.rs): accept everything for the self-update, an allow-list
 * for a quick update, and the existing-ROM-folder rule for a full update.
 * A filter sees an entry's sanitized name and the card as it is at the
 * moment the entry is reached.
 */
module Filters {
  import opened Wrappers
  import opened Text
  import opened FileSystem

  /** No component of `p` contains a `/`. */
  predicate PlainComponents(p: Path) {
    forall k | 0 <= k < |p| :: '/' !in p[k]
  }

  /** The sanitized name as the filter sees it: components joined with `/`. */
  function JoinPath(p: Path): (s: string)
    ensures |p| > 0 ==> StartsWith(s, p[0])
    ensures |p| > 1 ==> StartsWith(s, p[0] + "/")
    ensures PlainComponents(p) && |p| <= 1 ==> '/' !in s
  {
    if p == [] then "" else if |p| == 1 then p[0] else p[0] + "/" + JoinPath(p[1..])
  }

  /** The components of a name, split at every `/`. */
  function SplitPath(s: string): (p: Path)
    ensures |p| > 0 && PlainComponents(p)
    decreases |s|
  {
    match FirstIndex(s, '/')
    case None => [s]
    case Some(i) =>
      var rest := SplitPath(s[i + 1..]);
      assert forall j | 0 <= j < i :: s[..i][j] == s[j];
      [s[..i]] + rest
  }

  /** A name made of a plain component, `/` and a rest splits into that component and the rest's parts. */
  lemma SplitAtFirstSlash(a: string, rest: string)
    requires '/' !in a
    ensures SplitPath(a + "/" + rest) == [a] + SplitPath(rest)
  {
    var s := a + "/" + rest;
    assert s[|a|] == '/';
    assert forall j | 0 <= j < |a| :: s[j] == a[j];
    assert FirstIndex(s, '/') == Some(|a|);
    assert s[..|a|] == a && s[|a| + 1..] == rest;
  }

  /** Joining at least two components puts a `/` after the first, and the rest stays plain. */
  lemma SplitJoinStep(p: Path)
    requires |p| > 1 && PlainComponents(p)
    ensures PlainComponents(p[1..])
    ensures SplitPath(JoinPath(p)) == [p[0]] + SplitPath(JoinPath(p[1..]))
  {
    assert JoinPath(p) == p[0] + "/" + JoinPath(p[1..]);
    SplitAtFirstSlash(p[0], JoinPath(p[1..]));
    forall k | 0 <= k < |p[1..]| ensures '/' !in p[1..][k] {
      assert p[1..][k] == p[k + 1];
    }
  }

  /** Splitting the joined name gives the components back. */
  lemma {:induction false} SplitJoinRoundTrip(p: Path)
    requires |p| > 0 && PlainComponents(p)
    ensures SplitPath(JoinPath(p)) == p
  {
    if |p| == 1 {
      assert FirstIndex(p[0], '/').None?;
    } else {
      SplitJoinStep(p);
      SplitJoinRoundTrip(p[1..]);
      assert p == [p[0]] + p[1..];
    }
  }

  /** A component followed by `/` starts with `Roms/` only when the component is `Roms`. */
  lemma RomsComponent(a: string, rest: string)
    requires '/' !in a
    ensures StartsWith(a + "/" + rest, "Roms/") ==> a == "Roms"
  {
    var s := a + "/" + rest;
    var n := |a|;
    assert s[n] == '/';
    if |s| >= 5 {
      if n < 4 {
        assert s[..5][n] == '/' != "Roms/"[n];
      } else if n > 4 {
        assert s[..5][4] == a[4] != '/';
      } else {
        assert s[..4] == a;
      }
    }
  }

  /** A name with no `/` never starts with `Roms/`. */
  lemma NoSlashNotRoms(a: string)
    requires '/' !in a
    ensures !StartsWith(a, "Roms/")
  {
    if |a| >= 5 {
      assert a[..5][4] == a[4] != '/';
    }
  }

  /** A name is under `Roms/` exactly when its path has a first component `Roms` and more after it. */
  lemma RomsEntryIff(p: Path)
    requires PlainComponents(p)
    ensures StartsWith(JoinPath(p), "Roms/") <==> |p| > 1 && p[0] == "Roms"
  {
    if |p| <= 1 {
      NoSlashNotRoms(JoinPath(p));
    } else {
      var rest := JoinPath(p[1..]);
      assert JoinPath(p) == p[0] + "/" + rest;
      assert '/' !in p[0];
      RomsComponent(p[0], rest);
      if p[0] == "Roms" {
        assert "Roms" + "/" == "Roms/";
      }
    }
  }

  /** The regular expression's `\w`, restricted to ASCII. */
  predicate IsWordChar(c: char) {
    ('a' <= c <= 'z') || ('A' <= c <= 'Z') || ('0' <= c <= '9') || c == '_'
  }

  predicate AllWord(t: string) {
    forall k | 0 <= k < |t| :: IsWordChar(t[k])
  }

  /** `s[i..j+1]` is a match of `\((\w+)\)`. */
  predicate GroupAt(s: string, i: int, j: int) {
    0 <= i && i + 1 < j < |s| && s[i] == '(' && s[j] == ')' && AllWord(s[i + 1..j])
  }

  /** The end of the run of word characters starting at `j`. */
  function WordRunEnd(s: string, j: nat): (e: nat)
    requires j <= |s|
    ensures j <= e <= |s| && AllWord(s[j..e])
    ensures e < |s| ==> !IsWordChar(s[e])
    decreases |s| - j
  {
    if j < |s| && IsWordChar(s[j]) then
      var e := WordRunEnd(s, j + 1);
      assert forall k | 0 < k < e - j :: s[j..e][k] == s[j + 1..e][k - 1];
      e
    else j
  }

  /** A group at `i` can only close where the word run after `(` ends. */
  lemma GroupEndsAtRunEnd(s: string, i: nat, j: int)
    requires i < |s| && GroupAt(s, i, j)
    ensures j == WordRunEnd(s, i + 1)
  {
  }

  /** The leftmost match of `\((\w+)\)` at or after `i`, as its `(` and `)` positions. */
  function FindGroup(s: string, i: nat): (r: Option<(nat, nat)>)
    requires i <= |s|
    ensures r.Some? ==> i <= r.value.0 && GroupAt(s, r.value.0, r.value.1)
    ensures r.Some? ==> forall a, b | i <= a < r.value.0 :: !GroupAt(s, a, b)
    ensures r.None? ==> forall a, b | i <= a :: !GroupAt(s, a, b)
    decreases |s| - i
  {
    if i == |s| then None
    else
      var e := WordRunEnd(s, i + 1);
      if s[i] == '(' && i + 1 < e < |s| && s[e] == ')' then Some((i, e))
      else
        assert forall b :: !GroupAt(s, i, b) by {
          forall b | GroupAt(s, i, b) ensures false {
            GroupEndsAtRunEnd(s, i, b);
          }
        }
        FindGroup(s, i + 1)
  }

  /**
   * The `emu` capture of `\((?<emu>\w+)\)` on `name`: the word characters
   * of the leftmost parenthesized group, if there is one.
   */
  function EmuTag(name: string): (r: Option<string>)
    ensures r.None? <==> forall a, b :: !GroupAt(name, a, b)
    ensures r.Some? ==> |r.value| > 0 && AllWord(r.value) && Contains(name, "(" + r.value + ")")
    ensures r.Some? ==> exists i, j :: GroupAt(name, i, j) && r.value == name[i + 1..j] && forall a, b | 0 <= a < i :: !GroupAt(name, a, b)
  {
    match FindGroup(name, 0)
    case None => None
    case Some((i, j)) =>
      var t := name[i + 1..j];
      assert name[i..j + 1] == "(" + t + ")";
      assert OccursAt(name, "(" + t + ")", i);
      Some(t)
  }

  /** The self-update extracts every entry. */
  predicate AcceptAll(name: string, d: Disk)
    ensures AcceptAll(name, d)
  {
    true
  }

  /** Quick update: only the boot bundle and the platform folder. */
  predicate QuickAccepts(name: string, d: Disk)
    ensures QuickAccepts(name, d) ==> |name| >= 6 && (name[0] == 'M' || name[0] == 't')
    ensures QuickAccepts(name, d) ==> !StartsWith(name, "Roms/")
  {
    StartsWith(name, "MinUI.zip") || StartsWith(name, "trimui")
  }

  /** The ROM library's root on the card. */
  const RomsRoot: Path := ["Roms"]

  /**
   * Full update: everything except a `Roms/` entry whose emulator tag
   * `(TAG)` already names an entry of the card's ROM library; a ROM library
   * that cannot be listed protects nothing.
   */
  predicate FullAccepts(name: string, d: Disk)
    ensures !FullAccepts(name, d) ==> StartsWith(name, "Roms/") && EmuTag(name).Some? && RomsRoot in d.dirs
  {
    if !StartsWith(name, "Roms/") then true
    else match EmuTag(name)
      case None => true
      case Some(emu) =>
        match ReadDir(d, RomsRoot)
        case Failure(_) => true
        case Success(names) => !(exists n | n in names :: Contains(n, "(" + emu + ")"))
  }

  /**
   * An entry a full update keeps off the card: it is under `Roms/`, has a
   * tag, and the ROM library is a directory holding an entry whose name
   * carries that tag.
   */
  ghost predicate Protected(name: string, d: Disk) {
    && StartsWith(name, "Roms/")
    && EmuTag(name).Some?
    && RomsRoot in d.dirs
    && exists n :: (RomsRoot + [n] in d.files || RomsRoot + [n] in d.dirs) && Contains(n, "(" + EmuTag(name).value + ")")
  }

  lemma FullRejectsExactlyProtected(name: string, d: Disk)
    ensures !FullAccepts(name, d) <==> Protected(name, d)
  {
    if StartsWith(name, "Roms/") && EmuTag(name).Some? {
      var emu := EmuTag(name).value;
      if Protected(name, d) {
        var n :| (RomsRoot + [n] in d.files || RomsRoot + [n] in d.dirs) && Contains(n, "(" + emu + ")");
        assert n in Children(d, RomsRoot);
      }
    }
  }

  /** A protected entry stays protected while the card only grows. */
  lemma ProtectedPersists(name: string, d: Disk, d': Disk)
    requires Protected(name, d) && Grows(d, d')
    ensures Protected(name, d')
  {
    var n :| (RomsRoot + [n] in d.files || RomsRoot + [n] in d.dirs) && Contains(n, "(" + EmuTag(name).value + ")");
    assert RomsRoot + [n] in d'.files || RomsRoot + [n] in d'.dirs;
  }
}
