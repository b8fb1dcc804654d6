/**
 * `do_nextui_release_check` (src/update/mod.rs): pair each fetched release,
 * newest first, with the first remaining tag of the same name, consuming
 * that tag; pick the pair the installed build corresponds to; and publish
 * the result in the shared state.
 */
module ReleaseCheck {
  import opened Wrappers
  import opened Text
  import opened GitHub
  import opened AppState

  /** Position of the first tag named `name` (`iter().position`). */
  function FindTag(pool: seq<Tag>, name: string): (r: Option<nat>)
    ensures r.Some? ==> r.value < |pool| && pool[r.value].name == name
    ensures r.Some? ==> forall j | 0 <= j < r.value :: pool[j].name != name
    ensures r.None? ==> forall j | 0 <= j < |pool| :: pool[j].name != name
  {
    if pool == [] then None
    else if pool[0].name == name then Some(0)
    else match FindTag(pool[1..], name)
      case None => None
      case Some(k) => Some(k + 1)
  }

  /** `pool` without its `k`-th element (`Vec::remove`). */
  function RemoveAt(pool: seq<Tag>, k: nat): (r: seq<Tag>)
    requires k < |pool|
    ensures |r| == |pool| - 1
    ensures multiset(r) + multiset{pool[k]} == multiset(pool)
    ensures forall j | 0 <= j < |r| :: r[j] == if j < k then pool[j] else pool[j + 1]
  {
    assert pool == pool[..k] + [pool[k]] + pool[k + 1..];
    pool[..k] + pool[k + 1..]
  }

  /** The pairs the loop builds: releases in order, each with its first equal-named tag still unused. */
  function Resolve(releases: seq<Release>, pool: seq<Tag>): seq<ReleaseAndTag>
  {
    if releases == [] then []
    else match FindTag(pool, releases[0].tagName)
      case None => Resolve(releases[1..], pool)
      case Some(k) => [ReleaseAndTag(releases[0], pool[k])] + Resolve(releases[1..], RemoveAt(pool, k))
  }

  /** The pair corresponds to the installed build: its commit hash starts with `version`. */
  predicate IsInstalled(pair: ReleaseAndTag, version: string) {
    StartsWith(pair.tag.commit.sha, version)
  }

  /** The last pair that corresponds to the installed build. */
  function LastInstalled(pairs: seq<ReleaseAndTag>, version: string): (r: Option<nat>)
    ensures r.Some? ==> r.value < |pairs| && IsInstalled(pairs[r.value], version)
    ensures r.Some? ==> forall j | r.value < j < |pairs| :: !IsInstalled(pairs[j], version)
    ensures r.None? ==> forall j | 0 <= j < |pairs| :: !IsInstalled(pairs[j], version)
  {
    if pairs == [] then None
    else if IsInstalled(pairs[|pairs| - 1], version) then Some(|pairs| - 1)
    else LastInstalled(pairs[..|pairs| - 1], version)
  }

  /** One more release: paired with its first equal-named tag, which leaves the pool, or dropped. */
  lemma ResolveStep(releases: seq<Release>, pool: seq<Tag>, i: nat)
    requires i < |releases|
    ensures releases[i..] == [releases[i]] + releases[i + 1..]
    ensures Resolve(releases[i..], pool) ==
      match FindTag(pool, releases[i].tagName)
      case None => Resolve(releases[i + 1..], pool)
      case Some(k) => [ReleaseAndTag(releases[i], pool[k])] + Resolve(releases[i + 1..], RemoveAt(pool, k))
  {
    assert releases[i..][1..] == releases[i + 1..];
  }

  /** Appending a pair moves the last installed pair to it exactly when it corresponds to the installed build. */
  lemma LastInstalledStep(pairs: seq<ReleaseAndTag>, pair: ReleaseAndTag, version: string)
    ensures LastInstalled(pairs + [pair], version) ==
      if IsInstalled(pair, version) then Some(|pairs|) else LastInstalled(pairs, version)
  {
    assert (pairs + [pair])[..|pairs|] == pairs;
  }

  datatype CheckResult = CheckFailed(message: string) | Resolved(pairs: seq<ReleaseAndTag>, index: nat)

  /** What a release check concludes from the two fetches and the installed version. */
  function CheckReleases(
    releases: Result<seq<Release>, Error>, tags: Result<seq<Tag>, Error>, version: Option<string>
  ): (r: CheckResult)
    ensures r.Resolved? ==> r.index < |r.pairs|
  {
    if releases.Failure? then CheckFailed("Releases fetch failed: " + releases.error)
    else if releases.value == [] then CheckFailed("Releases fetch returned 0 releases")
    else if tags.Failure? then CheckFailed("Tags fetch failed: " + tags.error)
    else if tags.value == [] then CheckFailed("Tags fetch returned 0 tags")
    else if FindTag(tags.value, releases.value[0].tagName).None? then
      CheckFailed("Latest release has no matching tag: " + Quoted(releases.value[0].tagName))
    else
      var pairs := Resolve(releases.value, tags.value);
      Resolved(pairs, LastInstalled(pairs, version.GetOr("")).GetOr(0))
  }

  /**
   * One turn of the pairing loop: the release at `i` takes its first
   * equal-named tag out of the pool, and the installed pair's index is
   * recorded when its commit hash starts with `currentTag`; without such a
   * tag nothing changes.
   */
  method PairNext(
    st: AppStateManager, releases: seq<Release>, i: nat, currentTag: string,
    pool: seq<Tag>, pairs: seq<ReleaseAndTag>, found: bool, ghost index0: Option<nat>
  ) returns (pool': seq<Tag>, pairs': seq<ReleaseAndTag>, found': bool, paired: bool)
    requires i < |releases|
    requires found <==> LastInstalled(pairs, currentTag).Some?
    requires st.nextuiReleasesAndTagsIndex == if found then Some(LastInstalled(pairs, currentTag).value) else index0
    modifies st`nextuiReleasesAndTagsIndex
    ensures paired <==> FindTag(pool, releases[i].tagName).Some?
    ensures pairs' + Resolve(releases[i + 1..], pool') == pairs + Resolve(releases[i..], pool)
    ensures paired ==> |pairs'| == |pairs| + 1
    ensures !paired ==> pairs' == pairs && pool' == pool && found' == found
    ensures found' <==> LastInstalled(pairs', currentTag).Some?
    ensures st.nextuiReleasesAndTagsIndex == if found' then Some(LastInstalled(pairs', currentTag).value) else index0
  {
    var release := releases[i];
    ResolveStep(releases, pool, i);
    var position := FindTag(pool, release.tagName);
    pool', pairs', found', paired := pool, pairs, found, false;
    if position.Some? {
      var tagIndex := position.value;
      var pair := ReleaseAndTag(release, pool[tagIndex]);
      LastInstalledStep(pairs, pair, currentTag);
      pairs' := pairs + [pair];
      if StartsWith(pool[tagIndex].commit.sha, currentTag) {
        st.SetNextuiReleasesAndTagsIndex(Some(|pairs'| - 1));
        found' := true;
      }
      pool' := RemoveAt(pool, tagIndex);
      paired := true;
    }
  }

  /**
   * The pairing loop of `do_nextui_release_check`: builds the pairs, records
   * the last installed pair's position as it goes, and gives up when the
   * newest release has no tag.
   */
  method PairReleases(st: AppStateManager, latestReleases: seq<Release>, tags: seq<Tag>, currentTag: string)
    returns (releasesAndTags: seq<ReleaseAndTag>, currentTagFound: bool, aborted: bool)
    requires latestReleases != []
    modifies st`nextuiReleasesAndTagsIndex, st`currentOperation, st`progress, st`error
    ensures aborted <==> FindTag(tags, latestReleases[0].tagName).None?
    ensures aborted ==>
      && st.error == Some("Latest release has no matching tag: " + Quoted(latestReleases[0].tagName))
      && st.currentOperation.None? && st.progress.None?
      && st.nextuiReleasesAndTagsIndex == old(st.nextuiReleasesAndTagsIndex)
    ensures !aborted ==>
      && releasesAndTags == Resolve(latestReleases, tags) && |releasesAndTags| > 0
      && (currentTagFound <==> LastInstalled(releasesAndTags, currentTag).Some?)
      && st.nextuiReleasesAndTagsIndex ==
        (if currentTagFound then Some(LastInstalled(releasesAndTags, currentTag).value)
        else old(st.nextuiReleasesAndTagsIndex))
      && st.error == old(st.error)
      && st.currentOperation == old(st.currentOperation) && st.progress == old(st.progress)
  {
    releasesAndTags := [];
    aborted := false;
    var latestTags := tags;
    var checkLatestRelease := true;
    currentTagFound := false;
    ghost var index0 := st.nextuiReleasesAndTagsIndex;
    for i := 0 to |latestReleases|
      invariant checkLatestRelease <==> i == 0
      invariant Resolve(latestReleases, tags) == releasesAndTags + Resolve(latestReleases[i..], latestTags)
      invariant i == 0 ==> latestTags == tags && releasesAndTags == []
      invariant i > 0 ==> FindTag(tags, latestReleases[0].tagName).Some? && |releasesAndTags| > 0
      invariant currentTagFound <==> LastInstalled(releasesAndTags, currentTag).Some?
      invariant st.nextuiReleasesAndTagsIndex ==
        if currentTagFound then Some(LastInstalled(releasesAndTags, currentTag).value) else index0
      invariant st.error == old(st.error)
      invariant st.currentOperation == old(st.currentOperation) && st.progress == old(st.progress)
    {
      var paired;
      latestTags, releasesAndTags, currentTagFound, paired :=
        PairNext(st, latestReleases, i, currentTag, latestTags, releasesAndTags, currentTagFound, index0);
      if paired {
        if checkLatestRelease {
          checkLatestRelease := false;
        }
        continue;
      }
      if checkLatestRelease {
        st.SetOperationFailed("Latest release has no matching tag: " + Quoted(latestReleases[i].tagName));
        aborted := true;
        return;
      }
    }
    assert latestReleases[|latestReleases|..] == [];
  }

  method DoNextuiReleaseCheck(st: AppStateManager, releases: Result<seq<Release>, Error>, tags: Result<seq<Tag>, Error>)
    modifies st`currentOperation, st`progress, st`error
    modifies st`nextuiRelease, st`nextuiTag, st`nextuiReleasesAndTags, st`nextuiReleasesAndTagsIndex
    ensures st.currentOperation.None? && st.progress.None?
    ensures match CheckReleases(releases, tags, old(st.currentVersion))
      case CheckFailed(message) =>
        && st.error == Some(message)
        && st.nextuiRelease == old(st.nextuiRelease) && st.nextuiTag == old(st.nextuiTag)
        && st.nextuiReleasesAndTags == old(st.nextuiReleasesAndTags)
        && st.nextuiReleasesAndTagsIndex == old(st.nextuiReleasesAndTagsIndex)
      case Resolved(pairs, index) =>
        && |pairs| > 0
        && st.error == old(st.error)
        && st.nextuiRelease == Some(pairs[0].release) && st.nextuiTag == Some(pairs[0].tag)
        && st.nextuiReleasesAndTags == Some(pairs)
        && st.nextuiReleasesAndTagsIndex == Some(index)
  {
    st.StartOperation("Fetching latest NextUI release...");
    st.StartOperation("Fetching latest NextUI releases...");
    if releases.Failure? {
      st.SetOperationFailed("Releases fetch failed: " + releases.error);
      return;
    }
    var latestReleases := releases.value;
    if latestReleases == [] {
      st.SetOperationFailed("Releases fetch returned 0 releases");
      return;
    }
    st.StartOperation("Fetching latest NextUI tags...");
    if tags.Failure? {
      st.SetOperationFailed("Tags fetch failed: " + tags.error);
      return;
    }
    var latestTags := tags.value;
    if latestTags == [] {
      st.SetOperationFailed("Tags fetch returned 0 tags");
      return;
    }

    var version := st.CurrentVersion();
    var currentTag := version.GetOr("");
    var releasesAndTags, currentTagFound, aborted := PairReleases(st, latestReleases, latestTags, currentTag);
    if aborted {
      return;
    }
    assert CheckReleases(releases, tags, version) ==
      Resolved(releasesAndTags, LastInstalled(releasesAndTags, currentTag).GetOr(0));

    st.SetNextuiRelease(Some(releasesAndTags[0].release));
    st.SetNextuiTag(Some(releasesAndTags[0].tag));
    st.SetNextuiReleasesAndTags(Some(releasesAndTags));
    if !currentTagFound {
      st.SetNextuiReleasesAndTagsIndex(Some(0));
    }
    st.FinishOperation();
  }

  /** The tags of a pair list, in order. */
  function TagsOf(pairs: seq<ReleaseAndTag>): seq<Tag> {
    seq(|pairs|, k requires 0 <= k < |pairs| => pairs[k].tag)
  }

  /** The releases of a pair list, in order. */
  function ReleasesOf(pairs: seq<ReleaseAndTag>): seq<Release> {
    seq(|pairs|, k requires 0 <= k < |pairs| => pairs[k].release)
  }

  /** `xs` is `ys` with some elements left out, the rest kept in order. */
  ghost predicate IsSubsequence<T>(xs: seq<T>, ys: seq<T>)
    decreases |ys|
  {
    if xs == [] then true
    else if ys == [] then false
    else (xs[0] == ys[0] && IsSubsequence(xs[1..], ys[1..])) || IsSubsequence(xs, ys[1..])
  }

  /** Every pair's tag carries its release's tag name. */
  lemma {:induction false} ResolvedNamesMatch(releases: seq<Release>, pool: seq<Tag>)
    ensures forall k | 0 <= k < |Resolve(releases, pool)| ::
      Resolve(releases, pool)[k].tag.name == Resolve(releases, pool)[k].release.tagName
  {
    if releases != [] {
      match FindTag(pool, releases[0].tagName)
      case None =>
        ResolvedNamesMatch(releases[1..], pool);
      case Some(k) =>
        ResolvedNamesMatch(releases[1..], RemoveAt(pool, k));
    }
  }

  /** The tags of a list with one pair in front. */
  lemma TagsOfPrepend(pair: ReleaseAndTag, pairs: seq<ReleaseAndTag>)
    ensures TagsOf([pair] + pairs) == [pair.tag] + TagsOf(pairs)
  {
  }

  /** Tags are consumed: no fetched tag is used by more pairs than it occurs in the fetched list. */
  lemma {:induction false} ResolvedTagsFromPool(releases: seq<Release>, pool: seq<Tag>)
    ensures multiset(TagsOf(Resolve(releases, pool))) <= multiset(pool)
  {
    if releases != [] {
      match FindTag(pool, releases[0].tagName)
      case None =>
        ResolvedTagsFromPool(releases[1..], pool);
      case Some(k) =>
        var rest := Resolve(releases[1..], RemoveAt(pool, k));
        ResolvedTagsFromPool(releases[1..], RemoveAt(pool, k));
        TagsOfPrepend(ReleaseAndTag(releases[0], pool[k]), rest);
    }
  }

  /** The pairs list the releases in their fetched order, possibly with some left out. */
  lemma {:induction false} ResolvedKeepsReleaseOrder(releases: seq<Release>, pool: seq<Tag>)
    ensures IsSubsequence(ReleasesOf(Resolve(releases, pool)), releases)
  {
    if releases != [] {
      match FindTag(pool, releases[0].tagName)
      case None =>
        ResolvedKeepsReleaseOrder(releases[1..], pool);
      case Some(k) =>
        var rest := Resolve(releases[1..], RemoveAt(pool, k));
        ResolvedKeepsReleaseOrder(releases[1..], RemoveAt(pool, k));
        assert ReleasesOf(Resolve(releases, pool)) == [releases[0]] + ReleasesOf(rest);
        assert ReleasesOf(Resolve(releases, pool))[1..] == ReleasesOf(rest);
    }
  }

  /** A release whose name no fetched tag carries ends up in no pair. */
  lemma UntaggedReleaseDropped(releases: seq<Release>, pool: seq<Tag>, name: string)
    requires forall t | t in pool :: t.name != name
    ensures forall k | 0 <= k < |Resolve(releases, pool)| :: Resolve(releases, pool)[k].release.tagName != name
  {
    ResolvedNamesMatch(releases, pool);
    ResolvedTagsFromPool(releases, pool);
    var pairs := Resolve(releases, pool);
    forall k | 0 <= k < |pairs|
      ensures pairs[k].release.tagName != name
    {
      assert TagsOf(pairs)[k] == pairs[k].tag;
      assert pairs[k].tag in multiset(TagsOf(pairs));
    }
  }

  /** The check fails exactly when a fetch fails, a fetch is empty, or no tag carries the newest release's name. */
  lemma CheckFailsExactly(releases: Result<seq<Release>, Error>, tags: Result<seq<Tag>, Error>, version: Option<string>)
    ensures CheckReleases(releases, tags, version).CheckFailed? <==>
      || releases.Failure? || releases.value == []
      || tags.Failure? || tags.value == []
      || forall t | t in tags.value :: t.name != releases.value[0].tagName
  {
    if releases.Success? && releases.value != [] && tags.Success? && tags.value != [] {
      var name := releases.value[0].tagName;
      if FindTag(tags.value, name).None? {
        forall t | t in tags.value
          ensures t.name != name
        {
          var j :| 0 <= j < |tags.value| && tags.value[j] == t;
        }
      }
    }
  }

  /**
   * On success the newest release heads the list, and the selected index is
   * the last pair the installed build corresponds to, or 0 when there is none.
   */
  lemma ResolvedSelection(releases: Result<seq<Release>, Error>, tags: Result<seq<Tag>, Error>, version: Option<string>)
    requires CheckReleases(releases, tags, version).Resolved?
    ensures var r := CheckReleases(releases, tags, version);
      && |r.pairs| > 0 && r.pairs[0].release == releases.value[0]
      && r.pairs[0].tag.name == releases.value[0].tagName
      && r.index < |r.pairs|
    ensures || (IsInstalled(CheckReleases(releases, tags, version).pairs[CheckReleases(releases, tags, version).index], version.GetOr(""))
               && forall j | CheckReleases(releases, tags, version).index < j < |CheckReleases(releases, tags, version).pairs| ::
                    !IsInstalled(CheckReleases(releases, tags, version).pairs[j], version.GetOr("")))
            || (CheckReleases(releases, tags, version).index == 0
               && forall j | 0 <= j < |CheckReleases(releases, tags, version).pairs| ::
                    !IsInstalled(CheckReleases(releases, tags, version).pairs[j], version.GetOr("")))
  {
    ResolvedNamesMatch(releases.value, tags.value);
  }

  /** Without an installed version every pair matches, so the oldest pair is selected. */
  lemma {:induction false} MissingVersionSelectsOldest(releases: Result<seq<Release>, Error>, tags: Result<seq<Tag>, Error>)
    requires CheckReleases(releases, tags, None).Resolved?
    ensures CheckReleases(releases, tags, None).index == |CheckReleases(releases, tags, None).pairs| - 1
  {
    var pairs := CheckReleases(releases, tags, None).pairs;
    assert StartsWith(pairs[|pairs| - 1].tag.commit.sha, "");
  }

  // Which releases get a tag.

  /** How many tags of `ts` are named `n`. */
  function NameCount(ts: seq<Tag>, n: string): nat {
    if ts == [] then 0 else (if ts[0].name == n then 1 else 0) + NameCount(ts[1..], n)
  }

  /** How many of the first `i` releases are named `n`. */
  function NamedBefore(rs: seq<Release>, i: nat, n: string): nat
    requires i <= |rs|
  {
    if i == 0 then 0 else NamedBefore(rs, i - 1, n) + (if rs[i - 1].tagName == n then 1 else 0)
  }

  /**
   * Release `i` gets a tag exactly when fewer of the releases before it
   * share its name than there are tags of that name: each release takes
   * one tag of its name while any is left.
   */
  predicate Paired(rs: seq<Release>, ts: seq<Tag>, i: nat)
    requires i < |rs|
  {
    NamedBefore(rs, i, rs[i].tagName) < NameCount(ts, rs[i].tagName)
  }

  /** The releases from index `i` on that get a tag, in order. */
  function PairedFrom(rs: seq<Release>, ts: seq<Tag>, i: nat): seq<Release>
    requires i <= |rs|
    decreases |rs| - i
  {
    if i == |rs| then [] else (if Paired(rs, ts, i) then [rs[i]] else []) + PairedFrom(rs, ts, i + 1)
  }

  /** `a - b`, or 0 when `b` is larger. */
  function Monus(a: nat, b: nat): nat {
    if a >= b then a - b else 0
  }

  lemma {:induction false} NameCountConcat(a: seq<Tag>, b: seq<Tag>, n: string)
    ensures NameCount(a + b, n) == NameCount(a, n) + NameCount(b, n)
  {
    if a == [] {
      assert a + b == b;
    } else {
      assert (a + b)[0] == a[0];
      assert (a + b)[1..] == a[1..] + b;
      NameCountConcat(a[1..], b, n);
    }
  }

  /** Some tag has the name exactly when `position` finds one. */
  lemma {:induction false} NameCountFound(ts: seq<Tag>, n: string)
    ensures NameCount(ts, n) > 0 <==> FindTag(ts, n).Some?
  {
    if ts != [] {
      NameCountFound(ts[1..], n);
    }
  }

  /** Removing a tag takes one off its own name's count and leaves the others. */
  lemma RemoveAtCount(pool: seq<Tag>, k: nat, n: string)
    requires k < |pool|
    ensures NameCount(RemoveAt(pool, k), n) == NameCount(pool, n) - (if pool[k].name == n then 1 else 0)
  {
    assert pool == pool[..k] + ([pool[k]] + pool[k + 1..]);
    assert RemoveAt(pool, k) == pool[..k] + pool[k + 1..];
    NameCountConcat(pool[..k], [pool[k]] + pool[k + 1..], n);
    NameCountConcat([pool[k]], pool[k + 1..], n);
    NameCountConcat(pool[..k], pool[k + 1..], n);
    assert ([pool[k]] + pool[k + 1..])[1..] == pool[k + 1..];
  }

  /** The releases of a list with one pair in front. */
  lemma ReleasesOfPrepend(pair: ReleaseAndTag, pairs: seq<ReleaseAndTag>)
    ensures ReleasesOf([pair] + pairs) == [pair.release] + ReleasesOf(pairs)
  {
  }

  /**
   * From release `i` on, with a pool holding for every name the fetched
   * tags of that name not yet taken by the releases before `i`, the
   * pairing keeps exactly the releases `Paired` names.
   */
  lemma {:induction false} ResolveFromCounts(rs: seq<Release>, ts: seq<Tag>, pool: seq<Tag>, i: nat)
    requires i <= |rs|
    requires forall n :: NameCount(pool, n) == Monus(NameCount(ts, n), NamedBefore(rs, i, n))
    ensures ReleasesOf(Resolve(rs[i..], pool)) == PairedFrom(rs, ts, i)
    decreases |rs| - i
  {
    if i == |rs| {
      assert rs[i..] == [];
    } else {
      var m := rs[i].tagName;
      ResolveStep(rs, pool, i);
      NameCountFound(pool, m);
      match FindTag(pool, m)
      case None =>
        forall n ensures NameCount(pool, n) == Monus(NameCount(ts, n), NamedBefore(rs, i + 1, n)) {
        }
        ResolveFromCounts(rs, ts, pool, i + 1);
      case Some(k) =>
        forall n ensures NameCount(RemoveAt(pool, k), n) == Monus(NameCount(ts, n), NamedBefore(rs, i + 1, n)) {
          RemoveAtCount(pool, k, n);
        }
        ResolveFromCounts(rs, ts, RemoveAt(pool, k), i + 1);
        ReleasesOfPrepend(ReleaseAndTag(rs[i], pool[k]), Resolve(rs[i + 1..], RemoveAt(pool, k)));
    }
  }

  /**
   * The pairing drops a release only when every tag of its name was
   * already taken by earlier releases, and keeps all others in order.
   */
  lemma PairedReleasesExactly(rs: seq<Release>, ts: seq<Tag>)
    ensures ReleasesOf(Resolve(rs, ts)) == PairedFrom(rs, ts, 0)
  {
    assert rs[0..] == rs;
    ResolveFromCounts(rs, ts, ts, 0);
  }

  /** No release before `i` is named `n`. */
  lemma {:induction false} NoneNamedBefore(rs: seq<Release>, i: nat, n: string)
    requires i <= |rs| && forall j | 0 <= j < i :: rs[j].tagName != n
    ensures NamedBefore(rs, i, n) == 0
  {
    if i > 0 {
      NoneNamedBefore(rs, i - 1, n);
    }
  }

  /**
   * With release names all different, as release tags are, a release gets
   * a tag exactly when some fetched tag carries its name.
   */
  lemma DistinctReleasesPairedIffTagged(rs: seq<Release>, ts: seq<Tag>, i: nat)
    requires i < |rs|
    requires forall a, b | 0 <= a < b < |rs| :: rs[a].tagName != rs[b].tagName
    ensures Paired(rs, ts, i) <==> exists t | t in ts :: t.name == rs[i].tagName
  {
    NoneNamedBefore(rs, i, rs[i].tagName);
    NameCountFound(ts, rs[i].tagName);
    var f := FindTag(ts, rs[i].tagName);
    if f.Some? {
      assert ts[f.value] in ts;
    }
  }
}
