/**
 * Start-up (src/main.rs): read the installed NextUI build from the second
 * line of the card's version marker, and run the background task that
 * updates the updater itself before it looks up NextUI releases.
 */
module Startup {
  import opened Wrappers
  import opened Text
  import opened GitHub
  import opened AppState
  import opened FileSystem
  import opened ReleaseCheck
  import opened SelfUpdate

  /** A line without its terminator: a '\r' goes only when a '\n' followed it. */
  function StripCr(line: string): (r: string)
    ensures line == r || line == r + "\r"
    ensures line != r ==> |line| > 0 && line[|line| - 1] == '\r'
  {
    if |line| > 0 && line[|line| - 1] == '\r' then line[..|line| - 1] else line
  }

  /** `str::lines`: split after each '\n', drop "\n" or "\r\n", and yield no empty line after a final '\n'. */
  function Lines(s: string): (ls: seq<string>)
    ensures forall k | 0 <= k < |ls| :: '\n' !in ls[k]
    decreases |s|
  {
    if s == [] then []
    else match FirstIndex(s, '\n')
      case None => [s]
      case Some(i) => [StripCr(s[..i])] + Lines(s[i + 1..])
  }

  /** The marker file's text; a file that is missing or not text reads as empty (`unwrap_or_default`). */
  function MarkerText(file: Option<string>): string {
    file.GetOr("")
  }

  /** `lines().nth(1)`: the line at index 1, exactly as written. */
  function InstalledVersion(file: Option<string>): (v: Option<string>)
    ensures v.Some? ==> '\n' !in v.value
  {
    var ls := Lines(MarkerText(file));
    if |ls| >= 2 then Some(ls[1]) else None
  }

  /** Number of '\n' in `s`. */
  function Newlines(s: string): nat {
    multiset(s)['\n']
  }

  /** The '\n's of a text are its first one plus those after it. */
  lemma NewlinesAfterFirst(s: string, i: nat)
    requires FirstIndex(s, '\n') == Some(i)
    ensures Newlines(s) == Newlines(s[i + 1..]) + 1
  {
    assert s == s[..i] + ['\n'] + s[i + 1..];
    assert '\n' !in multiset(s[..i]) by {
      forall j | 0 <= j < i ensures s[..i][j] != '\n' { }
    }
    assert multiset(s) == multiset(s[..i]) + multiset{'\n'} + multiset(s[i + 1..]);
  }

  /** A text has one line per '\n', plus one for an unterminated last line. */
  lemma {:induction false} LineCount(s: string)
    ensures |Lines(s)| == Newlines(s) + (if s != [] && s[|s| - 1] != '\n' then 1 else 0)
    decreases |s|
  {
    if s != [] {
      match FirstIndex(s, '\n')
      case None =>
        assert '\n' !in multiset(s);
      case Some(i) =>
        LineCount(s[i + 1..]);
        NewlinesAfterFirst(s, i);
        if i + 1 < |s| {
          assert s[i + 1..][|s[i + 1..]| - 1] == s[|s| - 1];
        }
    }
  }

  /** The first line of `a + "\n" + rest` is `a` without a '\r' end, and the other lines are those of `rest`. */
  lemma SplitFirstLine(a: string, rest: string)
    requires '\n' !in a
    ensures Lines(a + "\n" + rest) == [StripCr(a)] + Lines(rest)
  {
    var s := a + "\n" + rest;
    assert s[|a|] == '\n';
    assert forall j | 0 <= j < |a| :: s[j] == a[j];
    assert FirstIndex(s, '\n') == Some(|a|);
    assert s[..|a|] == a && s[|a| + 1..] == rest;
  }

  /** The last line of a text whose rest holds no '\n' is that rest, kept as written. */
  lemma LastLine(b: string)
    requires b != [] && '\n' !in b
    ensures Lines(b) == [b]
  {
  }

  /**
   * The version is the second line exactly as written, spaces and all: only
   * its line terminator goes.
   */
  lemma SecondLineVerbatim(a: string, b: string, rest: string)
    requires '\n' !in a && '\n' !in b
    ensures InstalledVersion(Some(a + "\n" + b + "\n" + rest)) == Some(StripCr(b))
    ensures b != [] && b[|b| - 1] != '\r' ==> InstalledVersion(Some(a + "\n" + b + "\n" + rest)) == Some(b)
  {
    SplitFirstLine(a, b + "\n" + rest);
    assert a + "\n" + b + "\n" + rest == a + "\n" + (b + "\n" + rest);
    SplitFirstLine(b, rest);
  }

  /** A second line that ends the text without a terminator is kept as written too. */
  lemma UnterminatedSecondLine(a: string, b: string)
    requires '\n' !in a && '\n' !in b && b != []
    ensures InstalledVersion(Some(a + "\n" + b)) == Some(b)
  {
    SplitFirstLine(a, b);
    LastLine(b);
  }

  /** A Windows line ending "\r\n" is removed whole. */
  lemma CrlfSecondLine(a: string, b: string, rest: string)
    requires '\n' !in a && '\n' !in b
    ensures InstalledVersion(Some(a + "\r\n" + b + "\r\n" + rest)) == Some(b)
  {
    assert a + "\r\n" + b + "\r\n" + rest == (a + "\r") + "\n" + (b + "\r") + "\n" + rest;
    SecondLineVerbatim(a + "\r", b + "\r", rest);
    assert StripCr(b + "\r") == b;
  }

  /** A missing marker gives no version. */
  lemma MissingMarkerNoVersion()
    ensures InstalledVersion(None) == None
  {
  }

  /** A marker with fewer than two lines gives no version, whether or not its one line is terminated. */
  lemma {:induction false} SingleLineNoVersion(a: string)
    requires '\n' !in a
    ensures InstalledVersion(Some(a)) == None
    ensures InstalledVersion(Some(a + "\n")) == None
  {
    SplitFirstLine(a, "");
    assert a + "\n" + "" == a + "\n";
    if a != [] {
      LastLine(a);
    }
  }

  /**
   * `main` and its background task: a fresh shared state, the installed
   * version read from the marker, then the self-update, then (unless the
   * self-update ended the process) the release check.
   */
  method Launch(
    card: SdCard, marker: Option<string>, updater: Sources,
    releases: Result<seq<Release>, Error>, tags: Result<seq<Tag>, Error>
  ) returns (st: AppStateManager, end: SelfUpdateEnd)
    requires UpdateAvailable(updater) ==> |updater.latest.value.assets| > 0
    modifies card
    ensures fresh(st)
    ensures st.currentVersion == InstalledVersion(marker)
    ensures end == SelfUpdatePlan(updater, old(card.View())).end
    ensures card.View() == SelfUpdatePlan(updater, old(card.View())).disk
    ensures end.Exited? ==>
      && st.nextuiRelease.None? && st.nextuiTag.None?
      && st.nextuiReleasesAndTags.None? && st.nextuiReleasesAndTagsIndex.None?
      && st.currentOperation == Some(Restarting) && st.error.None?
    ensures end.Returned? ==>
      && st.currentOperation.None? && st.progress.None?
      && match CheckReleases(releases, tags, InstalledVersion(marker))
        case CheckFailed(message) =>
          && st.error == Some(message)
          && st.nextuiRelease.None? && st.nextuiTag.None?
          && st.nextuiReleasesAndTags.None? && st.nextuiReleasesAndTagsIndex.None?
        case Resolved(pairs, index) =>
          && st.error == (if end.result.Fail? then Some("Self-update failed: " + end.result.error) else None)
          && st.nextuiRelease == Some(pairs[0].release) && st.nextuiTag == Some(pairs[0].tag)
          && st.nextuiReleasesAndTags == Some(pairs)
          && st.nextuiReleasesAndTagsIndex == Some(index)
  {
    st := new AppStateManager();
    st.SetCurrentVersion(InstalledVersion(marker));
    end := DoSelfUpdate(st, card, updater);
    if end.Exited? {
      return;
    }
    DoNextuiReleaseCheck(st, releases, tags);
  }
}
