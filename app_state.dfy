/**
 * The state shared between the user interface and the update worker
 * (src/app_state.rs). `AppStateManager` holds one field per field of the
 * source's `AppState`; every method is one step taken under the source's
 * mutex, and its `modifies` frame names exactly the fields it assigns.
 */
module AppState {
  import opened Wrappers
  import opened GitHub

  /**
   * A progress fraction as the source computes it, `num as f32 / den as f32`,
   * kept unevaluated: the model never does the floating-point division, and
   * `den` may be 0 (a one-entry archive).
   */
  datatype Fraction = Ratio(num: nat, den: nat)

  datatype Progress = Indeterminate | Determinate(fraction: Fraction)

  datatype Submenu = NextUI

  /** The literal `0.0` that a determinate operation starts from. */
  const ZeroFraction := Ratio(0, 1)

  class AppStateManager {
    var submenu: Submenu
    var currentVersion: Option<string>
    var nextuiRelease: Option<Release>
    var nextuiTag: Option<Tag>
    var nextuiReleasesAndTags: Option<seq<ReleaseAndTag>>
    var nextuiReleasesAndTagsIndex: Option<nat>
    var releaseSelectionMenu: bool
    var currentOperation: Option<string>
    var progress: Option<Progress>
    var error: Option<string>
    var hint: Option<string>
    var shouldQuit: bool

    /** `AppStateManager::new`: nothing known yet, no operation, no error. */
    constructor ()
      ensures submenu == NextUI
      ensures currentVersion.None? && nextuiRelease.None? && nextuiTag.None?
      ensures nextuiReleasesAndTags.None? && nextuiReleasesAndTagsIndex.None?
      ensures !releaseSelectionMenu && !shouldQuit
      ensures currentOperation.None? && progress.None? && error.None? && hint.None?
    {
      submenu := NextUI;
      currentVersion := None;
      nextuiRelease := None;
      nextuiTag := None;
      nextuiReleasesAndTags := None;
      nextuiReleasesAndTagsIndex := None;
      releaseSelectionMenu := false;
      currentOperation := None;
      progress := None;
      error := None;
      hint := None;
      shouldQuit := false;
    }

    // Getters: each copies out one field and changes nothing.

    method Submenu() returns (s: Submenu)
      ensures s == submenu
    {
      s := submenu;
    }

    method ShouldQuit() returns (q: bool)
      ensures q == shouldQuit
    {
      q := shouldQuit;
    }

    method CurrentOperation() returns (op: Option<string>)
      ensures op == currentOperation
    {
      op := currentOperation;
    }

    method Progress() returns (p: Option<Progress>)
      ensures p == progress
    {
      p := progress;
    }

    method Error() returns (e: Option<string>)
      ensures e == error
    {
      e := error;
    }

    method Hint() returns (h: Option<string>)
      ensures h == hint
    {
      h := hint;
    }

    method CurrentVersion() returns (v: Option<string>)
      ensures v == currentVersion
    {
      v := currentVersion;
    }

    method NextuiRelease() returns (r: Option<Release>)
      ensures r == nextuiRelease
    {
      r := nextuiRelease;
    }

    method NextuiTag() returns (t: Option<Tag>)
      ensures t == nextuiTag
    {
      t := nextuiTag;
    }

    method NextuiReleasesAndTags() returns (l: Option<seq<ReleaseAndTag>>)
      ensures l == nextuiReleasesAndTags
    {
      l := nextuiReleasesAndTags;
    }

    method NextuiReleasesAndTagsIndex() returns (i: Option<nat>)
      ensures i == nextuiReleasesAndTagsIndex
    {
      i := nextuiReleasesAndTagsIndex;
    }

    method ReleaseSelectionMenu() returns (b: bool)
      ensures b == releaseSelectionMenu
    {
      b := releaseSelectionMenu;
    }

    // Setters: each assigns its own field and no other.

    method SetSubmenu(s: Submenu)
      modifies this`submenu
      ensures submenu == s
    {
      submenu := s;
    }

    method SetShouldQuit(q: bool)
      modifies this`shouldQuit
      ensures shouldQuit == q
    {
      shouldQuit := q;
    }

    method SetCurrentOperation(op: Option<string>)
      modifies this`currentOperation
      ensures currentOperation == op
    {
      currentOperation := op;
    }

    method SetProgress(p: Option<Progress>)
      modifies this`progress
      ensures progress == p
    {
      progress := p;
    }

    method SetError(e: Option<string>)
      modifies this`error
      ensures error == e
    {
      error := e;
    }

    method SetHint(h: Option<string>)
      modifies this`hint
      ensures hint == h
    {
      hint := h;
    }

    method SetCurrentVersion(v: Option<string>)
      modifies this`currentVersion
      ensures currentVersion == v
    {
      currentVersion := v;
    }

    method SetNextuiRelease(r: Option<Release>)
      modifies this`nextuiRelease
      ensures nextuiRelease == r
    {
      nextuiRelease := r;
    }

    method SetNextuiTag(t: Option<Tag>)
      modifies this`nextuiTag
      ensures nextuiTag == t
    {
      nextuiTag := t;
    }

    method SetNextuiReleasesAndTags(l: Option<seq<ReleaseAndTag>>)
      modifies this`nextuiReleasesAndTags
      ensures nextuiReleasesAndTags == l
    {
      nextuiReleasesAndTags := l;
    }

    method SetNextuiReleasesAndTagsIndex(i: Option<nat>)
      modifies this`nextuiReleasesAndTagsIndex
      ensures nextuiReleasesAndTagsIndex == i
    {
      nextuiReleasesAndTagsIndex := i;
    }

    method SetReleaseSelectionMenu(b: bool)
      modifies this`releaseSelectionMenu
      ensures releaseSelectionMenu == b
    {
      releaseSelectionMenu := b;
    }

    // Combined operations: several fields assigned in one locked step.

    /** An operation of unknown duration begins: label and spinner together. */
    method StartOperation(operation: string)
      modifies this`currentOperation, this`progress
      ensures currentOperation == Some(operation) && progress == Some(Indeterminate)
    {
      currentOperation := Some(operation);
      progress := Some(Indeterminate);
    }

    /** An operation with a progress bar begins at `0.0`. */
    method StartDeterminateOperation(operation: string)
      modifies this`currentOperation, this`progress
      ensures currentOperation == Some(operation) && progress == Some(Determinate(ZeroFraction))
    {
      currentOperation := Some(operation);
      progress := Some(Determinate(ZeroFraction));
    }

    /** Moves the progress bar; the label is left as it is. */
    method UpdateProgress(f: Fraction)
      modifies this`progress
      ensures progress == Some(Determinate(f))
    {
      progress := Some(Determinate(f));
    }

    /** Ends the operation; an error already shown stays shown. */
    method FinishOperation()
      modifies this`currentOperation, this`progress
      ensures currentOperation.None? && progress.None?
    {
      currentOperation := None;
      progress := None;
    }

    /** Ends the operation and shows `message` as the error. */
    method SetOperationFailed(message: string)
      modifies this`currentOperation, this`progress, this`error
      ensures currentOperation.None? && progress.None? && error == Some(message)
    {
      currentOperation := None;
      error := Some(message);
      progress := None;
    }

    method ClearError()
      modifies this`error
      ensures error.None?
    {
      error := None;
    }

    /** Switches to `s` and drops the hint of the screen being left. */
    method EnterSubmenu(s: Submenu)
      modifies this`submenu, this`hint
      ensures submenu == s && hint.None?
    {
      submenu := s;
      hint := None;
    }
  }
}
