/**
 * `download` (src/update/fetching.rs): read the response chunk by chunk
 * and, when the response announced its length, hand the share received so
 * far to the progress callback after every chunk. A read can fail after
 * some chunks were reported.
 */
module Download {
  import opened Wrappers
  import opened AppState
  import opened Extract

  /**
   * What a download gives: the package or the error that ended it, the
   * byte count received after each chunk read before it ended, and the
   * length the response announced (0 when it announced none).
   */
  datatype Fetched = Fetched(result: Result<Archive, Error>, received: seq<nat>, total: nat)

  /** The progress shown once the download ended, starting from `before`. */
  function ProgressAfterDownload(f: Fetched, before: Option<Progress>): Option<Progress> {
    if f.total == 0 || f.received == [] then before
    else Some(Determinate(Ratio(f.received[|f.received| - 1], f.total)))
  }

  /** The progress callback `|pr| app_state.update_progress(pr)`, called after each chunk. */
  method ReportChunks(st: AppStateManager, f: Fetched)
    modifies st`progress
    ensures st.progress == ProgressAfterDownload(f, old(st.progress))
  {
    for j := 0 to |f.received|
      invariant st.progress == ProgressAfterDownload(f.(received := f.received[..j]), old(st.progress))
    {
      if f.total > 0 {
        st.UpdateProgress(Ratio(f.received[j], f.total));
      }
    }
    assert f.received[..|f.received|] == f.received;
  }
}
