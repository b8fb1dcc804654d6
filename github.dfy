/** The release-host records the updater decodes (src/github.rs). */
module GitHub {

  datatype Asset = Asset(name: string, url: string)

  datatype Release = Release(tagName: string, assets: seq<Asset>)

  datatype Commit = Commit(sha: string)

  datatype Tag = Tag(name: string, commit: Commit)

  /** A release paired with the tag of the same name. */
  datatype ReleaseAndTag = ReleaseAndTag(release: Release, tag: Tag)
}
