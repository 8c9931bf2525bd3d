/**
 * The values the commit source consumes and produces.
 *
 * Timestamps (java.util.Date, java.time.Instant) are integers counting
 * milliseconds since the epoch.
 */
module Entities {
  import opened Results

  /** A GitHub user; only the display name is read. */
  datatype GHUser = GHUser(name: string)

  /** One file touched by a GitHub commit. */
  datatype GHFile = GHFile(fileName: string, linesChanged: int)

  /**
   * A commit as listed by the GitHub commit query. Its details are loaded
   * lazily from the remote API: `Unloadable` is a commit whose date, author or
   * file list cannot be loaded (the getters throw an IOException). A commit
   * without an attributable GitHub account has `author == None`.
   */
  datatype GHCommit =
    | GHCommit(commitDate: int, author: Option<GHUser>, files: seq<GHFile>)
    | Unloadable

  /** The canonical record for one changed file. */
  datatype FileChanged = FileChanged(filename: string, linesChanged: int)

  /** The canonical record the source emits for one commit. */
  datatype Commit = Commit(author: string, filesChanged: seq<FileChanged>, timestamp: int)

  /** The failures that end an iteration, or a restore, early. */
  datatype Error =
    | FetchFailed       // the commit query or its pagination fails
    | CommitPullFailed  // a listed commit's details cannot be loaded
    | NoStoredCursor    // a restored checkpoint list has no element 0
}
