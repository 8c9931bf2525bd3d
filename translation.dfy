/** Translation of GitHub commits into the canonical `Commit` record. */
module Translation {
  import opened Results
  import opened Entities

  /** The author recorded for a commit that has no GitHub author. */
  const UnknownAuthor: string := "unknown"

  /** The file list of a commit, copied element by element in order. */
  function FilesChanged(files: seq<GHFile>): (r: seq<FileChanged>)
    ensures |r| == |files|
    ensures forall i :: 0 <= i < |files| ==>
      r[i].filename == files[i].fileName && r[i].linesChanged == files[i].linesChanged
  {
    if files == [] then []
    else [FileChanged(files[0].fileName, files[0].linesChanged)] + FilesChanged(files[1..])
  }

  /**
   * One GitHub commit as a `Commit`: the author's name (or the sentinel when
   * there is none), the changed files in order, and the commit date as the
   * record's timestamp. A commit whose details cannot be loaded fails.
   */
  function FromGHCommit(c: GHCommit): (r: Result<Commit, Error>)
    ensures r.Success? <==> c.GHCommit?
    ensures r.Failure? ==> r.error == CommitPullFailed
    ensures r.Success? ==> r.value.timestamp == c.commitDate
    ensures r.Success? && c.author.None? ==> r.value.author == UnknownAuthor
    ensures r.Success? && c.author.Some? ==> r.value.author == c.author.value.name
    ensures r.Success? ==> |r.value.filesChanged| == |c.files|
    ensures r.Success? ==> forall i :: 0 <= i < |c.files| ==>
      r.value.filesChanged[i] == FileChanged(c.files[i].fileName, c.files[i].linesChanged)
  {
    match c
    case Unloadable => Failure(CommitPullFailed)
    case GHCommit(date, author, files) =>
      var name := if author.Some? then author.value.name else UnknownAuthor;
      Success(Commit(name, FilesChanged(files), date))
  }

  /**
   * The drained commit list mapped through `FromGHCommit` in order; the first
   * commit that cannot be loaded aborts the whole translation.
   */
  function TranslateAll(raw: seq<GHCommit>): (r: Result<seq<Commit>, Error>)
    ensures r.Success? <==> forall i :: 0 <= i < |raw| ==> raw[i].GHCommit?
    ensures r.Failure? ==> r.error == CommitPullFailed
    ensures r.Success? ==> |r.value| == |raw|
    ensures r.Success? ==> forall i :: 0 <= i < |raw| ==> FromGHCommit(raw[i]) == Success(r.value[i])
  {
    if raw == [] then Success([])
    else
      match FromGHCommit(raw[0])
      case Failure(e) => Failure(e)
      case Success(c) =>
        match TranslateAll(raw[1..])
        case Failure(e) => Failure(e)
        case Success(rest) => Success([c] + rest)
  }
}
