/** The start-up checks of Program.Main, run before any monitor exists. */
module Startup {

  datatype Startup = Refused(message: string) | Started

  function MissingPathMessage(repoPath: string): string {
    "Error: Repository path '" + repoPath + "' does not exist."
  }

  function NotRepositoryMessage(repoPath: string): string {
    "Error: '" + repoPath + "' is not a git repository."
  }

  /**
   * The repository directory must exist, and so must its `.git` subdirectory;
   * the first failing check prints its message and the monitor never starts.
   */
  function CheckRepository(repoPath: string, pathExists: bool, gitDirExists: bool): (r: Startup)
    ensures r.Started? <==> pathExists && gitDirExists
    ensures !pathExists ==> r == Refused(MissingPathMessage(repoPath))
    ensures pathExists && !gitDirExists ==> r == Refused(NotRepositoryMessage(repoPath))
  {
    if !pathExists then Refused(MissingPathMessage(repoPath))
    else if !gitDirExists then Refused(NotRepositoryMessage(repoPath))
    else Started
  }

  /** The two refusals are told apart by their messages, whatever the path. */
  lemma RefusalsDistinct(repoPath: string)
    ensures MissingPathMessage(repoPath) != NotRepositoryMessage(repoPath)
  {
    assert MissingPathMessage(repoPath)[7] == 'R';
    assert NotRepositoryMessage(repoPath)[7] == '\'';
  }
}
