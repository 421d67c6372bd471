/**
 * The repository gateway (GitManager) over an abstract repository.
 *
 * LibGit2Sharp is not modelled: a `Repository` object holds the state the
 * gateway looks at (the commits reachable from HEAD, whether an `origin`
 * remote exists, the head's tracked remote and canonical name) and a log of
 * the library operations issued.  What the library answers (the SHA a new
 * commit gets, whether a push or pull succeeds, the diff after a pull) is an
 * input.
 */
module Git {
  import opened Wrappers
  import opened Credentials
  import Crypto

  datatype Commit = Commit(sha: string, message: string)

  /** LibGit2Sharp's ChangeKind. */
  datatype ChangeKind =
    Unmodified | Added | Deleted | Modified | Renamed | Copied | Ignored | Untracked | TypeChanged | Unreadable | Conflicted

  /**
   * One entry of the tree diff between the old and the new tip, with what
   * File.ReadAllText returns for its path afterwards (None: it throws).
   */
  datatype Change = Change(path: string, status: ChangeKind, read: Option<string>)

  /** What Commands.Pull does: throw, or leave HEAD on `history` with `diff` between the old and new tip trees. */
  datatype PullResponse = PullFailed | Pulled(history: seq<Commit>, diff: seq<Change>)

  /** A library call the gateway issued, with the credentials its callback offers. */
  datatype GitOp =
    | Stage(path: string)
    | CommitNew(message: string)
    | CommitAmend(message: string)
    | Push(remote: string, refSpec: string, offered: Credentials)
    | Pull(offered: Credentials)

  /** The exceptions the gateway logs and rethrows. */
  datatype GitError = RepositoryNotFound | RemoteFailure | NullReference

  datatype Status = Ok | Failed(error: GitError)

  datatype Outcome<T> = Done(value: T) | Threw(error: GitError)

  const OriginName: string := "origin"
  const MasterRefSpec: string := "refs/heads/master"
  const ForceMessage: string := "Update clipboard content"

  /** The history after committing `c`: appended, or in place of the tip when amending. */
  function AfterCommit(history: seq<Commit>, c: Commit, amend: bool): seq<Commit> {
    if amend && history != [] then history[..|history| - 1] + [c] else history + [c]
  }

  /** The operations CommitAndPushAsync issues. */
  function CommitLog(filename: string, message: string, hasOrigin: bool, offered: Credentials): seq<GitOp> {
    [Stage(filename), CommitNew(message)] + (if hasOrigin then [Push(OriginName, MasterRefSpec, offered)] else [])
  }

  /** The operations CommitAndForcePushAsync issues. */
  function ForceCommitLog(filename: string, hadTip: bool, hasOrigin: bool, headName: string, offered: Credentials): seq<GitOp> {
    [Stage(filename), if hadTip then CommitAmend(ForceMessage) else CommitNew(ForceMessage)]
    + (if hasOrigin then [Push(OriginName, "+" + headName, offered)] else [])
  }

  predicate Pushes(ops: seq<GitOp>) {
    exists i :: 0 <= i < |ops| && ops[i].Push?
  }

  /** The repository at the configured path, as the library exposes it. */
  class Repository {
    /** Commits reachable from HEAD, oldest first; the last one is Head.Tip. */
    var history: seq<Commit>
    /** repo.Network.Remotes["origin"] != null */
    var hasOrigin: bool
    /** Head.RemoteName */
    var remoteName: Option<string>
    /** Head.CanonicalName */
    var headName: string
    /** The library operations issued so far. */
    var log: seq<GitOp>

    constructor (history: seq<Commit>, hasOrigin: bool, remoteName: Option<string>, headName: string)
      ensures this.history == history && this.hasOrigin == hasOrigin
      ensures this.remoteName == remoteName && this.headName == headName && log == []
    {
      this.history := history;
      this.hasOrigin := hasOrigin;
      this.remoteName := remoteName;
      this.headName := headName;
      log := [];
    }

    function Tip(): Option<Commit>
      reads this
    {
      if history == [] then None else Some(history[|history| - 1])
    }

    /** Commands.Stage */
    method StageFile(path: string)
      modifies this
      ensures log == old(log) + [Stage(path)]
      ensures history == old(history) && hasOrigin == old(hasOrigin)
      ensures remoteName == old(remoteName) && headName == old(headName)
    {
      log := log + [Stage(path)];
    }

    /** repo.Commit, with AmendPreviousCommit when `amend`; `sha` is the id the library gives the commit. */
    method CommitStaged(message: string, sha: string, amend: bool)
      modifies this
      ensures history == AfterCommit(old(history), Commit(sha, message), amend)
      ensures log == old(log) + [if amend then CommitAmend(message) else CommitNew(message)]
      ensures hasOrigin == old(hasOrigin) && remoteName == old(remoteName) && headName == old(headName)
    {
      history := AfterCommit(history, Commit(sha, message), amend);
      log := log + [if amend then CommitAmend(message) else CommitNew(message)];
    }

    /** repo.Network.Push; `ok` is whether the transport accepted it. */
    method PushTo(remote: string, refSpec: string, offered: Credentials, ok: bool) returns (s: Status)
      modifies this
      ensures log == old(log) + [Push(remote, refSpec, offered)]
      ensures s == if ok then Ok else Failed(RemoteFailure)
      ensures history == old(history) && hasOrigin == old(hasOrigin)
      ensures remoteName == old(remoteName) && headName == old(headName)
    {
      log := log + [Push(remote, refSpec, offered)];
      s := if ok then Ok else Failed(RemoteFailure);
    }

    /** Commands.Pull: fetch and merge from the tracked remote. */
    method PullFrom(offered: Credentials, response: PullResponse) returns (s: Status)
      modifies this
      ensures log == old(log) + [Pull(offered)]
      ensures history == if response.Pulled? then response.history else old(history)
      ensures s == if response.Pulled? then Ok else Failed(RemoteFailure)
      ensures hasOrigin == old(hasOrigin) && remoteName == old(remoteName) && headName == old(headName)
    {
      log := log + [Pull(offered)];
      if response.Pulled? {
        history := response.history;
        s := Ok;
      } else {
        s := Failed(RemoteFailure);
      }
    }
  }

  /** What a changed file contributes: its content, decrypted when a password is set, or None when it is skipped. */
  function Candidate(p: Crypto.Primitives, c: Change, encryptionPassword: string): Option<string> {
    if !(c.status == Added || c.status == Modified) then None
    else match c.read
      case None => None
      case Some(content) =>
        if encryptionPassword == "" then Some(content)
        else match Crypto.DecryptSpec(p, content, encryptionPassword)
          case Raised(_) => None
          case Returned(text) => Some(text)
  }

  /** The first change in diff order that contributes content. */
  function FirstQualifying(p: Crypto.Primitives, diff: seq<Change>, encryptionPassword: string): Option<string> {
    if diff == [] then None
    else if Candidate(p, diff[0], encryptionPassword).Some? then Candidate(p, diff[0], encryptionPassword)
    else FirstQualifying(p, diff[1..], encryptionPassword)
  }

  /** What PullChangesAsync returns once the pull has run, given the tip before it. */
  function PullResult(p: Crypto.Primitives, oldTip: Option<Commit>, response: PullResponse, encryptionPassword: string)
    : Outcome<Option<string>>
  {
    match response
    case PullFailed => Threw(RemoteFailure)
    case Pulled(history, diff) =>
      if oldTip.None? || history == [] then Threw(NullReference)   // oldTip.Sha or newTip.Sha on null
      else if oldTip.value.sha == history[|history| - 1].sha then Done(None)
      else Done(FirstQualifying(p, diff, encryptionPassword))
  }

  /**
   * PullResult with the tip comparison made null-safe (`oldTip?.Sha != newTip?.Sha`),
   * as the null-conditional `oldTip?.Tree` of the diff call expects.
   */
  function PullResultIntended(p: Crypto.Primitives, oldTip: Option<Commit>, response: PullResponse, encryptionPassword: string)
    : Outcome<Option<string>>
  {
    match response
    case PullFailed => Threw(RemoteFailure)
    case Pulled(history, diff) =>
      var oldSha := if oldTip.None? then None else Some(oldTip.value.sha);
      var newSha := if history == [] then None else Some(history[|history| - 1].sha);
      if oldSha == newSha then Done(None)
      else Done(FirstQualifying(p, diff, encryptionPassword))
  }

  /**
   * As written, a pull into a branch with no commits yet raises
   * NullReferenceException after the merge, so the content it brought is never
   * returned; the intended comparison returns it.
   */
  lemma UnbornTipPullRaises(p: Crypto.Primitives)
    ensures var response := Pulled([Commit("c1", "Add new clipboard content")], [Change("clip.txt", Added, Some("hello"))]);
            && PullResult(p, None, response, "") == Threw(NullReference)
            && PullResultIntended(p, None, response, "") == Done(Some("hello"))
  {
    var diff := [Change("clip.txt", Added, Some("hello"))];
    assert Candidate(p, diff[0], "") == Some("hello");
  }

  /**
   * The intended comparison never raises once the pull returned; it reports
   * the first qualifying change whenever the tip SHA moved (from none to some
   * included), and agrees with the code as written whenever both tips exist.
   */
  lemma PullResultIntendedProperties(p: Crypto.Primitives, oldTip: Option<Commit>, history: seq<Commit>,
                                     diff: seq<Change>, encryptionPassword: string)
    ensures var r := PullResultIntended(p, oldTip, Pulled(history, diff), encryptionPassword);
            && r.Done?
            && (oldTip.None? && history != [] ==> r == Done(FirstQualifying(p, diff, encryptionPassword)))
            && (oldTip.None? && history == [] ==> r == Done(None))
            && (oldTip.Some? && history != [] ==> r == PullResult(p, oldTip, Pulled(history, diff), encryptionPassword))
  {
    if oldTip.Some? && history != [] {
      assert (Some(oldTip.value.sha) == Some(history[|history| - 1].sha)) <==> (oldTip.value.sha == history[|history| - 1].sha);
    }
  }

  /**
   * The diff scan of PullChangesAsync: the `foreach` that skips other kinds,
   * skips a candidate whose read or decrypt throws, and returns the first content.
   */
  method SelectPulledContent(p: Crypto.Primitives, diff: seq<Change>, encryptionPassword: string)
    returns (content: Option<string>)
    ensures content == FirstQualifying(p, diff, encryptionPassword)
  {
    var i := 0;
    while i < |diff|
      invariant 0 <= i <= |diff|
      invariant FirstQualifying(p, diff, encryptionPassword) == FirstQualifying(p, diff[i..], encryptionPassword)
    {
      var change := diff[i];
      assert diff[i..][1..] == diff[i + 1..];
      i := i + 1;
      if !(change.status == Added || change.status == Modified) {
        continue;
      }
      if change.read.None? {
        continue;   // File.ReadAllText threw: logged by the outer catch
      }
      var text := change.read.value;
      if encryptionPassword != "" {
        var d := Crypto.EncryptionManager.Decrypt(p, text, encryptionPassword);
        if d.Raised? {
          continue;   // logged, then `continue`
        }
        text := d.text;
      }
      return Some(text);
    }
    return None;
  }

  /** The first changed file that contributes content decides the result; without one the result is None. */
  lemma {:induction false} FirstQualifyingIsFirst(p: Crypto.Primitives, diff: seq<Change>, encryptionPassword: string, j: nat)
    requires j < |diff| && Candidate(p, diff[j], encryptionPassword).Some?
    requires forall k :: 0 <= k < j ==> Candidate(p, diff[k], encryptionPassword).None?
    ensures FirstQualifying(p, diff, encryptionPassword) == Candidate(p, diff[j], encryptionPassword)
  {
    if j > 0 {
      assert forall k :: 0 <= k < j - 1 ==> diff[1..][k] == diff[k + 1];
      FirstQualifyingIsFirst(p, diff[1..], encryptionPassword, j - 1);
    }
  }

  lemma {:induction false} NoCandidateNoContent(p: Crypto.Primitives, diff: seq<Change>, encryptionPassword: string)
    requires forall k :: 0 <= k < |diff| ==> Candidate(p, diff[k], encryptionPassword).None?
    ensures FirstQualifying(p, diff, encryptionPassword) == None
  {
    if diff != [] {
      assert forall k :: 0 <= k < |diff| - 1 ==> diff[1..][k] == diff[k + 1];
      NoCandidateNoContent(p, diff[1..], encryptionPassword);
    }
  }

  /**
   * Only a raising Decrypt skips a file: an Added or Modified payload the
   * cipher rejects (a wrong password) decrypts to the sentinel string, which
   * is a candidate like any other and, at the first qualifying position of
   * the diff, is the pulled content.
   */
  lemma SentinelIsSurfaced(p: Crypto.Primitives, diff: seq<Change>, encryptionPassword: string, j: nat)
    requires j < |diff| && (diff[j].status == Added || diff[j].status == Modified)
    requires diff[j].read.Some? && encryptionPassword != ""
    requires Crypto.DecryptSpec(p, diff[j].read.value, encryptionPassword) == Crypto.Returned(Crypto.Sentinel)
    requires forall k :: 0 <= k < j ==> Candidate(p, diff[k], encryptionPassword).None?
    ensures Candidate(p, diff[j], encryptionPassword) == Some(Crypto.Sentinel)
    ensures FirstQualifying(p, diff, encryptionPassword) == Some(Crypto.Sentinel)
  {
    FirstQualifyingIsFirst(p, diff, encryptionPassword, j);
  }

  /** The pushes CommitAndPushAsync issues: one to `origin` exactly when it exists, always to refs/heads/master. */
  lemma CommitLogPushesOnlyWithOrigin(filename: string, message: string, hasOrigin: bool, offered: Credentials)
    ensures Pushes(CommitLog(filename, message, hasOrigin, offered)) <==> hasOrigin
    ensures forall op :: op in CommitLog(filename, message, hasOrigin, offered) && op.Push? ==>
              op == Push(OriginName, MasterRefSpec, offered)
    ensures CommitNew(message) in CommitLog(filename, message, hasOrigin, offered)
  {
    var ops := CommitLog(filename, message, hasOrigin, offered);
    if hasOrigin {
      assert ops[2].Push?;
    }
  }

  /** The forced variant: amend exactly when there was a tip, push `+<head>` exactly when `origin` exists. */
  lemma ForceCommitLogShape(filename: string, hadTip: bool, hasOrigin: bool, headName: string, offered: Credentials)
    ensures Pushes(ForceCommitLog(filename, hadTip, hasOrigin, headName, offered)) <==> hasOrigin
    ensures forall op :: op in ForceCommitLog(filename, hadTip, hasOrigin, headName, offered) && op.Push? ==>
              op == Push(OriginName, "+" + headName, offered)
    ensures CommitAmend(ForceMessage) in ForceCommitLog(filename, hadTip, hasOrigin, headName, offered) <==> hadTip
  {
    var ops := ForceCommitLog(filename, hadTip, hasOrigin, headName, offered);
    if hasOrigin {
      assert ops[2].Push?;
    }
  }

  /** Amending keeps the number of commits and replaces only the tip; a new commit extends the history. */
  lemma AfterCommitShape(history: seq<Commit>, c: Commit, amend: bool)
    ensures var h := AfterCommit(history, c, amend);
            && h != [] && h[|h| - 1] == c
            && (if amend && history != [] then |h| == |history| && h[..|h| - 1] == history[..|history| - 1]
                else h[..|h| - 1] == history)
  {
  }

  class GitManager {
    /** What `new Repository(_repoPath)` opens; null when the path is not a repository. */
    const repo: Repository?

    constructor (atPath: Repository?)
      ensures repo == atPath
    {
      repo := atPath;
    }

    /** GetCredentials of ClipGitter/GitManager.cs and src/ClipGitter/GitManager.cs: File.Exists first. */
    method GetCredentials(env: EnvFile) returns (c: Credentials)
      ensures c == CredentialsFrom(env)
      ensures !env.Readable? ==> c == Empty
    {
      c := Empty;
      if env.Missing? {
        return;   // warning: file not found
      }
      match env
      case Unreadable =>
        return;   // ReadAllLines threw: logged
      case Readable(lines) =>
        c := ParseLines(lines);
    }

    /** GetCredentials of Program.cs: no existence check; a missing file throws inside the try. */
    method GetCredentialsWithoutExistenceCheck(env: EnvFile) returns (c: Credentials)
      ensures c == CredentialsFrom(env)
      ensures !env.Readable? ==> c == Empty
    {
      c := Empty;
      if env.Readable? {
        c := ParseLines(env.lines);
      }
    }

    /** CommitAndPushAsync: stage, commit, push to refs/heads/master when `origin` exists. */
    method CommitAndPush(filename: string, message: string, env: EnvFile, newSha: string, pushOk: bool)
      returns (s: Status)
      modifies repo
      ensures repo == null ==> s == Failed(RepositoryNotFound)
      ensures repo != null ==>
        && repo.history == old(repo.history) + [Commit(newSha, message)]
        && repo.log == old(repo.log) + CommitLog(filename, message, old(repo.hasOrigin), CredentialsFrom(env))
        && repo.hasOrigin == old(repo.hasOrigin) && repo.remoteName == old(repo.remoteName)
        && repo.headName == old(repo.headName)
        && s == if repo.hasOrigin && !pushOk then Failed(RemoteFailure) else Ok
    {
      if repo == null {
        return Failed(RepositoryNotFound);
      }
      repo.StageFile(filename);
      repo.CommitStaged(message, newSha, false);
      s := Ok;
      if repo.hasOrigin {
        var offered := GetCredentials(env);
        s := repo.PushTo(OriginName, MasterRefSpec, offered, pushOk);
      }
    }

    /** CommitAndForcePushAsync: amend when there is a tip, then force-push `+<head>` when `origin` exists. */
    method CommitAndForcePush(filename: string, env: EnvFile, newSha: string, pushOk: bool) returns (s: Status)
      modifies repo
      ensures repo == null ==> s == Failed(RepositoryNotFound)
      ensures repo != null ==>
        && repo.history == AfterCommit(old(repo.history), Commit(newSha, ForceMessage), old(repo.Tip()).Some?)
        && repo.log == old(repo.log)
             + ForceCommitLog(filename, old(repo.Tip()).Some?, old(repo.hasOrigin), old(repo.headName), CredentialsFrom(env))
        && repo.hasOrigin == old(repo.hasOrigin) && repo.remoteName == old(repo.remoteName)
        && repo.headName == old(repo.headName)
        && s == if repo.hasOrigin && !pushOk then Failed(RemoteFailure) else Ok
    {
      if repo == null {
        return Failed(RepositoryNotFound);
      }
      repo.StageFile(filename);
      var message := ForceMessage;
      if repo.Tip().Some? {
        repo.CommitStaged(message, newSha, true);
      } else {
        repo.CommitStaged(message, newSha, false);
      }
      s := Ok;
      if repo.hasOrigin {
        var offered := GetCredentials(env);
        s := repo.PushTo(OriginName, "+" + repo.headName, offered, pushOk);
      }
    }

    /** PullChangesAsync of ClipGitter/GitManager.cs: pull, and when the tip moved return the first qualifying content. */
    method PullChanges(p: Crypto.Primitives, env: EnvFile, encryptionPassword: string, response: PullResponse)
      returns (r: Outcome<Option<string>>)
      modifies repo
      ensures repo == null ==> r == Threw(RepositoryNotFound)
      ensures repo != null && old(repo.remoteName).None? ==> r == Done(None) && unchanged(repo)
      ensures repo != null && old(repo.remoteName).Some? ==>
        && repo.log == old(repo.log) + [Pull(CredentialsFrom(env))]
        && repo.history == (if response.Pulled? then response.history else old(repo.history))
        && repo.hasOrigin == old(repo.hasOrigin) && repo.remoteName == old(repo.remoteName)
        && repo.headName == old(repo.headName)
        && r == PullResult(p, old(repo.Tip()), response, encryptionPassword)
    {
      if repo == null {
        return Threw(RepositoryNotFound);
      }
      if repo.remoteName.None? {
        return Done(None);
      }
      var oldTip := repo.Tip();
      var offered := GetCredentials(env);
      var s := repo.PullFrom(offered, response);
      if s.Failed? {
        return Threw(s.error);
      }
      var newTip := repo.Tip();
      if oldTip.None? || newTip.None? {
        return Threw(NullReference);
      }
      if oldTip.value.sha == newTip.value.sha {
        return Done(None);
      }
      var content := SelectPulledContent(p, response.diff, encryptionPassword);
      return Done(content);
    }

    /** PullChangesAsync of src/ClipGitter/GitManager.cs and Program.cs: pull when tracked, return nothing. */
    method PullWithoutContent(env: EnvFile, response: PullResponse) returns (s: Status)
      modifies repo
      ensures repo == null ==> s == Failed(RepositoryNotFound)
      ensures repo != null && old(repo.remoteName).None? ==> s == Ok && unchanged(repo)
      ensures repo != null && old(repo.remoteName).Some? ==>
        && repo.log == old(repo.log) + [Pull(CredentialsFrom(env))]
        && repo.history == (if response.Pulled? then response.history else old(repo.history))
        && repo.hasOrigin == old(repo.hasOrigin) && repo.remoteName == old(repo.remoteName)
        && repo.headName == old(repo.headName)
        && s == if response.Pulled? then Ok else Failed(RemoteFailure)
    {
      if repo == null {
        return Failed(RepositoryNotFound);
      }
      s := Ok;
      if repo.remoteName.Some? {
        var offered := GetCredentials(env);
        s := repo.PullFrom(offered, response);
      }
    }
  }

  /** Against a path that is not a repository, all three operations raise RepositoryNotFoundException. */
  method InvalidPathRaisesEverywhere(p: Crypto.Primitives, env: EnvFile, response: PullResponse)
    returns (pushed: Status, forced: Status, pulled: Outcome<Option<string>>)
    ensures pushed == Failed(RepositoryNotFound)
    ensures forced == Failed(RepositoryNotFound)
    ensures pulled == Threw(RepositoryNotFound)
  {
    var git := new GitManager(null);
    pushed := git.CommitAndPush("test.txt", "test message", env, "", true);
    forced := git.CommitAndForcePush("test.txt", env, "", true);
    pulled := git.PullChanges(p, env, "", response);
  }
}
