/**
 * One iteration of each polling loop of ClipboardMonitor, and its Dispose.
 *
 * The two loops run concurrently in the program; here each iteration is one
 * method call, and what the clipboard, the clock, the file system and the
 * repository answer during it is an input.
 */
module Monitor {
  import opened Wrappers
  import opened Credentials
  import opened Git
  import opened FileNames

  const HistoryMessage: string := "Add new clipboard content"
  const ForceFileName: string := "clip.txt"
  const ClipboardDelayMs: int := 1000
  const RetryDelayMs: int := 5000

  /** src/ClipGitter/Options.cs */
  datatype Options = Options(
    repoPath: string, pollInterval: int, noHistory: bool, envFilePath: string,
    singleFile: bool, encryptionPassword: string)

  /** The Options class of Program.cs: `HistoryMode` is a nullable flag. */
  datatype ProgramOptions = ProgramOptions(
    repoPath: string, pollInterval: int, historyMode: Option<bool>, envFilePath: string)

  /** What `_clipboard.GetTextAsync()` gives: a possibly null string, or an exception. */
  datatype ClipRead = Text(text: Option<string>) | ReadFailed

  /** How one loop iteration ends: wait this long and go round again, or leave the loop. */
  datatype Iteration = Continue(delayMs: int) | Exit

  /** What the world answers during one clipboard-loop iteration. */
  datatype ClipboardTick = ClipboardTick(
    read: ClipRead, now: DateTime, writeOk: bool, env: EnvFile, newSha: string, pushOk: bool)

  /** What the world answers during one pull-loop iteration. */
  datatype PollTick = PollTick(env: EnvFile, response: PullResponse)

  /** Calls made on the CancellationTokenSource. */
  datatype CtsCall = Cancel | DisposeSource

  /** The change test: a non-empty read that differs from the last content seen. */
  predicate IsChange(last: Option<string>, read: Option<string>) {
    read.Some? && read.value != "" && read != last
  }

  /** `_lastClipboardContent` after a successful read. */
  function NextLast(last: Option<string>, read: Option<string>): Option<string> {
    if IsChange(last, read) then read else last
  }

  /** The file a detected change is written to. */
  function TargetFile(historyMode: bool, now: DateTime): string {
    if historyMode then HistoryFileName(now) else ForceFileName
  }

  /** The library calls a save issues once its file is written. */
  function SaveOps(historyMode: bool, now: DateTime, hadTip: bool, hasOrigin: bool, headName: string, offered: Credentials)
    : seq<GitOp>
  {
    if historyMode then CommitLog(HistoryFileName(now), HistoryMessage, hasOrigin, offered)
    else ForceCommitLog(ForceFileName, hadTip, hasOrigin, headName, offered)
  }

  /** The commits after a save. */
  function SaveHistory(historyMode: bool, history: seq<Commit>, sha: string): seq<Commit> {
    if historyMode then history + [Commit(sha, HistoryMessage)]
    else AfterCommit(history, Commit(sha, ForceMessage), history != [])
  }

  /** The delay after a pull-loop iteration whose pull ended with `pulled`. */
  function PollDelay(pulled: Status, pollIntervalSeconds: int): int {
    if pulled.Failed? then RetryDelayMs
    else if pollIntervalSeconds < 0 then RetryDelayMs   // Task.Delay throws on a negative TimeSpan
    else pollIntervalSeconds * 1000
  }

  /** The files the monitor writes, under the repository path. */
  class WorkingDirectory {
    var files: map<string, string>

    constructor (files: map<string, string>)
      ensures this.files == files
    {
      this.files := files;
    }
  }

  class ClipboardMonitor {
    const git: GitManager
    const dir: WorkingDirectory
    const historyMode: bool
    const pollIntervalSeconds: int
    var lastClipboardContent: Option<string>
    var disposed: bool
    var ctsCalls: seq<CtsCall>

    /** The token source is cancelled and disposed together, at most once, exactly when the monitor is disposed. */
    ghost predicate Valid()
      reads this
    {
      ctsCalls == if disposed then [Cancel, DisposeSource] else []
    }

    predicate CancellationRequested()
      reads this
    {
      Cancel in ctsCalls
    }

    /** The monitor of src/ClipGitter/ClipboardMonitor.cs: history mode is `!NoHistory`. */
    constructor (git: GitManager, dir: WorkingDirectory, options: Options)
      ensures Valid() && !disposed && lastClipboardContent == None
      ensures this.git == git && this.dir == dir
      ensures historyMode == !options.noHistory && pollIntervalSeconds == options.pollInterval
    {
      this.git := git;
      this.dir := dir;
      historyMode := !options.noHistory;
      pollIntervalSeconds := options.pollInterval;
      lastClipboardContent := None;
      disposed := false;
      ctsCalls := [];
    }

    /** The monitor of Program.cs: history mode is `HistoryMode ?? true`. */
    constructor FromProgramOptions(git: GitManager, dir: WorkingDirectory, options: ProgramOptions)
      ensures Valid() && !disposed && lastClipboardContent == None
      ensures this.git == git && this.dir == dir
      ensures historyMode == options.historyMode.GetOr(true) && pollIntervalSeconds == options.pollInterval
    {
      this.git := git;
      this.dir := dir;
      historyMode := options.historyMode.GetOr(true);
      pollIntervalSeconds := options.pollInterval;
      lastClipboardContent := None;
      disposed := false;
      ctsCalls := [];
    }

    /** SaveClipboardContentAsync: write the file of the policy, then commit it; every error is logged and swallowed. */
    method SaveClipboardContent(content: string, t: ClipboardTick)
      modifies dir, git.repo
      ensures dir.files == if t.writeOk then old(dir.files)[TargetFile(historyMode, t.now) := content] else old(dir.files)
      ensures git.repo != null ==>
        && git.repo.log == old(git.repo.log) +
             (if t.writeOk
              then SaveOps(historyMode, t.now, old(git.repo.Tip()).Some?, old(git.repo.hasOrigin),
                           old(git.repo.headName), CredentialsFrom(t.env))
              else [])
        && git.repo.history == (if t.writeOk then SaveHistory(historyMode, old(git.repo.history), t.newSha)
                                else old(git.repo.history))
        && git.repo.hasOrigin == old(git.repo.hasOrigin) && git.repo.remoteName == old(git.repo.remoteName)
        && git.repo.headName == old(git.repo.headName)
    {
      if historyMode {
        var filename := HistoryFileName(t.now);
        if !t.writeOk {
          return;   // File.WriteAllTextAsync threw
        }
        dir.files := dir.files[filename := content];
        var _ := git.CommitAndPush(filename, HistoryMessage, t.env, t.newSha, t.pushOk);
      } else {
        var filename := ForceFileName;
        if !t.writeOk {
          return;
        }
        dir.files := dir.files[filename := content];
        var _ := git.CommitAndForcePush(filename, t.env, t.newSha, t.pushOk);
      }
    }

    /** One iteration of MonitorClipboardAsync, guard included. */
    method ClipboardIteration(t: ClipboardTick) returns (it: Iteration)
      requires Valid()
      modifies this, dir, git.repo
      ensures Valid() && disposed == old(disposed) && ctsCalls == old(ctsCalls)
      ensures old(CancellationRequested()) ==>
        it == Exit && lastClipboardContent == old(lastClipboardContent) && unchanged(dir)
        && (git.repo != null ==> unchanged(git.repo))
      ensures !old(CancellationRequested()) && t.read.ReadFailed? ==>
        it == Continue(RetryDelayMs) && lastClipboardContent == old(lastClipboardContent) && unchanged(dir)
        && (git.repo != null ==> unchanged(git.repo))
      ensures !old(CancellationRequested()) && t.read.Text? ==>
        && it == Continue(ClipboardDelayMs)
        && lastClipboardContent == NextLast(old(lastClipboardContent), t.read.text)
        && (!IsChange(old(lastClipboardContent), t.read.text) ==>
              unchanged(dir) && (git.repo != null ==> unchanged(git.repo)))
        && (IsChange(old(lastClipboardContent), t.read.text) ==>
              && dir.files == (if t.writeOk then old(dir.files)[TargetFile(historyMode, t.now) := t.read.text.value]
                               else old(dir.files))
              && (git.repo != null ==>
                    && git.repo.log == old(git.repo.log) +
                         (if t.writeOk
                          then SaveOps(historyMode, t.now, old(git.repo.Tip()).Some?, old(git.repo.hasOrigin),
                                       old(git.repo.headName), CredentialsFrom(t.env))
                          else [])
                    && git.repo.history == (if t.writeOk then SaveHistory(historyMode, old(git.repo.history), t.newSha)
                                            else old(git.repo.history))
                    && git.repo.hasOrigin == old(git.repo.hasOrigin)
                    && git.repo.remoteName == old(git.repo.remoteName)
                    && git.repo.headName == old(git.repo.headName)))
    {
      if CancellationRequested() {
        return Exit;
      }
      match t.read
      case ReadFailed =>
        it := Continue(RetryDelayMs);   // logged, then Task.Delay(5000)
      case Text(text) =>
        if IsChange(lastClipboardContent, text) {
          lastClipboardContent := text;
          SaveClipboardContent(text.value, t);
        }
        it := Continue(ClipboardDelayMs);
    }

    /** One iteration of PollGitChangesAsync, guard included. */
    method PollIteration(t: PollTick) returns (it: Iteration)
      modifies git.repo
      ensures old(CancellationRequested()) ==> it == Exit && (git.repo != null ==> unchanged(git.repo))
      ensures !old(CancellationRequested()) && git.repo == null ==> it == Continue(RetryDelayMs)
      ensures !old(CancellationRequested()) && git.repo != null && old(git.repo.remoteName).None? ==>
        it == Continue(PollDelay(Ok, pollIntervalSeconds)) && unchanged(git.repo)
      ensures !old(CancellationRequested()) && git.repo != null && old(git.repo.remoteName).Some? ==>
        && it == Continue(PollDelay(if t.response.Pulled? then Ok else Failed(RemoteFailure), pollIntervalSeconds))
        && git.repo.log == old(git.repo.log) + [Pull(CredentialsFrom(t.env))]
        && git.repo.history == (if t.response.Pulled? then t.response.history else old(git.repo.history))
        && git.repo.hasOrigin == old(git.repo.hasOrigin) && git.repo.remoteName == old(git.repo.remoteName)
        && git.repo.headName == old(git.repo.headName)
    {
      if CancellationRequested() {
        return Exit;
      }
      var pulled := git.PullWithoutContent(t.env, t.response);
      it := Continue(PollDelay(pulled, pollIntervalSeconds));
    }

    /** Dispose: cancel and dispose the token source the first time only. */
    method Dispose()
      requires Valid()
      modifies this
      ensures Valid() && disposed && CancellationRequested()
      ensures ctsCalls == if old(disposed) then old(ctsCalls) else old(ctsCalls) + [Cancel, DisposeSource]
      ensures lastClipboardContent == old(lastClipboardContent)
    {
      if !disposed {
        ctsCalls := ctsCalls + [Cancel];
        ctsCalls := ctsCalls + [DisposeSource];
        disposed := true;
      }
    }
  }

  /** A save issues exactly one policy: the history commit or the forced commit, never both. */
  lemma {:induction false} OnePolicyPerSave(historyMode: bool, now: DateTime, hadTip: bool, hasOrigin: bool,
                                            headName: string, offered: Credentials)
    ensures var ops := SaveOps(historyMode, now, hadTip, hasOrigin, headName, offered);
            && (CommitNew(HistoryMessage) in ops <==> historyMode)
            && ((CommitNew(ForceMessage) in ops || CommitAmend(ForceMessage) in ops) <==> !historyMode)
            && (Stage(HistoryFileName(now)) in ops <==> historyMode)
            && (Stage(ForceFileName) in ops <==> !historyMode)
  {
    var ops := SaveOps(historyMode, now, hadTip, hasOrigin, headName, offered);
    HistoryFileNameShape(now);
    assert HistoryFileName(now) != ForceFileName by {
      assert |HistoryFileName(now)| == 29 != |ForceFileName|;
    }
    assert HistoryMessage != ForceMessage by {
      assert HistoryMessage[0] == 'A' != ForceMessage[0];
    }
    if historyMode {
      assert ops[0] == Stage(HistoryFileName(now)) && ops[1] == CommitNew(HistoryMessage);
    } else {
      assert ops[0] == Stage(ForceFileName);
      assert ops[1] == CommitNew(ForceMessage) || ops[1] == CommitAmend(ForceMessage);
    }
    assert forall i :: 2 <= i < |ops| ==> ops[i].Push?;
  }

  /**
   * The last content is recorded before the save, so a failed save is not
   * retried: reading the same text again is never a change.  An empty or
   * null read never overwrites the last content.
   */
  lemma NoRetryOfSameText(last: Option<string>, read: Option<string>)
    ensures !IsChange(NextLast(last, read), read)
    ensures read.None? || read == Some("") ==> NextLast(last, read) == last
    ensures NextLast(last, read) != last ==> NextLast(last, read) == read && read.value != ""
  {
  }

  /** Pull-loop delays: PollInterval seconds after a pull that returned, 5000 ms after one that threw. */
  lemma PollDelayChoice(pulled: Status, pollIntervalSeconds: int)
    ensures pulled.Failed? ==> PollDelay(pulled, pollIntervalSeconds) == RetryDelayMs
    ensures pulled == Ok && pollIntervalSeconds >= 0 ==> PollDelay(pulled, pollIntervalSeconds) == 1000 * pollIntervalSeconds
    ensures PollDelay(pulled, pollIntervalSeconds) >= 0
  {
  }

  /**
   * A history-mode monitor over a repository with `origin` that reads "hello"
   * for the first time writes one `clipboard_<stamp>.txt` holding it, commits
   * it as "Add new clipboard content" and pushes to refs/heads/master.
   */
  method HistoryModeScenario(now: DateTime, env: EnvFile, sha: string)
    returns (it: Iteration, files: map<string, string>, ops: seq<GitOp>)
    ensures it == Continue(ClipboardDelayMs)
    ensures files == map[HistoryFileName(now) := "hello"]
    ensures ops == [Stage(HistoryFileName(now)), CommitNew(HistoryMessage),
                    Push(OriginName, MasterRefSpec, CredentialsFrom(env))]
  {
    var repo := new Repository([], true, Some(OriginName), "refs/heads/master");
    var git := new GitManager(repo);
    var dir := new WorkingDirectory(map[]);
    var monitor := new ClipboardMonitor(git, dir, Options("repo", 30, false, ".env", false, ""));
    it := monitor.ClipboardIteration(ClipboardTick(Text(Some("hello")), now, true, env, sha, true));
    files := dir.files;
    ops := repo.log;
  }
}
