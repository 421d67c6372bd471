# ClipGitter synchronisation core, modelled in Dafny

ClipGitter mirrors the text on a local clipboard into a git repository and pulls
remote changes back. This project models the logic under the library calls:

- `encryption.dfy` (module `Crypto`) covers the payload framing of
  `EncryptionManager`. `Encrypt` packs `salt(16) ++ ciphertext ++ iv(16)` into
  one array with three `Array.Copy` calls and base64-encodes it. `Decrypt`
  splits the buffer again. The model also pins down where `Decrypt` raises and
  where it returns the fixed sentinel string. The salt is the class-wide
  `_salt`: the constructor of `EncryptionManager` plays the static constructor.
- `credentials.dfy` (module `Credentials`) covers the env-file parser of
  `GetCredentials`: the last `USERNAME=` and `PASSWORD=` lines win, and a
  missing or unreadable file gives empty values.
- `git.dfy` (module `Git`) covers the decisions of `GitManager` over an abstract
  `Repository`. That object holds the commits reachable from HEAD, whether
  `origin` exists, the head's tracked remote and canonical name, and a log of
  the library calls issued. The module covers commit versus amend, push only
  with `origin`, and the fixed messages and refspecs. It also covers the pull
  guard and the first-qualifying-change scan of the diff.
- `filenames.dfy` (module `FileNames`) covers the history file name
  `clipboard_<yyyyMMdd_HHmmss>.txt`.
- `monitor.dfy` (module `Monitor`) covers `ClipboardMonitor` as a class. It has
  one method per loop iteration, the save policy dispatch and an idempotent
  `Dispose`.
- `startup.dfy` (module `Startup`) covers the repository path checks of
  `Program.Main`.
- `wrappers.dfy` holds `Option`.

The repository has three copies of the gateway: `ClipGitter/GitManager.cs`,
`src/ClipGitter/GitManager.cs` and the one in `Program.cs`. Their commit
logic is the same, so one `GitManager` class models it.

- The credential parser has two variants. `GetCredentials` checks
  `File.Exists` first. `GetCredentialsWithoutExistenceCheck` is the `Program.cs`
  copy. Both are proved to return `CredentialsFrom(env)`, so the variants agree.
- The pull has two variants. `PullChanges` returns content and comes from
  `ClipGitter/GitManager.cs`. `PullWithoutContent` comes from the other two
  copies.

There are two monitor copies: `src/ClipGitter/ClipboardMonitor.cs` and the one
in `Program.cs`. They differ only in how history mode is derived, so the one
class has two constructors.

Library code enters the model as parameters or inputs:

- The cipher, PBKDF2, base64 (section 4 of RFC 4648) and the UTF-8 stream
  wrappers are fields of a `Primitives` value. `Base64Law` says decoding
  inverts encoding; the framing lemmas need only that. `CipherLaw` says that
  decryption under the same key and IV returns what the `StreamReader` makes of
  the text the `StreamWriter` wrote. The writer emits UTF-8 without a
  byte-order mark, but the reader detects one, so a text that starts with
  U+FEFF comes back without it (`ReadBack`).
- Randomness (the salt and the IV) is a `Block16` argument.
- What the clipboard, the clock, the env file, the file system and LibGit2Sharp
  answer during one step is an input. This includes the SHA a new commit gets,
  whether a push is accepted, and the history and diff after a pull.

Some behaviours of the code are easy to mistake:

- **Byte layout.** The layout is salt, then ciphertext, then IV.
- **Salt reuse.** One salt is drawn per process and shared by every payload;
  only the IV is fresh.
- **Decrypt errors.** Invalid base64, or a decoded buffer shorter than 16 bytes,
  raises. Only the later failures return the sentinel.
- **No encryption in the monitor.** Neither monitor encrypts before saving.
- **No pulled content.** Neither monitor copy receives pulled content: their
  `PullChangesAsync` returns nothing.

## Model

| member | source | states |
|---|---|---|
| `Crypto.CopyInto` | ClipGitter/EncryptionManager.cs:36-38 | Array.Copy into a range: the range holds the source bytes, every other element is unchanged |
| `Crypto.EncryptionManager.constructor` | ClipGitter/EncryptionManager.cs:8-13 | the static constructor fixes the class-wide salt to the 16 bytes the generator drew |
| `Crypto.EncryptionManager.Encrypt` | ClipGitter/EncryptionManager.cs:15-43 | the payload is base64 of `_salt ++ AES(key(password, _salt, 10000, 32), iv, text) ++ iv` for the fresh IV |
| `Crypto.EncryptionManager.Decrypt` | ClipGitter/EncryptionManager.cs:45-79 | salt = first 16 bytes, IV = last 16, ciphertext = offset 16, length len-32. Raises exactly on invalid base64 (FormatException) or under 16 bytes; otherwise returns the plaintext or the sentinel |
| `Crypto.PayloadLayout` | ClipGitter/EncryptionManager.cs:35-38 | the decoded payload has length 16 + len(ct) + 16, with the salt in [0,16), the ciphertext in [16, 16 + len(ct)) and the IV in the last 16 bytes |
| `Crypto.DecryptKeyIsEncryptKey` | ClipGitter/EncryptionManager.cs:50-52 | the key Decrypt derives from an Encrypt payload equals the key Encrypt used (same salt, 10000 iterations, 32 bytes) |
| `Crypto.RoundTrip` | ClipGitter.Tests/EncryptionManagerTests.cs:9-21 | Decrypt(Encrypt(t, pw), pw) returns t when t does not start with U+FEFF, and t without its first character when it does (the reader drops the byte-order mark) |
| `Crypto.EncryptThenDecrypt` | ClipGitter.Tests/EncryptionManagerTests.cs:16-20 | the same round trip through the two methods themselves, including the loss of a leading U+FEFF |
| `Crypto.WrongPasswordNeverRaises` | ClipGitter/EncryptionManager.cs:45-79 | decrypting a payload of Encrypt under any password, right or wrong, returns a string and never raises |
| `Crypto.SharedSaltFreshIv` | ClipGitter/EncryptionManager.cs:19-21 | all payloads of one process share their first 16 bytes (the salt); payloads with different IVs differ |
| `Crypto.SentinelOnCipherFailure` | ClipGitter/EncryptionManager.cs:61-77 | a decoded buffer of 16-31 bytes, or a middle span the cipher rejects, yields exactly "Decryption failed. Please provide the correct password." |
| `Credentials.PrefixesExclusive` | ClipGitter/GitManager.cs:34-41 | no line starts with both `USERNAME=` and `PASSWORD=`, so the `else if` never hides a password line |
| `Credentials.ParseLines` | ClipGitter/GitManager.cs:32-42 | the loop leaves username and password equal to the value after the 9-character prefix on the last line that carries each key, "" when none does |
| `Credentials.LastOccurrenceWins` | src/ClipGitter/GitManager.cs:30-40 | when several lines carry a key, the last such line gives its value |
| `Credentials.AbsentKeyIsEmpty` | ClipGitter/GitManager.cs:25-26 | a key no line carries keeps its empty default |
| `Credentials.OtherLinesIgnored` | Program.cs:156-166 | inserting a line without the prefix anywhere leaves the parsed value unchanged |
| `Git.GitManager.constructor` | ClipGitter/GitManager.cs:17-21 | the manager is bound to what opening `_repoPath` yields (nothing when the path is not a repository) |
| `Git.GitManager.GetCredentials` | ClipGitter/GitManager.cs:23-55 | returns the parsed credentials of a readable file and empty ones when the file is missing or reading throws |
| `Git.GitManager.GetCredentialsWithoutExistenceCheck` | Program.cs:149-174 | without the existence check, the result is the same: empty for a missing or unreadable file, parsed otherwise |
| `Git.GitManager.CommitAndPush` | ClipGitter/GitManager.cs:57-86 | stages and commits a new commit with the message. Pushes `refs/heads/master` to `origin` only when it exists; the commit stands even when the push fails. An invalid path raises RepositoryNotFound |
| `Git.GitManager.CommitAndForcePush` | ClipGitter/GitManager.cs:88-127 | amends the tip when one exists, else commits new, always "Update clipboard content". Pushes `"+" + Head.CanonicalName` only with `origin`. An invalid path raises RepositoryNotFound |
| `Git.GitManager.PullChanges` | ClipGitter/GitManager.cs:129-191 | no tracked remote: nothing is pulled and null is returned; otherwise pull, then null if the tip SHA is unchanged, else the first qualifying change. A null tip raises NullReference; an invalid path raises RepositoryNotFound |
| `Git.GitManager.PullWithoutContent` | src/ClipGitter/GitManager.cs:121-147 | pulls only when `Head.RemoteName` is set, returns no content, rethrows pull failures and RepositoryNotFound |
| `Git.SelectPulledContent` | ClipGitter/GitManager.cs:153-180 | the diff scan returns the first Added/Modified entry, in diff order, whose read succeeds and whose decrypt (only with a non-empty password) does not raise |
| `Git.FirstQualifyingIsFirst` | ClipGitter/GitManager.cs:155-173 | if entry j qualifies and no earlier one does, the result is entry j's content |
| `Git.NoCandidateNoContent` | ClipGitter/GitManager.cs:153-183 | when no entry qualifies (other kinds, failed reads, raising decrypts), the result is null |
| `Git.SentinelIsSurfaced` | ClipGitter/GitManager.cs:155-173 | only a raising Decrypt skips a file: an Added or Modified entry that decrypts to the sentinel is a candidate, and at the first qualifying position of any diff the sentinel is the pulled content |
| `Git.CommitLogPushesOnlyWithOrigin` | ClipGitter/GitManager.cs:69-78 | the normal commit always commits, pushes iff `origin` exists, and every push is to `origin` with `refs/heads/master` |
| `Git.ForceCommitLogShape` | ClipGitter/GitManager.cs:109-118 | the forced commit pushes iff `origin` exists, only `"+" + Head.CanonicalName`, and amends iff there was a tip |
| `Git.AfterCommitShape` | ClipGitter/GitManager.cs:98-107 | an amend replaces only the tip and keeps the commit count; a new commit extends the history by one |
| `Git.InvalidPathRaisesEverywhere` | ClipGitter.Tests/GitManagerTests.cs:19-56 | against an invalid path all three operations raise RepositoryNotFound |
| `Git.UnbornTipPullRaises` | ClipGitter/GitManager.cs:150-153 | as written, a pull into a branch with no commits raises NullReference after merging, losing content the null-safe comparison returns |
| `Git.PullResultIntendedProperties` | ClipGitter/GitManager.cs:150-153 | the null-safe comparison never raises after a successful pull, reports the first change when the tip appears, and agrees with the code whenever both tips exist |
| `FileNames.Digits` | src/ClipGitter/ClipboardMonitor.cs:79 | a zero-padded field has exactly its width in decimal digits |
| `FileNames.ParseDigitsOfDigits` | src/ClipGitter/ClipboardMonitor.cs:79 | reading a padded field back gives the number written |
| `FileNames.HistoryFileNameShape` | src/ClipGitter/ClipboardMonitor.cs:79 | the history file name matches `clipboard_\d{8}_\d{6}\.txt` (29 characters) |
| `FileNames.HistoryFileNameInjective` | src/ClipGitter/ClipboardMonitor.cs:79 | two instants that differ to the second get different file names |
| `Monitor.ClipboardMonitor.constructor` | src/ClipGitter/ClipboardMonitor.cs:75 | history mode is `!NoHistory`; the monitor starts not disposed with no last content |
| `Monitor.ClipboardMonitor.FromProgramOptions` | Program.cs:89 | history mode is `HistoryMode ?? true` |
| `Monitor.ClipboardMonitor.SaveClipboardContent` | src/ClipGitter/ClipboardMonitor.cs:71-94 | history mode writes `clipboard_<stamp>.txt` and commits it with "Add new clipboard content"; otherwise writes `clip.txt` and commits it with the forced commit. A failed write issues no commit, and every error is swallowed |
| `Monitor.ClipboardMonitor.ClipboardIteration` | src/ClipGitter/ClipboardMonitor.cs:47-69 | cancelled: exit, nothing changes. A failed read waits 5000 ms. Otherwise waits 1000 ms, and a non-empty read that differs from the last content updates the field before exactly one save, whose files, log and history are given; the repository's origin, tracked remote and head name never change |
| `Monitor.ClipboardMonitor.PollIteration` | src/ClipGitter/ClipboardMonitor.cs:96-111 | cancelled: exit. Without a tracked remote nothing changes; otherwise one pull is logged and the history becomes the pulled one, or stays on an error. Then PollInterval seconds after success, 5000 ms after an error |
| `Monitor.ClipboardMonitor.Dispose` | src/ClipGitter/ClipboardMonitor.cs:113-121 | cancels and disposes the token source the first time only; later calls change nothing |
| `Monitor.OnePolicyPerSave` | src/ClipGitter/ClipboardMonitor.cs:77-88 | a save stages and commits under exactly one policy: the history file and message, or `clip.txt` and the forced message |
| `Monitor.NoRetryOfSameText` | src/ClipGitter/ClipboardMonitor.cs:55-58 | after a change is recorded, reading the same text is not a change, so a failed save is not retried; an empty or null read never replaces the last content |
| `Monitor.PollDelayChoice` | src/ClipGitter/ClipboardMonitor.cs:103-108 | the pull loop waits PollInterval seconds after success and 5000 ms after an error |
| `Monitor.HistoryModeScenario` | src/ClipGitter/ClipboardMonitor.cs:55-81 | a first read of "hello" in history mode writes one `clipboard_<stamp>.txt` holding it, commits "Add new clipboard content" and pushes to refs/heads/master |
| `Startup.CheckRepository` | Program.cs:287-297 | a missing path gives one message, an existing path without `.git` another, and the monitor starts only when both exist |
| `Startup.RefusalsDistinct` | Program.cs:289-295 | the two start-up messages differ for every path |

## Findings

| source | as written | input that shows it | evidently intended | confidence | as-written member | corrected member |
|---|---|---|---|---|---|---|
| ClipGitter/GitManager.cs:150 | `oldTip.Sha != newTip.Sha` dereferences a null `Head.Tip`. Line 153 already uses `oldTip?.Tree` | a branch that tracks `origin` but has no commits yet: the pull merges, then NullReferenceException is rethrown and the pulled content is never returned | compare `oldTip?.Sha` with `newTip?.Sha`, so a tip that appears counts as a change | medium, not executed | `Git.UnbornTipPullRaises` | `Git.PullResultIntendedProperties` |

`Git.GitManager.PullChanges` models the code as written, since that is the
behaviour the program has. `Git.PullResultIntended` is the corrected result.

## Left out

- LibGit2Sharp semantics: staging, committing, pushing, pulling and the tree diff are abstract operations on `Repository`. Their outcomes are inputs.
- The cryptographic primitives and base64 are fields of `Primitives`, not implementations. Whether a wrong password makes the padding check fail is probabilistic. This is why the properties read "if the cipher rejects the span, the sentinel is returned".
- Concurrency: the two `Task.Run` loops, `StartMonitoringAsync` and its `Task.Delay(-1, token)` are not modelled. `Task.Delay` timing and the cancellation of a sleep already in progress are not modelled either. One loop iteration is one method call, and cancellation is seen only at the loop guard.
- Logging, console output and command-line parsing are not modelled. `Main` is modelled only through its path checks.
- `src/ClipGitter/EncryptionManager.cs` and `src/ClipGitter/Program.cs` are not part of this model. The first has no framing. The second uses a `ClipboardManager` type that is defined in none of the modelled files.
- `SingleFile` (src/ClipGitter/Options.cs:20) is the field `Monitor.Options.singleFile`; none of the modelled files acts on it, so it has no behaviour in the model.
- `PullOnly` (ClipGitter/Options.cs:22-23) is not modelled: none of the modelled files acts on it, and `src/ClipGitter/Program.cs`, which only prints it, is not part of this model.
- `Git.GitManager.constructor`: the source constructor only stores the path, and every operation opens `new Repository(_repoPath)` again. The model opens the repository once, so it does not capture the path becoming valid or invalid between calls.
- `Crypto.RoundTrip`: the round trip is not the identity. A plaintext that starts with U+FEFF loses that character, and the lemma states exactly that. A C# string with an unpaired surrogate, on which the writer's UTF-8 encoder throws, is outside Dafny's string type, so that case is not modelled.
- `Credentials.ParseLines`: `string.StartsWith` is culture-sensitive in .NET; the model compares ordinally.
- `Git.GitManager.CommitAndPush`: only RepositoryNotFound and push failures are modelled as exceptions. Failures of `Commands.Stage`, `BuildSignature` or `Commit` (for example an empty commit) are not.
- `Git.GitManager.CommitAndForcePush`: the same restriction on exceptions as `CommitAndPush`.
- `Monitor.ClipboardMonitor.PollIteration`: a negative PollInterval makes `Task.Delay` throw, which leads to the 5000 ms retry. The upper limit `Task.Delay` puts on very large intervals is not modelled.
- `Monitor.ClipboardMonitor.ClipboardIteration`: after `Dispose`, the loop guard reads the token of a disposed source, and .NET raises ObjectDisposedException there. The model treats that as the same loop exit as cancellation.
- `Monitor.ClipboardMonitor.SaveClipboardContent`: the file write goes to a `WorkingDirectory` object and can only succeed or fail as a whole. `Path.Combine` is not modelled.
- The culture's calendar in `DateTime.Now:yyyyMMdd_HHmmss` is not modelled: the stamp is Gregorian.
