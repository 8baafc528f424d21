# Orca: protocols and algorithms, modelled and proved

This project models the parts of Orca in which something can go wrong between two steps, or in which an algorithm has an
exact specification, and proves what they promise. `dafny verify dfyconfig.toml` checks all of it.

**Protocols on files.** `DurableFileWrite` is the crash-safe replacement of a file, over a file system whose contents
and directory entries become durable separately; a crash may come at any point. `OverlappingWrites` lets any number of
such calls be in flight at once, each under its own temporary name. `ActiveView` is the remembered view: debounced,
chained asynchronous writes race a synchronous flush, and a generation counter decides who may rename. `KeyPair` is the
agreement of several mock servers on one key through a lock file and a key file; processes interleave and crash
anywhere. `Promotion` publishes a downloaded folder without overwriting anything, and rolls back on failure, while third
parties change the destination between any two operations.

**Supervisors and queues.** `AgentAwake` is the service that keeps the machine awake and the child processes it supervises;
a failing child calls the service back, which starts children. `IconQueue` is the queue of Dock-icon commands, each with a
time limit.

**Algorithms.** `Quoting` (Windows command lines against the argv rules of the Microsoft C runtime), `EditDistance` and
`CommandSuggestion` ("Did you mean"), `DueDate` (the calendar check against the Date functions of ECMA-262, sections 21.4.1
and 21.4.3.4), `CliArgs` (parse, normalise, validate, dispatch), `CodexCommand` and `CodexReading` (classifying launch
commands, and what a command written in words, options and environment settings is classified as),
`ScriptLines` (two line-ending scanners), `ChunkGuard` and `FirstDescendant` (two worklist searches). `Options` holds the
optional value they share.

Code that updates state is a class or a method with its loops; each method is proved against a function or a step of a
state machine, and the properties are proved of those. What the operating system answers, and when anything happens, is
left open: it is an argument, an arbitrary choice, or a function from the number of the call to its answer, which a class
holds. The last kind lets a contract say that an operation succeeds when its calls do, and that an error has a cause.

## Where the code does not do what one would expect

Each of these is proved, with the exact condition.

- A mock server whose read of the key file fails while it holds the lock (reason `unreadable`) mints a new key over the one
  that is there. Agreement holds as long as no run contains such a step, and any such step can replace the key
  (`KeyPair.KeyIsKeptExactlyWhenReadable`, `KeyPair.DisagreementIsReachable`).
- A successful stat at the end of a file copy records whatever state the file has by then. A third party's change made
  during the copy is then taken for promotion's own, and rollback removes it (`Promotion.LastChangeSurvivesExactly`,
  `Promotion.CopyCanLoseAChange`).
- An entry whose identity could not be read back after a mkdir or an exclusive open has no record, and an entry on a file
  system that reports neither device, inode nor birth time is not recognised. Rollback leaves such entries, and only such
  entries keep it from restoring the destination (`Promotion.Promoter.Rollback`, `Promotion.UnrecordedEntryStays`).
- At the very moment a status expires it still counts, but no timer is armed for it. A stale timer that fires exactly on
  time keeps the machine awake, and only some other event ends that (`AgentAwake.NoTimerExactly`,
  `AgentAwake.FiringOnTimeKeepsBlocking`).
- Years 0000 to 0099 are never accepted as due dates (`DueDate.AcceptedExactly`).
- Line-ending normalisation is one pass and leaves a CR LF where there was CR CR LF (`ScriptLines.SecondPassIsIdleExactly`).
- The tokenizer notices a limit of zero only after a word (`CodexCommand.LimitTakesPrefixExactly`); no caller passes zero.
- A command of 32 words or more changes its classification behind an environment assignment exactly if the 32nd word
  decides it (`CodexCommand.PrefixMattersExactly`, `CodexCommand.ThirtyTwoWordsCanChange`).
- The search for a descendant remembers `id(node)` of proxies it does not keep. A new proxy may get the identity of a dropped
  one and is then skipped with everything below it, so the search can miss the only node that passes
  (`FirstDescendant.ReusedIdentityMisses`); on a tree within the node bound it finds the first one in preorder if and only
  if no skipped proxy hides a node that passes (`FirstDescendant.FirstHitExactly`).
- The flags listed for a command differ from those validation accepts exactly for passed-through commands
  (`CliArgs.DiscoveryMatchesValidation`).
- If one command answers to the path of another, flags may be checked against the one and the handler of the other run; the
  exact condition on the registry is `CliArgs.Confusable` (`CliArgs.MixedUpExactlyWhenConfusable`).

## What is taken for granted

- *Durable writes.* A file that was not fsynced since its last change may hold anything after a crash; a directory may come
  back as any version since its last fsync; rename is atomic. Nobody else uses the temporary and final paths, and calls in
  flight at once have different temporary names.
- *Active view.* JavaScript code between two awaits is one step. File operations may fail, in every way that leaves an old
  file or a broken one. A serialised view reads back as itself; nobody else changes the file.
- *Key pair.* Only these processes touch the two files; an exclusive create and a rename are single steps. A key is an
  abstract value; "decodes to a key" is a property of the file. Temporary names do not collide.
- *Promotion.* As the comments in the source ask, nobody acts between creating an entry and reading back its identity, or
  between the check and the removal in a rollback. Identities and file states are never reused. Third parties may create,
  change, move, hard-link, replace and remove entries, also those that promotion published; one that only moves or links an
  entry of promotion's leaves it promotion's. The temporary folder belongs to promotion alone.
- *Awake.* The clock stands still during one event, and may jump between events. Timers fire at any time while armed. The
  Linux and the macOS class differ in their platform, their command and the missing-tool case, and are one class with a
  `kind` here; both may be active at once. The blocker's `isStarted` tells the truth whenever it does not throw, and its
  identifiers are not reused.
- *Icon.* Commands of a round run side by side; the queue waits for all of them. `onError` does not throw.
- *Search.* A proxy's identity differs from those of the other proxies alive with it: the root, the node expanded, the stack,
  the previous and the new child list; it may equal that of a proxy visited and dropped. Children and test give the same
  answers throughout.
- *Text.* Strings are sequences of characters. Whitespace is a fixed predicate; lower-casing and the locale's comparison are
  parameters, the latter any consistent one. A chunk's text is reduced to whether it requires electron.

## Model

| member | source | states |
|---|---|---|
| `DurableFileWrite.RunRecovers` | src/main/durable-file-write.ts:54-83 | In any run of operations (opens, partial writes, fsyncs, closes, renames, directory fsyncs, failures, calls of both forms one after the other) with crashes anywhere, also in the middle of a call, recovery finds at the final path what was there before the run or the whole payload of a call that began in it and reached its rename; never a torn or empty file |
| `OverlappingWrites.HistoryRecovers` | src/main/persistence.ts:3671-3756 | The application overlaps an asynchronous save with a synchronous flush: for any number of calls in flight under distinct temporary names, interleaved in any way, with failures, clean-ups and crashes anywhere, recovery finds what was there before or the whole payload of a call that began in the history and reached its rename |
| `OverlappingWrites.SyncedReturnIsFinal` | src/main/persistence.ts:3698-3745 | Once one of them has returned with its directory fsynced, only its payload can be found, or that of a call that renamed after it did, be it one that began earlier |
| `OverlappingWrites.EventKeepsInv` | src/main/persistence.ts:3671-3756 | Every operation of any of the calls, and a crash, keeps all temporary files and the final path apart and the final path within what is still possible |
| `OverlappingWrites.RunIsHistory` | src/main/durable-file-write.ts:54-83 | Calls one after the other under one name, as the code of both forms is proved to run, are such a history |
| `DurableFileWrite.SyncedWriteIsFinal` | src/main/durable-file-write.ts:45-83 | After a call returned with its directory fsynced, whatever operations, failures and crashes follow, only its payload or that of a later call can be found |
| `DurableFileWrite.OneCallRecovers` | src/main/durable-file-write.ts:54-83 | One call cut off anywhere leaves the old content or the whole new payload |
| `DurableFileWrite.CallOutcome` | src/main/durable-file-write.ts:54-83 | A call that throws leaves what recovery may find as it was; one that returns has its payload live, and alone to be found if the directory was fsynced |
| `DurableFileWrite.SuccessReturns` | src/main/durable-file-write.ts:54-83 | A call none of whose operations fails is never on its way to a throw, is over after at most six operations and one for each byte, and returns with the directory fsynced |
| `DurableFileWrite.RenameBeforeFsyncTears` | src/main/durable-file-write.ts:63-68 | Why the file is fsynced before the rename: renaming an unsynced file lets a crash expose any bytes at all at the final path |
| `DurableFileWrite.StepKeepsInv` | src/main/durable-file-write.ts:54-83 | Every operation of either form, and a crash at any point, keeps the final path within what is still possible |
| `DurableFileWrite.Disk.WriteAll` | src/main/durable-file-write.ts:62-62 | Short writes put out the whole payload or end in an error, each of them a step of the machine |
| `DurableFileWrite.Disk.RenameDurable` | src/main/durable-file-write.ts:49-52 | Rename, then directory fsync, as steps of the machine; the result tells whether the directory was fsynced |
| `DurableFileWrite.Disk.WriteFileDurable` | src/main/durable-file-write.ts:55-70 | The asynchronous form is a call of the machine from begin to end, so the statements about runs and crashes hold at each of its operations; the result is the one the machine ends with, and it is a return, with the directory fsynced, whenever every operation succeeds |
| `DurableFileWrite.Disk.WriteFileDurableSync` | src/main/durable-file-write.ts:73-83 | So is the synchronous form, which closes the file and reopens it to fsync, with the same promise |
| `DurableFileWrite.Disk.SyncDirectory` | src/main/durable-file-write.ts:15-43 | A failed directory fsync is swallowed and changes nothing |
| `ActiveView.ReachableStates` | src/main/active-view-preference.ts:39-129 | In every run the persisted value equals what the file holds, no two writes or flushes share a temporary name, renames happen in generation order and the file holds the last of them |
| `ActiveView.Quiescent` | src/main/active-view-preference.ts:51-129 | With no timer armed and no pending write, the file holds the view asked for last (set, or else loaded, or else the legacy one), unless nothing was ever set or flushed, or the write or flush of the newest generation failed |
| `ActiveView.ViewIsAsked` | src/main/active-view-preference.ts:39-65 | In every run the object has the view that was set last, or else the one the file held at the start, or else the legacy one, or else the terminal |
| `ActiveView.SavedInTheEnd` | src/main/active-view-preference.ts:67-111 | From every reachable state in which a view was asked for, the timer and the pending writes can go through, and then the file holds the view asked for last, unless the newest generation had failed already |
| `ActiveView.FailureHasCause` | src/main/active-view-preference.ts:77-129 | A generation counts as failed only if one of its file operations failed in the run |
| `ActiveView.FlushIsNotClobbered` | src/main/active-view-preference.ts:91-129 | A flush whose operations succeed returns; after it the file holds the view asked for last, and in every continuation it does until a later flush or a write whose timer fired after the flush renames; no older write ever renames |
| `ActiveView.FlushReleasesTheChain` | src/main/active-view-preference.ts:76-120 | After a flush the write of the next change starts at once, beside any older writes still in flight; this is the race the statements above are about |
| `ActiveView.NextKeepsInv` | src/main/active-view-preference.ts:51-129 | Every step of every kind keeps the invariant of reachable states |
| `ActiveView.RunKeepsInv` | src/main/active-view-preference.ts:51-129 | So does every run |
| `ActiveView.ActiveViewPreference.constructor` | src/main/active-view-preference.ts:39-45 | The fields start as the initial state of the run model |
| `ActiveView.ActiveViewPreference.Set` | src/main/active-view-preference.ts:51-65 | A view given becomes the active one, and it is answered whether that is a change; the rest is the set step of the run model |
| `ActiveView.ActiveViewPreference.TimerFired` | src/main/active-view-preference.ts:72-88 | The timer callback is the fire step |
| `ActiveView.ActiveViewPreference.StartWrite` | src/main/active-view-preference.ts:77-95 | The start of a chained write is its first step |
| `ActiveView.ActiveViewPreference.DirectoryMade` | src/main/active-view-preference.ts:95-96 | The code after mkdir is the next step |
| `ActiveView.ActiveViewPreference.TmpFinished` | src/main/active-view-preference.ts:96-96 | The code after writeFile is the next step |
| `ActiveView.ActiveViewPreference.GuardedRename` | src/main/active-view-preference.ts:100-105 | Guard, rename and bookkeeping are one uninterrupted step |
| `ActiveView.ActiveViewPreference.TmpRemoved` | src/main/active-view-preference.ts:106-110 | The clean-up is one step |
| `ActiveView.ActiveViewPreference.WriteSettled` | src/main/active-view-preference.ts:79-86 | The end of the promise chain is one step |
| `ActiveView.ActiveViewPreference.FlushOrThrow` | src/main/active-view-preference.ts:113-129 | The flush is one step of the run model, for each way its file operations can end, and tells whether it returned; it does if they succeed |
| `KeyPair.Agreement` | mobile/scripts/mock-server-key-pair.ts:53-167 | For any number of processes, schedules, crashes and failing operations in which no process mints over a key it merely failed to read: at most one key is ever persisted, never over an existing one, and every process that returns holds the key in the file |
| `KeyPair.KeyIsKeptExactlyWhenReadable` | mobile/scripts/mock-server-key-pair.ts:151-162 | The condition is exact: a step puts the key in the file at risk if and only if it is a failed read, under the lock, of a key that is there |
| `KeyPair.AtMostOneHolder` | mobile/scripts/mock-server-key-pair.ts:53-89 | In every run, whatever fails, at most one process is between taking the lock and unlinking it |
| `KeyPair.BlindMintReplacesTheKey` | mobile/scripts/mock-server-key-pair.ts:153-162 | After any run, a blind mint can go on to replace the key and return another one than everybody who returned before |
| `KeyPair.DisagreementIsReachable` | mobile/scripts/mock-server-key-pair.ts:153-162 | Two processes that return different keys: the second reads 'unreadable' under the lock and mints over the first one's key |
| `KeyPair.ProcessStops` | mobile/scripts/mock-server-key-pair.ts:53-167 | Every process stops by itself: at most 113 operations, however the lock and the file behave |
| `KeyPair.ThrowsExactly` | mobile/scripts/mock-server-key-pair.ts:53-167 | In any run, a process that came to its end has thrown if and only if the lock could not be opened, or was found busy 51 times while no read found a key, or writing or chmod failed, or a rename failed for good or five times; otherwise it returns the key it read or renamed into place |
| `KeyPair.AloneMints` | mobile/scripts/mock-server-key-pair.ts:135-167 | Alone, with no key in the file and the lock free, a process whose operations succeed returns the key it minted, which is then the one in the file |
| `KeyPair.Server.ReadKeyPair` | mobile/scripts/mock-server-key-pair.ts:34-51 | A read among the steps of the other processes: the process goes on exactly as the answer says |
| `KeyPair.Server.OpenLock` | mobile/scripts/mock-server-key-pair.ts:56-61 | An exclusive create of the lock file: taken, busy or an error |
| `KeyPair.Server.AcquireKeyLock` | mobile/scripts/mock-server-key-pair.ts:53-89 | The attempt loop and the two late tries end with the lock, with a winner's key, or with an error |
| `KeyPair.Server.RenameKeyFile` | mobile/scripts/mock-server-key-pair.ts:91-106 | The rename loop ends with the file renamed or an error after at most five tries |
| `KeyPair.Server.PersistKeyPair` | mobile/scripts/mock-server-key-pair.ts:108-124 | Write, chmod, rename, and removal of the temporary file on every path |
| `KeyPair.Server.SelectUnderLock` | mobile/scripts/mock-server-key-pair.ts:151-166 | What is returned under the lock is the key read or the key persisted; the lock is released on every path |
| `KeyPair.Server.LoadOrCreate` | mobile/scripts/mock-server-key-pair.ts:135-167 | The whole call is the run of the process model that comes of what the other processes do before each of its operations and of the answers to those, whatever both are; it throws exactly for one of the causes above, read off the answers to its own operations |
| `Promotion.Promoter.Promote` | src/main/local-downloaded-folder-promotion.ts:249-268 | Whatever third parties do, promotion writes only to objects it created and rollback removes nothing that was there before or that a third party has the last word on; without interference success adds exactly the names, kinds and bytes of the tree, and after a failure with working clean-up calls the destination is as before if and only if every created entry was recorded and can be recognised; if one was not recorded, exactly that entry and the folders above it are left. It succeeds only if no call fails. Without interference or failing calls it succeeds at a free root if and only if the tree has no special file and lists no name twice, links or no links; it answers that the destination exists if the root is taken, and, for such names, only then |
| `Promotion.VerdictExactly` | src/main/local-downloaded-folder-promotion.ts:209-247 | Which trees can be published: a tree without special files in which no folder lists a name twice; what the code answers follows the first entry that cannot be |
| `Promotion.Promoter.PublishDirectory` | src/main/local-downloaded-folder-promotion.ts:209-247 | A directory is claimed exclusively and recorded before its entries; without interference exactly the image of the tree is added |
| `Promotion.Promoter.PublishEntries` | src/main/local-downloaded-folder-promotion.ts:220-246 | The loop over a directory's entries adds the image of those visited, in order, and stops at the first failure |
| `Promotion.Promoter.PublishEntry` | src/main/local-downloaded-folder-promotion.ts:227-243 | Directories recurse, files are published, anything else fails |
| `Promotion.Promoter.PublishFile` | src/main/local-downloaded-folder-promotion.ts:124-152 | A link, or the copy fallback for any error but EEXIST, adds one file with the source's bytes; if the calls succeed it answers as an exclusive create does, however the link was answered |
| `Promotion.Promoter.Claim` | src/main/local-downloaded-folder-promotion.ts:80-87 | An exclusive create with its record; the read-back may fail after a mkdir or an open, and then the entry is there without a record |
| `Promotion.Promoter.CopyFile` | src/main/local-downloaded-folder-promotion.ts:70-122 | The copy fallback adds one file with exactly the bytes of the source, and does so if its calls succeed, or fails; in the failing cases the record is as current as the stats allowed |
| `Promotion.Promoter.CopyBytes` | src/main/local-downloaded-folder-promotion.ts:88-108 | Short reads until the end of the source write exactly its bytes, and the loops end |
| `Promotion.Promoter.WriteBuffer` | src/main/local-downloaded-folder-promotion.ts:96-106 | Short writes put out exactly the buffer at its place, and the loop ends given progress |
| `Promotion.Promoter.UpdateRecord` | src/main/local-downloaded-folder-promotion.ts:109-116 | A stat through the handle makes the record hold the state of the file, wherever that is by then; if it fails the record is unchanged |
| `Promotion.Promoter.Rollback` | src/main/local-downloaded-folder-promotion.ts:187-207 | Undoing in reverse order harms nobody; without interference and with working clean-up calls it restores the destination if and only if no entry is unrecorded or unrecognisable, and such an entry always stays; it undoes every record that is still good, last first |
| `Promotion.Promoter.Undo` | src/main/local-downloaded-folder-promotion.ts:189-205 | What is at the path of a record goes if it has the identity, kind and state recorded and, for a directory, is empty; otherwise nothing changes |
| `Promotion.LastIsRemovable` | src/main/local-downloaded-folder-promotion.ts:187-207 | Why the order is reversed: taken last to first, every directory is empty when its turn comes, and what remains is the destination plus the earlier records |
| `Promotion.InterferenceKeepsGood` | src/main/local-downloaded-folder-promotion.ts:187-207 | Nothing third parties do (create, change, move, hard-link, replace, remove) makes rollback take for its own what they have the last word on |
| `Promotion.CopyCanLoseAChange` | src/main/local-downloaded-folder-promotion.ts:88-116 | A run in which a change made during a copy is recorded by the final stat and removed by the rollback, and would have stayed had the stats failed |
| `Promotion.LastChangeSurvivesExactly` | src/main/local-downloaded-folder-promotion.ts:109-116 | The last change a third party made to a published file survives its rollback if and only if no successful stat of the copy came after that change |
| `Promotion.UnrecordedEntryStays` | src/main/local-downloaded-folder-promotion.ts:215-219 | When an entry could not be read back after its creation, undoing every record made before it leaves exactly that entry, the folders above it, and what was there before the promotion |
| `Quoting.RoundTrip` | native/windows-cli-launcher/OrcaCliLauncher.cs:82-131 | For every path and argument list, the Microsoft C argv rules take the built command line apart into exactly the path and the arguments |
| `Quoting.CommandLinesAreDistinct` | native/windows-cli-launcher/OrcaCliLauncher.cs:82-91 | Different paths or argument lists never give the same command line |
| `Quoting.QuoteArgument` | native/windows-cli-launcher/OrcaCliLauncher.cs:93-131 | The loop with its backslash counter computes the recursive quoting |
| `Quoting.BuildArguments` | native/windows-cli-launcher/OrcaCliLauncher.cs:82-91 | The joined command line is that of the path and the arguments |
| `EditDistance.DistanceIsLeast` | src/cli/command-suggestion.ts:50-72 | The distance is attained by some edit script and no script is shorter |
| `EditDistance.Levenshtein` | src/cli/command-suggestion.ts:50-72 | The two-row loop with swapped arrays computes the recursive edit distance |
| `EditDistance.ScriptWorks` | src/cli/command-suggestion.ts:50-72 | There is an edit script as long as the distance |
| `EditDistance.NoShorterScript` | src/cli/command-suggestion.ts:50-72 | No edit script is shorter than the distance |
| `EditDistance.Symmetric` | src/cli/command-suggestion.ts:50-72 | The distance does not depend on the order of its arguments |
| `EditDistance.ZeroExactlyOnEqual` | src/cli/command-suggestion.ts:50-72 | It is zero exactly on equal strings |
| `EditDistance.Triangle` | src/cli/command-suggestion.ts:50-72 | It obeys the triangle inequality |
| `CommandSuggestion.SuggestionsAreTheNearest` | src/cli/command-suggestion.ts:75-110 | At most three different names of the typed length are offered, each at distance one to three, in order of that distance; an eligible name is left out only if three are offered and none of them is farther |
| `CommandSuggestion.HarmlessUnlessIntended` | src/cli/command-suggestion.ts:18-43 | Unless the last word typed is within one edit of a destructive verb, every name offered comes from a command that is not destructive |
| `CommandSuggestion.SuggestCommands` | src/cli/command-suggestion.ts:84-110 | The nested loops with their seen set offer exactly the ranked candidates |
| `CommandSuggestion.AddCandidates` | src/cli/command-suggestion.ts:94-107 | Each name is scored once, at its first occurrence |
| `CommandSuggestion.DestructiveVerbs` | src/cli/command-suggestion.ts:21-31 | The set holds exactly the last words of destructive paths and aliases |
| `CommandSuggestion.MeansDestruction` | src/cli/command-suggestion.ts:36-43 | Found exactly when some destructive verb is within one edit |
| `AgentAwake.AgentAwakeService.Refresh` | src/main/agent-awake-service.ts:105-118 | The machine is to stay awake if and only if the setting is on and some agent was seen at work here no more than two hours ago; if so, each assertion of this platform has a child, an armed retry timer or a missing tool, each tried at most one spawn and only if one was due; if not, nothing runs and nothing was started; a refresh ends although starting a child can fail and call back into it, and arms the stale timer for exactly the least expiry to come |
| `AgentAwake.BlocksExactly` | src/main/agent-awake-service.ts:105-134 | The decision is the setting and one eligible status, with the age limit written out |
| `AgentAwake.AgentAwakeService.WantedIsTended` | src/main/agent-awake-service.ts:105-118 | After a refresh that wants the machine awake, this platform's child runs, or will be tried again, or has no tool, and the other platform's does not run |
| `AgentAwake.SleepAssertion.Start` | src/main/linux-lid-sleep-assertion.ts:57-114 | A start leaves a child, a retry timer or a missing tool behind, never spawns while one is suppressed, and makes no second attempt through the callback |
| `AgentAwake.SleepAssertion.Spawn` | src/main/macos-system-sleep-assertion.ts:65-92 | One spawn attempt: as the spawn is answered, the child is adopted, or the failure is handled and the service refreshed before returning |
| `AgentAwake.SleepAssertion.Adopt` | src/main/linux-lid-sleep-assertion.ts:90-113 | The new process becomes the current child, with the only listeners, and suppression is lifted |
| `AgentAwake.SleepAssertion.Stop` | src/main/linux-lid-sleep-assertion.ts:116-133 | Nothing runs and nothing is due afterwards; a kill of the former child was tried; nothing is reported |
| `AgentAwake.SleepAssertion.HandleChildFailure` | src/main/linux-lid-sleep-assertion.ts:139-159 | A failing current child is reported; a missing tool ends all attempts, any other failure leads to a refresh without a spawn in the same event; the service is settled again |
| `AgentAwake.SleepAssertion.DetachChild` | src/main/macos-system-sleep-assertion.ts:128-147 | The current child's failure is always reported; a process stopped or reported before is not; no process is reported twice |
| `AgentAwake.SleepAssertion.HandleFailure` | src/main/linux-lid-sleep-assertion.ts:170-185 | A missing tool ends all attempts silently; any other failure suppresses spawning for thirty seconds, arms a timer and refreshes, without a second attempt in the same event |
| `AgentAwake.SleepAssertion.RetryTimerFired` | src/main/linux-lid-sleep-assertion.ts:218-221 | The retry timer leads to a full refresh |
| `AgentAwake.SleepAssertion.ScheduleRetry` | src/main/linux-lid-sleep-assertion.ts:213-225 | A timer is armed for the end of the suppression, never in the past, unless one is armed already |
| `AgentAwake.EventIsAccounted` | src/main/linux-lid-sleep-assertion.ts:139-159 | After an event every process is still the current child, stopped, or reported; a process is both of the last two only if events reached its removed listeners, twice |
| `AgentAwake.StoppedOrFailed` | src/main/linux-lid-sleep-assertion.ts:99-159 | If no event reaches a removed listener, the stopped, the reported and the current process are disjoint and together all that were spawned |
| `AgentAwake.AgentAwakeService.Handle` | src/main/agent-awake-service.ts:84-118 | Every event, in any order, leaves the service accounted for and settled, with the setting and the statuses of that event; what must refresh does, and nothing is started unless the machine is then to stay awake |
| `AgentAwake.EventLoop` | src/main/agent-awake-service.ts:54-118 | So does every sequence of events from construction on, with the latest setting and statuses; as long as the setting was never switched on, no blocker and no child was ever started |
| `AgentAwake.AgentAwakeService.SetEnabled` | src/main/agent-awake-service.ts:84-90 | A changed setting refreshes; an unchanged one changes nothing |
| `AgentAwake.AgentAwakeService.SetStatuses` | src/main/agent-awake-service.ts:92-95 | New statuses replace the old ones and refresh |
| `AgentAwake.AgentAwakeService.StaleTimerFired` | src/main/agent-awake-service.ts:155-158 | The stale timer leads to a full refresh |
| `AgentAwake.AgentAwakeService.Dispose` | src/main/agent-awake-service.ts:97-103 | Afterwards no timer is armed, neither assertion runs or retries, and a stop of the held blocker was tried |
| `AgentAwake.AgentAwakeService.ReconcileBlocker` | src/main/agent-awake-service.ts:259-278 | A blocker is given up exactly when it is reported not started; a throwing report keeps it |
| `AgentAwake.AgentAwakeService.StartBlocker` | src/main/agent-awake-service.ts:172-190 | A blocker believed started is kept; otherwise one start is tried |
| `AgentAwake.AgentAwakeService.StopBlocker` | src/main/agent-awake-service.ts:240-257 | A held blocker is told to stop once, and is given up only if it is then reported not started |
| `AgentAwake.AgentAwakeService.OnlyTheHeldBlockerRuns` | src/main/agent-awake-service.ts:172-190 | Whatever stop and isStarted throw, no blocker runs but the held one, so never two |
| `AgentAwake.EarliestExpiry` | src/main/agent-awake-service.ts:136-151 | The loop finds the least expiry of a counted status that is still to come, or that there is none |
| `AgentAwake.NoTimerExactly` | src/main/agent-awake-service.ts:125-154 | After a refresh no stale timer is armed exactly when every eligible status expires at that very moment |
| `AgentAwake.FiringOnTimeKeepsBlocking` | src/main/agent-awake-service.ts:125-158 | A stale timer that fires exactly on time keeps the machine awake, and arms no other timer exactly when no later expiry remains |
| `AgentAwake.FiringLateDecides` | src/main/agent-awake-service.ts:125-158 | A stale timer that fires late keeps it awake exactly if some counted status has not expired yet |
| `IconQueue.DockIconQueue.DrainedShowsTheNewest` | src/main/app-icon.ts:262-288 | When all requests have had their turn the commands end with the whole sequence of the newest request, written out, and its icon is what the bundle shows |
| `IconQueue.DockIconQueue.Drain` | src/main/app-icon.ts:136-219 | Nothing but the timers is needed for all requests to have their turn: from any state the queue drains, and what shows is the newest request's icon |
| `IconQueue.CommandsNeverGoBack` | src/main/app-icon.ts:214-219 | Commands are started in the order of their requests, never for an older one after a newer one |
| `IconQueue.StaleExactly` | src/main/app-icon.ts:274-279 | A request runs no command exactly when a newer one had been made by its turn |
| `IconQueue.DockIconQueue.Persist` | src/main/app-icon.ts:262-275 | A request gets the next generation, the last place in the queue and the icon its text names, classic for any other text; off macOS or in development nothing happens |
| `IconQueue.DockIconQueue.StartNext` | src/main/app-icon.ts:275-287 | Turns are taken in order of the requests, one at a time, and a stale one runs nothing |
| `IconQueue.DockIconQueue.Continue` | src/main/app-icon.ts:254-260 | The classic icon clears the two attributes after the icon itself; then the queue is free |
| `IconQueue.DockIconQueue.Deliver` | src/main/app-icon.ts:214-219 | An event settles a command exactly as it should and keeps the queue's order and log |
| `IconQueue.DockIconQueue.NeverStuck` | src/main/app-icon.ts:136-219 | While a request runs, either all its commands have settled or a timer is armed that will settle one |
| `IconQueue.BoundedCommand.Run` | src/main/app-icon.ts:136-208 | However execFile calls back, returns or throws, the command has settled, with the first answer's error and no other, or its fallback timer is armed for eleven seconds from now |
| `IconQueue.BoundedCommand.Finish` | src/main/app-icon.ts:149-162 | The first answer settles, reports its error once and disarms both timers; later ones change nothing |
| `IconQueue.BoundedCommand.FinishAfterFallback` | src/main/app-icon.ts:164-174 | Giving up settles with one warning, unless already settled |
| `IconQueue.BoundedCommand.FallbackFired` | src/main/app-icon.ts:176-189 | Without a child the command settles; with one it is killed once and either settles or has a second timer armed |
| `IconQueue.BoundedCommand.ForceFallbackFired` | src/main/app-icon.ts:187-187 | The second timer settles the command |
| `IconQueue.BoundedCommand.Handle` | src/main/app-icon.ts:149-208 | In any order of callback, exit, close and timers: each event settles exactly if it is an answer or the end of the waiting; resolved at most once, at most one error or warning, nothing armed after settling, something armed before |
| `IconQueue.BoundedCommand.WaitOut` | src/main/app-icon.ts:164-189 | A command settles with nothing but its own timers |
| `DueDate.AcceptedExactly` | src/cli/linear-request-builders.ts:87-102 | A due date is accepted exactly if it is a YYYY-MM-DD text of a date of the Gregorian calendar from the year 100 on |
| `DueDate.RejectionNamesTheReason` | src/cli/linear-request-builders.ts:87-102 | Which of the three errors is raised, each exactly when |
| `DueDate.EveryDateIsAccepted` | src/cli/linear-request-builders.ts:87-102 | Every date from year 100 to 9999 has a text that is accepted |
| `DueDate.WrittenIsInjective` | src/cli/linear-request-builders.ts:92-92 | Two accepted texts never stand for the same date |
| `DueDate.ReadBackExactly` | src/cli/linear-request-builders.ts:93-98 | Building the three numbers into a Date and reading them back changes none of them exactly for real dates from year 100 on |
| `DueDate.GettersGiveRealDates` | src/cli/linear-request-builders.ts:94-98 | Reading any time gives a date that exists, and building that date gives the day back |
| `DueDate.RealDatesRoundTrip` | src/cli/linear-request-builders.ts:93-98 | Building a date that exists and reading it back changes nothing |
| `DueDate.EpochDate` | src/cli/linear-request-builders.ts:94-98 | Day zero of the count is 1 January 1970, which anchors the next statement |
| `DueDate.DaysTurnPages` | src/cli/linear-request-builders.ts:94-98 | From one day to the next the getters move to the next date of the calendar |
| `DueDate.YearIsTheLastStarted` | src/cli/linear-request-builders.ts:94-95 | The year read from a time is the largest one that has started by then |
| `DueDate.MonthOpens` | src/cli/linear-request-builders.ts:93-93 | The day built for the first of a month, overflowing months included, is read back as the first of that month |
| `CliArgs.DispatchIsTotal` | src/cli/args.ts:251-327 | With no gaps between the registries, every argument list that parses, normalises and validates reaches the handler registered under a specification's own path |
| `CliArgs.ValidIsCanonical` | src/cli/args.ts:251-292 | What validation accepts after normalisation is some specification's own path, never an alias |
| `CliArgs.MixedUpExactlyWhenConfusable` | src/cli/args.ts:251-327 | For some argument list the flags are checked against one command and the handler of another runs, if and only if a path of some specification can be taken with a number of positionals which no earlier path takes first, while another specification answers first to its own path and knows those positionals |
| `CliArgs.AmbiguousRegistryMixesUp` | src/cli/args.ts:251-292 | A registry and an argument list for which that happens |
| `CliArgs.ValidatedSpecIsDispatched` | src/cli/args.ts:287-327 | It never happens when no specification answers to the path of another |
| `CliArgs.UnambiguousIsNotConfusable` | src/cli/args.ts:251-292 | A registry in which no specification answers to the path of another does not meet the condition for a mix-up |
| `CliArgs.ParseRoundTrip` | src/cli/args.ts:98-142 | Words, --name=value, --name alone and --name value are parsed back to what they mean, in order, repeated labels joined; before the command a flag has the next token for its value unless a registered path starts there and none starts after it |
| `CliArgs.EveryArgvSaysOneThing` | src/cli/args.ts:98-142 | Every argument list says such items in exactly one way, and is parsed as that |
| `CliArgs.UnderstoodMeans` | src/cli/args.ts:98-142 | What the items mean, flag by flag: a flag given alone is on, the last value counts, and all values of a repeatable label given since then count together; the command path is the words in order |
| `CliArgs.PreCommandFlagKeepsPath` | src/cli/args.ts:82-142 | A flag before the command does not swallow the first word of a registered command path |
| `CliArgs.CommandPathStartsAt` | src/cli/args.ts:82-96 | The cursor loop finds whether a command path begins here, flags between its words skipped |
| `CliArgs.ParseArgs` | src/cli/args.ts:98-142 | The token loop computes the recursive parse |
| `CliArgs.NormalizeCommandPositionals` | src/cli/args.ts:251-285 | The nested loops rewrite by the first path or alias that fits |
| `CliArgs.NormalizeMeans` | src/cli/args.ts:251-285 | When a path of a specification is the first that fits: every flag given keeps its value, each other positional becomes the flag of its name, and the conflicts are, in order, exactly the names given twice |
| `CliArgs.NothingFits` | src/cli/args.ts:251-285 | When no path fits, path, flags and conflicts stay as they are |
| `CliArgs.PositionalsBecomeFlags` | src/cli/args.ts:262-283 | Without conflicts each positional becomes the flag of its name and no other flag changes |
| `CliArgs.FindCommandSpec` | src/cli/args.ts:287-292 | A specification is found exactly when one has the path as its own or as an alias |
| `CliArgs.FirstIsFound` | src/cli/args.ts:287-292 | It is the first one that answers |
| `CliArgs.ValidateCommandAndFlags` | src/cli/args.ts:294-327 | The loop throws nothing exactly for what is valid; otherwise the path is unknown exactly if no specification answers to it, conflicts come before flags, and the flag named is the first one refused, for want of a text exactly if it is pairing-code or environment without one, as unknown exactly if it is neither global nor the command's own |
| `CliArgs.DiscoveryMatchesValidation` | src/cli/args.ts:202-213 | The flags shown and the flags accepted agree exactly for commands that are not passed through |
| `CliArgs.BuildHandlers` | src/cli/dispatch.ts:39-77 | A table holding exactly the registered handlers, or an error exactly when a key is registered twice |
| `CodexCommand.AssignmentPrefixIsNeutral` | src/cli/codex-command-classification.ts:271-307 | An unquoted assignment in front of a command of at most 31 words never changes how it is classified |
| `CodexCommand.PrefixedCommandIsItsFirst31Words` | src/cli/codex-command-classification.ts:271-307 | In front of a command of any length it makes the classifiers see the first 31 words |
| `CodexCommand.PrefixMattersExactly` | src/cli/codex-command-classification.ts:271-307 | In front of a command of any length it changes the classification if and only if the 32nd word decides whether the command is interactive; a command that is not interactive then becomes so, unless nothing but assignments and env come before that word |
| `CodexCommand.NonInteractiveStays` | src/cli/codex-command-classification.ts:220-267 | A codex command that is not interactive stays so whatever word is added |
| `CodexCommand.ThirtyTwoWordsCanChange` | src/cli/codex-command-classification.ts:220-286 | 31 is the most: a command of 32 words that is not interactive becomes so behind an assignment |
| `CodexCommand.OnlyLeadingWordsMatter` | src/cli/codex-command-classification.ts:271-307 | Two commands with the same first 32 words are classified alike |
| `CodexCommand.LimitTakesPrefixExactly` | src/cli/codex-command-classification.ts:86-122 | The limited tokenization is the front of the unlimited one, except exactly for limit zero with a word that whitespace ends |
| `CodexCommand.TokenizeLeadingShellWords` | src/cli/codex-command-classification.ts:86-122 | The character loop with its quote state yields the leading words, and stops early at the limit |
| `CodexCommand.StripShellLaunchPrefix` | src/cli/codex-command-classification.ts:141-170 | The shifting loops drop assignments, then env with its arguments |
| `CodexCommand.FindCodexSubcommand` | src/cli/codex-command-classification.ts:190-218 | The index loop finds the first word that no option takes |
| `CodexReading.SubcommandIsRead` | src/cli/codex-command-classification.ts:190-218 | Any list of options, written as switch, --flag=value or flag and value, is passed over; the first word behind it that is no option is the subcommand, a help or version flag stands for itself, and behind -- the next word is the prompt |
| `CodexReading.LaunchIsRead` | src/cli/codex-command-classification.ts:141-170 | Assignments in front are taken off and the command, if there is one, stays |
| `CodexReading.EnvLaunchIsRead` | src/cli/codex-command-classification.ts:141-170 | So is env with its settings, -u NAME, --unset NAME and other options |
| `CodexReading.NameMakesAssignment` | src/cli/codex-command-classification.ts:137-139 | A name of letters, digits and underscores, not starting with a digit, and = make an assignment |
| `CodexReading.NoAssignment` | src/cli/codex-command-classification.ts:137-139 | Nothing else does |
| `CodexReading.LineReads` | src/cli/codex-command-classification.ts:86-122 | A line of words made of plain and quoted pieces is read as the contents of its words |
| `CodexReading.PathIsRead` | src/cli/codex-command-classification.ts:124-127 | The executable is what follows the last slash of either kind |
| `CodexReading.OptionsOnly` | src/cli/codex-command-classification.ts:220-267 | codex with options alone is interactive |
| `CodexReading.CommandDecides` | src/cli/codex-command-classification.ts:220-267 | With options and then a word other than login and cloud, a codex command is interactive if and only if the word is none of the 25 one-shot commands |
| `CodexReading.LoginDecides` | src/cli/codex-command-classification.ts:220-249 | codex login is interactive if and only if no token behind it is --with-api-key, --with-access-token or help, and what follows its options is not status or help |
| `CodexReading.CloudDecides` | src/cli/codex-command-classification.ts:250-267 | codex cloud is interactive if and only if no token behind it is help or version, and what follows its options is none of its six commands |
| `CodexReading.HelpDecides` | src/cli/codex-command-classification.ts:220-267 | A help or version flag behind the options makes it one-shot |
| `CodexReading.PromptDecides` | src/cli/codex-command-classification.ts:220-267 | -- behind the options makes it interactive, with a prompt or without |
| `CodexReading.ClaudeDecides` | src/cli/codex-command-classification.ts:289-307 | claude is interactive if and only if no argument asks for help, version or print |
| `CodexReading.OthersAreNot` | src/cli/codex-command-classification.ts:271-307 | No other executable is of either class |
| `CodexReading.LineDecides` | src/cli/codex-command-classification.ts:271-307 | The class of a line is that of its first 32 words, with the launch prefix taken off, whatever blanks surround it |
| `ScriptLines.NormalizeCrlfScriptLineEndings` | src/main/hooks.ts:446-465 | The chunk loop replaces every CR LF pair by LF, in one pass from the left |
| `ScriptLines.PiecesComeOutWithLf` | src/main/hooks.ts:446-465 | Pieces without CR LF, put together with CR LF between them, come out with LF between them |
| `ScriptLines.IterateLfScriptLines` | src/main/hooks.ts:401-416 | The lines contain no LF, and joined with LF they are the same one-pass replacement |
| `ScriptLines.LinesAreDetermined` | src/main/hooks.ts:401-416 | No other list of lines would do |
| `ScriptLines.SecondPassIsIdleExactly` | src/main/hooks.ts:446-465 | Normalising twice is normalising once exactly when the script has no CR CR LF |
| `ScriptLines.CrlfLeftExactlyWhereCrCrLf` | src/main/hooks.ts:446-465 | A CR LF is left in the result exactly at the positions where CR CR LF of the script ended up |
| `ScriptLines.FixedExactlyWithoutCrlf` | src/main/hooks.ts:446-450 | A script comes back unchanged exactly when it has no CR LF |
| `ScriptLines.FindCrlf` | src/main/hooks.ts:447-447 | The first CR LF from a position on, or the end |
| `ChunkGuard.CollectReachableChunks` | build-plugins/plain-node-entry-guard.ts:27-50 | Exactly the chunks of the bundle reachable through static or dynamic imports, each once, cycles and missing files included |
| `ChunkGuard.AssertNoElectronRequire` | build-plugins/plain-node-entry-guard.ts:52-67 | It throws exactly when a reachable chunk requires electron, and names such a chunk |
| `FirstDescendant.Search` | native/computer-use-linux/runtime.py:586-606 | The search ends on any graph and however the runtime reuses identities, and a hit passes the test within the depth limit; if no proxy gets the identity of a visited one that was dropped, then on a tree it is the first hit among the first max_nodes of the recursive preorder cut at max_depth, and on a graph within both bounds whose nodes keep their proxies nothing is found exactly when nothing reachable passes |
| `FirstDescendant.Run` | native/computer-use-linux/runtime.py:586-606 | The loop with its stack and its set of identities computes the outcome |
| `FirstDescendant.HitIsSound` | native/computer-use-linux/runtime.py:586-606 | Whatever identities are reused, a node found passes, is reachable and lies within the depth limit |
| `FirstDescendant.FirstHitUnlessSkipped` | native/computer-use-linux/runtime.py:586-606 | On any graph: if no pop is skipped, the outcome is the first hit of the bounded preorder |
| `FirstDescendant.FirstHitOnTrees` | native/computer-use-linux/runtime.py:586-606 | On a tree without a reused identity no pop is skipped, so that is the outcome |
| `FirstDescendant.FirstHitExactly` | native/computer-use-linux/runtime.py:586-606 | On a tree within the node bound, whatever identities are reused: the outcome is the first hit of the preorder if and only if no skipped pop has a node that passes at it or below it |
| `FirstDescendant.NothingFoundExactly` | native/computer-use-linux/runtime.py:586-606 | On a graph within both bounds, without a reused identity and with lasting proxies, nothing is found exactly when nothing reachable passes |
| `FirstDescendant.ReusedIdentityMisses` | native/computer-use-linux/runtime.py:592-604 | A chain of four nodes that the search misses the last of, although every proxy differs from all that are alive with it: the last gets the identity of a dropped one |

## Left out

- Promotion.Promoter.Promote: says nothing about the source folder; published source files are unlinked one by one and are not put back by a rollback, and removing the temporary folder at the end is best effort.
- Promotion.Promoter.CopyFile: a third party's change made during the copy is not protected: a later write of the copy goes over it, and a later stat records it as promotion's own; when it survives a rollback is `Promotion.LastChangeSurvivesExactly`.
- KeyPair.Agreement: is stated for runs without a blind mint, because with one it is false; the exact condition is `KeyPair.KeyIsKeptExactlyWhenReadable`.
- KeyPair.Server.LoadOrCreate: a call without a key file, which returns a fresh key, and the warning text are not modelled.
- FirstDescendant.Search: when a proxy gets the identity of a dropped one, the exact condition is for trees within the node bound (`FirstDescendant.FirstHitExactly`); elsewhere only soundness is promised then. Without a hit, nothing is said of a graph larger than a bound in which a node can be met twice, as a node first met deep down is not expanded again nearer the root.
- FirstDescendant.NothingFoundExactly: needs nodes that keep their proxies; a cycle whose nodes get a new proxy at each visit is walked until a bound ends the search.
- CliArgs.ParseArgs: the insertion order of the flag map is not modelled; `CliArgs.ValidateCommandAndFlags`, where it decides which flag an error names, takes any order.
- CodexReading.LoginDecides: and the statements beside it speak of options from the tables of the source, which are constants here; `-u` as the last word of an `env` launch has no statement of its own.
- KeyPair.ThrowsExactly: counts the answers to the operations of one process; the waits between its tries are not modelled.
- AgentAwake.SleepAssertion.HandleFailure: how often a repeated failure is logged, and at which level, is not modelled.
- AgentAwake.AgentAwakeService.Refresh: exceptions out of an assertion's start and stop are not modelled; spawning and killing may fail.
- AgentAwake.AgentAwakeService.StaleTimerFired: a delay too long for the runtime's timer, which the runtime cuts short, is not modelled; nor are status times that are not whole milliseconds.
- IconQueue.DockIconQueue.DrainedShowsTheNewest: a command given up after its kill may still take effect later; what shows is said of commands that do their work and nothing else.
- Quoting.RoundTrip: starts after the runtime has taken the program's own name, whose quoting has rules of its own.
- OverlappingWrites.HistoryRecovers: one final path at a time; the generation check with which a save gives up before its rename appears as a rename that fails.
- Unsubscribing from power events on dispose: a resume is allowed at any time here.
- Flag suggestions and error texts of `src/cli/command-suggestion.ts`: the same ranking over a plain list.
- Backups, screens, menus, help texts, configuration, the WebSocket and encryption parts of the mock server, and the remaining functions of the files cited above.
- Shell-dependent behaviour in `src/main/hooks.ts`, and the accessibility and clipboard calls of the desktop runtimes.
- Tab compaction in `native/computer-use-linux/runtime.py`: indexes are not unique there, so there is no invariant to state.
