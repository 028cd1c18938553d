# Video transcoding queue: a Dafny model

This project models the task queue of the folder-watching video
compressor (`app.py`). Video files dropped into resolution folders
(`480/`, `720/`, `1080/`) under the watch root become `queued` task
records in a JSON store. A processor loop claims tasks one at a time,
runs the encoder, and writes the outcome back. A rotation policy archives
finished and failed tasks once the store is large and idle.

The file system, the encoder, the clock and the lock are abstracted away.
What remains is a set of sequential operations on an ordered list of task
records, plus two counter-driven state machines.

- `tasks.dfy` (module `Tasks`) holds the task record, the eight status
  values and the status groups, and the store-wide invariant that no two
  tasks share a fingerprint.
- `resolution.dfy` (module `Resolution`) is `detect_resolution_from_path`.
- `fingerprint.dfy` (module `Fingerprint`) is the byte window `fast_hash`
  feeds to md5. The digest is a function parameter.
- `ingestion.dfy` (module `Ingestion`) holds three pieces:
  - the dotfile/extension filter of `Handler.process`;
  - `wait_for_file_transfer` as a loop over a finite sequence of size
    readings;
  - `add_task` once the copy has settled.
- `rotation.dfy` (module `Rotation`) holds the debounce counter of
  `should_rotate_tasks` and the partition of `rotate_tasks`.
- `processor.dfy` (module `Processor`) holds the parts of
  `processor_loop`: the scan-and-claim, the outcome mapping of
  `process_video`, and the merge of the result into a freshly loaded store.
- `service.dfy` (module `Service`) is a class `TaskService`. It holds the
  persisted store, the rotation counter, the idle-cycle counter and the
  archives written so far. Its methods are the steps of the watcher and
  of the processor loop.

Inputs from the environment are parameters:
- file contents (`Option<seq<byte>>`, None when the file cannot be read);
- the file size reported by a separate stat call (`Option<nat>`, None when
  that call fails);
- the sequence of size polls;
- the digest function;
- timestamps (opaque strings);
- whether each archive write succeeds;
- how an encoder run ended (`EncoderRun`).

Two behaviours of the code are worth stating on their own:
- An unreadable file gets the empty fingerprint `""` (app.py:135-136).
  The duplicate test (app.py:294) compares against it like any other
  fingerprint, so a second unreadable file is skipped as a duplicate
  (`Ingestion.UnreadableFilesCollide`).
- Marking the claimed task `processing` is meant to keep it from being
  selected again (app.py:482), and the scan only selects pending tasks.
  Yet a claimed task can stay `processing` for good. An exception raised
  at app.py:376, before the encoder's `try`, escapes process_video and is
  caught by the loop's handler (app.py:505-507), so nothing is merged. The
  next pass then claims another task, and two tasks are `processing`
  (`Processor.OrphanedClaimAllowsTwoProcessing`). When no exception
  escapes, the round hands the slot back and the `processing` count
  returns to its value before the claim
  (`Processor.CompletedRoundKeepsProcessingCount`).

## Model

| member | source | states |
|---|---|---|
| Resolution.FirstSegment | app.py:144 | The result is a separator-free prefix of the path, followed by a separator or the end of the path: the first element of `split(os.sep)`. |
| Resolution.DetectResolution | app.py:138-150 | Some(d) only for a folder name d where the path is d or starts with d and a separator. None exactly when the path lies in no resolution folder. |
| Resolution.DetectInsideFolder | app.py:144-148 | Every path inside a resolution folder d is classified as d. |
| Resolution.DetectAtRoot | app.py:144-150 | A path without a separator is classified only if it is itself a folder name. |
| Resolution.OutsideFolder | app.py:144-148 | A path whose first segment is not the folder name lies outside that folder. |
| Resolution.DetectExampleInside | app.py:144-148 | `720/clip.mp4` gives 720. |
| Resolution.DetectExampleRoot | app.py:144-150 | `clip.mp4`, at the watch root, gives None. |
| Resolution.DetectExampleOther | app.py:144-150 | `2160/clip.mp4`, in a folder that is not a resolution folder, gives None. |
| Fingerprint.DecimalDigits | app.py:133 | `str(size).encode()` is non-empty, all ASCII digits, with no leading zero. |
| Fingerprint.DecimalRoundTrip | app.py:133 | Reading the decimal digits back gives the size. |
| Fingerprint.HashInput | app.py:125-133 | The digest input has a stated length. It starts with the first window. For files over 128 KiB the last 64 KiB follow. It ends with the decimal size. |
| Fingerprint.FastHash | app.py:119-136 | The fingerprint is "" when the file cannot be read. Otherwise it is the digest of the selected bytes. |
| Fingerprint.SameWindowsSameFingerprint | app.py:125-133 | Two files of equal size that agree on the windows read get the same fingerprint, whatever the digest. |
| Fingerprint.DigitsMonotone | app.py:133 | A larger size never has fewer decimal digits. |
| Fingerprint.SameInputSameWindows | app.py:125-133 | Equal digest inputs mean equal sizes, equal first windows and, for files over 128 KiB, equal last windows. This is the converse of SameWindowsSameFingerprint. |
| Fingerprint.SmallFileFullyCovered | app.py:126-127 | For files of at most 64 KiB the digest input determines the whole content. |
| Fingerprint.EmptyFingerprintIffUnreadable | app.py:119-136 | With a digest that never yields "", as md5's hexdigest never does, the fingerprint is "" exactly when the file cannot be read, so a readable file never shares its fingerprint with an unreadable one. |
| Fingerprint.UnreadBytesIgnored | app.py:126-132 | A byte outside both windows does not affect the fingerprint. |
| Ingestion.BaseName | app.py:320 | `os.path.basename` is the separator-free suffix after the last separator. |
| Ingestion.LastDot | app.py:332 | The index of the last dot, or None when there is no dot. |
| Ingestion.Extension | app.py:332 | `splitext` gives "" or a suffix of the name that starts at the last dot and has a non-dot character somewhere before it. It gives "" exactly when there is no dot or only dots precede the last one. |
| Ingestion.Lower | app.py:332 | Lower-casing keeps the length and lower-cases each character (ASCII). |
| Ingestion.IsVideoCandidate | app.py:318-335 | The file test: the base name does not start with a dot, and its splitext extension, lower-cased, is a video extension. A file without an extension is never taken. |
| Ingestion.VideoCandidateIff | app.py:320-335 | A file is taken exactly when its name does not start with a dot and ends, case-insensitively, in a video extension that has a character before it. |
| Ingestion.RootFileUnclassified | app.py:279-284 | A video file directly under the watch root passes the filter but gets no resolution, so it is skipped. |
| Ingestion.WaitForFileTransfer | app.py:248-268 | Succeeds exactly when the polls settle, at the first poll that closes four equal non-zero sizes. Fails at the first missing reading. No earlier poll did either. |
| Ingestion.StableIffThreeMatches | app.py:259-263 | A poll closes a stable run exactly when the counter of repeated non-zero sizes has reached three. |
| Ingestion.NeverStable | app.py:255-257 | Once the file is seen missing before any stable run, the polls never settle. |
| Ingestion.FileSize | app.py:79-83 | The size from a separate stat call, or 0 when that call fails. |
| Ingestion.Ingest | app.py:279-313 | The store is unchanged exactly when there is no resolution or the fingerprint is already known. Otherwise exactly one `queued` task is appended with the stated fields, including the size from the separate stat call, and earlier tasks untouched. Fingerprint uniqueness is preserved. |
| Ingestion.IngestIdempotent | app.py:293-296 | Delivering the same content again, under any path, leaves the store unchanged. |
| Ingestion.UnreadableFilesCollide | app.py:290-296 | After one unreadable file is queued, every later unreadable file is skipped as a duplicate. |
| Rotation.RotationCheck | app.py:155-184 | The counter stays in 0..4. It resets and does not fire on a small store or one with an active task. It fires only on a qualifying store, resetting to 0. |
| Rotation.CounterTracksStreak | app.py:162-183 | Over any history of checks, the counter equals the current run of qualifying checks modulo 5. |
| Rotation.FiresOnEveryFifthQuiescentCheck | app.py:155-184 | From a reset counter, rotation fires exactly on the 5th, 10th, … consecutive qualifying check. |
| Rotation.Keep | app.py:204-205 | A filtered group is no longer than the store, and every task in it has a status of the group. |
| Rotation.KeepCounts | app.py:204-205 | A group holds each task of its statuses as often as the store does, and no other task. |
| Rotation.KeepConcat | app.py:204-205 | Filtering distributes over concatenation, so the original order is kept. |
| Rotation.PartitionExact | app.py:201-205 | The error and processed groups are disjoint. Together with the active tasks they make up the store. With no active task the two groups cover it. |
| Rotation.GroupsDisjoint | app.py:201-205 | No task is both in the error group and in the processed group. |
| Rotation.GroupsCover | app.py:201-205 | The error, processed and active groups together hold exactly the tasks of the store. |
| Rotation.NoActiveGroup | app.py:201-205 | A store with no active task has an empty active group. |
| Rotation.RotateTasks | app.py:186-232 | The store is emptied. An archive is written exactly when its group is non-empty and its write succeeds, and then it holds that group. The two archives are independent. Nothing is archived that was not in the store. |
| Rotation.RotationLosesOnlyActive | app.py:201-230 | With both writes succeeding, archived plus active tasks equal the store. On an idle store nothing is lost. |
| Rotation.FiredRotationLosesNothing | app.py:234-243 | When the check fires and both writes succeed, the archives hold exactly the tasks of the store. |
| Processor.Scan | app.py:465-479 | The scan keeps the store's length and picks an index inside it. ScanSpec states the rest. |
| Processor.ScanSpec | app.py:465-479 | The first claimable task is picked with its resolution repaired. Pending tasks before it become error_no_resolution. Later tasks are untouched. |
| Processor.ScanPassesOver | app.py:465-476 | Passing over a task that cannot be claimed rejects it and shifts the pick by one. |
| Processor.ScanPickClaimable | app.py:465-479 | The task picked is claimable. |
| Processor.ScanPickResolved | app.py:468-472 | The task picked is stored with its resolution repaired from the path when it had none. |
| Processor.ScanPickKeepsRest | app.py:478-479 | The scan stops at the pick, so the tasks after it are untouched. |
| Processor.ScanRejectsBefore | app.py:465-476 | Every task before the pick, or every task when nothing is picked, is not claimable and is marked error_no_resolution if pending. |
| Processor.SelectCandidate | app.py:465-479 | The scan loop computes exactly `Scan`. |
| Processor.ClaimNext | app.py:465-485 | A claim names an index inside the store to save, and the claimed task is stored there. ClaimNextSpec states the rest. |
| Processor.ClaimNextSpec | app.py:465-485 | Idle exactly when no task is claimable. Otherwise the first claimable task becomes `processing` with its start time and a set resolution. Earlier pending tasks are rejected, later ones unchanged, and every identity is kept. |
| Processor.ScanKeepsIdentity | app.py:465-479 | The scan keeps every task's path and fingerprint. |
| Processor.ClaimedNeverDefaults | app.py:377 | A claimed task always has a non-empty resolution, so the "1080" default is never used. |
| Processor.ProcessingCountUpdate | app.py:483 | Replacing one task changes the `processing` count by that task's contribution. |
| Processor.ProcessingCountPointwise | app.py:465-479 | Two stores of equal length that agree, task by task, on which tasks are `processing` have equal `processing` counts. |
| Processor.ClaimAddsOneProcessing | app.py:481-485 | A claim adds exactly one `processing` task. |
| Processor.ProcessVideo | app.py:366-454 | Missing input gives error_missing_input. Exit 0 gives processed with end time, output size and elapsed time. Non-zero exit gives failed. An encoder exception gives error_exception. An exception before the encoder starts escapes with no result. Identity is always kept. |
| Processor.FirstMatch | app.py:493-496 | The first index whose path and fingerprint match, or None when no task matches. |
| Processor.MergeResult | app.py:492-497 | Only the first matching task is overwritten. Length, order and every other task are unchanged. |
| Processor.Merge | app.py:492-497 | The merge loop computes exactly `MergeResult`. |
| Processor.MergeKeepsAppended | app.py:490-497 | Tasks appended while the encoder ran are kept, unchanged, after the merged ones. |
| Processor.FirstMatchAppend | app.py:493-496 | Appending tasks does not move the first match of a task already present. |
| Processor.MergeHitsOwnTask | app.py:493-496 | With unique fingerprints the merge overwrites the task it was claimed from. |
| Processor.ClaimKeepsFingerprints | app.py:465-485 | Claiming keeps fingerprint uniqueness. |
| Processor.MergeKeepsFingerprints | app.py:492-497 | Merging keeps fingerprint uniqueness. |
| Processor.ProcessingRound | app.py:481-497 | One round of claim, process and merge lands a terminal status on the claimed task. Tasks appended meanwhile follow unchanged. |
| Processor.CompletedRoundKeepsProcessingCount | app.py:481-497 | With unique fingerprints, a round in which no exception escapes process_video leaves the `processing` count where it was before the claim. |
| Processor.OrphanedClaimAllowsTwoProcessing | app.py:481-507 | An exception raised in process_video before the encoder starts (line 376) leaves the claimed task `processing`. The next pass claims another task, giving two `processing` tasks. |
| Service.TaskService.constructor | app.py:456-458 | A new service starts with both counters at 0 and no archives. |
| Service.TaskService.HandleFile | app.py:270-335 | A file that passes the filter and whose copy settles is ingested. Otherwise the store is unchanged. Fingerprint uniqueness is preserved. |
| Service.TaskService.CheckAndRotate | app.py:234-243 | The counter and the firing follow `RotationCheck`. When rotation fires, the archives written are appended and the store is emptied. Otherwise nothing changes. A firing with both writes succeeding archives every task. Uniqueness is kept. |
| Service.TaskService.ProcessorStep | app.py:459-503 | Either the `ClaimNext` claim is saved and nothing else changes, or the idle counter increases and every 4th idle cycle runs the rotation check. An idle pass does not save the scan's markings. The whole new state is given in each case. Uniqueness is kept. |
| Service.TaskService.Complete | app.py:492-497 | The finished task is merged into the current store, and uniqueness is kept. |
| Service.TaskService.FinishClaim | app.py:488-497 | The claimed task is processed. Its outcome is merged into the current store, unless an exception escaped, and then the store is unchanged. Uniqueness is kept. |
| Service.TaskService.ProcessorIteration | app.py:459-507 | A claiming pass saves the claim, then merges the outcome into the saved store, and no counter or archive changes. With unique fingerprints the outcome lands on the claimed task. An escaping exception leaves the claimed store as saved. An idle pass is ProcessorStep's idle step. |

## Left out

- Loading and saving the JSON task file, the temporary file and the atomic replace (app.py:96-117) are file I/O. The store is an in-memory sequence. A corrupt or missing file reading as an empty list is not modelled.
- Archive file writes (app.py:208-227) are reduced to a success flag per group. File names and timestamps are not modelled.
- md5 itself (app.py:122) is a library call, so the digest is a parameter over the selected bytes.
- ffprobe, ffmpeg, progress parsing and percentages (app.py:384-435) are external processes. `round(…, 2)` (app.py:444) is float arithmetic. An encoder run is an input (`EncoderRun`), and the elapsed time is taken as given.
- Notifications (app.py:85-94), logging and `now()` (app.py:76-77) are side effects. Timestamps are opaque string parameters.
- The watchdog observer, threads, sleeps and the start-up code (app.py:345-361, 509-538) are runtime plumbing, as is the directory expansion through `os.walk` (app.py:323-330). The model handles one file event at a time.
- The data lock and every interleaving (app.py:39) are left out. The service is one sequential actor. Two consequences are therefore not captured: tasks appended between a load and a save are lost (app.py:461-485, 492-497), and `rotate_tasks` blocks because it takes the non-reentrant lock (app.py:193) and then takes it again inside `load_tasks` (app.py:97).
- The encoder profiles (app.py:41-57) are configuration data with no logic.
- Tasks: status strings other than the eight known ones, missing keys, and JSON `null` values are not represented. An absent resolution and `null` are both None.
- Ingestion.Lower: only ASCII letters are lower-cased. Python's `str.lower` also folds non-ASCII letters.
- Ingestion.WaitForFileTransfer: the polls are a finite sequence. Running out of readings yields `StillCopying`, whereas the source would keep polling. Errors other than a missing file are not modelled.
- Processor.ProcessVideo: exceptions inside the encoder's `try` are modelled as error_exception (`EncoderRaised`, app.py:452-454). Of the exceptions that escape process_video, only one raised at app.py:376 (`SetupRaised`) is modelled. Another escape point, such as the profile lookup at app.py:367, would have the same effect but is not named. Failures elsewhere in the loop body (app.py:461-503) are not modelled.
- Fingerprint.FastHash: the size and the bytes come from one snapshot of the file. In app.py:123-133 the size and the reads are separate calls, so a file that changes between them is not modelled.
