/**
 * The processor's view of the store: selecting and claiming the next
 * task, mapping an encoder run to the task's final status, and merging
 * the finished task back into a freshly loaded store.
 */
module Processor {
  import opened Tasks
  import opened Resolution

  // ---------------------------------------------------------------------
  // Selecting the next task (the scan of processor_loop)
  // ---------------------------------------------------------------------

  /** A pending task whose resolution is set or can be derived from its path. */
  predicate Claimable(t: Task) {
    t.status.IsPending() && (HasResolution(t) || DetectResolution(t.path).Some?)
  }

  /** The task as the scan leaves it when it picks it: resolution repaired from the path if unset. */
  function Resolved(t: Task): Task {
    if HasResolution(t) then t else t.(resolution := DetectResolution(t.path))
  }

  /** The task as the scan leaves it when it passes over it: a pending task becomes error_no_resolution. */
  function Rejected(t: Task): Task {
    if t.status.IsPending() then t.(status := ErrorNoResolution) else t
  }

  /** The scanned list and the index of the task picked, if any. */
  datatype ScanResult = ScanResult(tasks: seq<Task>, chosen: Option<nat>)

  /** The scan of processor_loop over the loaded store: the updated list and the pick. */
  function Scan(ts: seq<Task>): (r: ScanResult)
    ensures |r.tasks| == |ts|
    ensures r.chosen.Some? ==> r.chosen.value < |ts|
  {
    if ts == [] then ScanResult([], None)
    else if Claimable(ts[0]) then ScanResult([Resolved(ts[0])] + ts[1..], Some(0))
    else
      var rest := Scan(ts[1..]);
      ScanResult([Rejected(ts[0])] + rest.tasks, if rest.chosen.Some? then Some(rest.chosen.value + 1) else None)
  }

  /**
   * What the scan does: the first claimable task is picked (with its
   * resolution repaired), every task before it that is pending is marked
   * error_no_resolution, and everything after it is untouched. With no
   * claimable task every pending task is marked.
   */
  lemma ScanSpec(ts: seq<Task>)
    ensures var r := Scan(ts);
      r.chosen.Some? ==>
        var k := r.chosen.value;
        && Claimable(ts[k])
        && r.tasks[k] == Resolved(ts[k])
        && forall j :: k < j < |ts| ==> r.tasks[j] == ts[j]
    ensures var r := Scan(ts);
      forall j :: 0 <= j < |ts| && (r.chosen.None? || j < r.chosen.value) ==>
        !Claimable(ts[j]) && r.tasks[j] == Rejected(ts[j])
  {
    ScanPickClaimable(ts);
    ScanPickResolved(ts);
    ScanPickKeepsRest(ts);
    ScanRejectsBefore(ts);
  }

  /** One step of the scan past a task it cannot claim: that task is rejected and the pick shifts by one. */
  lemma ScanPassesOver(ts: seq<Task>)
    requires ts != [] && !Claimable(ts[0])
    ensures var r, rest := Scan(ts), Scan(ts[1..]);
      && r.tasks == [Rejected(ts[0])] + rest.tasks
      && r.chosen.Some? == rest.chosen.Some?
      && (r.chosen.Some? ==> r.chosen.value == rest.chosen.value + 1)
  {
  }

  /** The task picked is claimable. */
  lemma {:induction false} ScanPickClaimable(ts: seq<Task>)
    ensures var r := Scan(ts);
      r.chosen.Some? ==> Claimable(ts[r.chosen.value])
  {
    if ts != [] && !Claimable(ts[0]) {
      ScanPickClaimable(ts[1..]);
      ScanPassesOver(ts);
      var r, rest := Scan(ts), Scan(ts[1..]);
      if r.chosen.Some? {
        assert ts[r.chosen.value] == ts[1..][rest.chosen.value];
      }
    }
  }

  /** The task picked is stored with its resolution repaired. */
  lemma {:induction false} ScanPickResolved(ts: seq<Task>)
    ensures var r := Scan(ts);
      r.chosen.Some? ==> r.tasks[r.chosen.value] == Resolved(ts[r.chosen.value])
  {
    if ts != [] && !Claimable(ts[0]) {
      ScanPickResolved(ts[1..]);
      ScanPassesOver(ts);
      var r, rest := Scan(ts), Scan(ts[1..]);
      if r.chosen.Some? {
        var k := r.chosen.value;
        assert r.tasks[k] == rest.tasks[k - 1];
        assert ts[k] == ts[1..][k - 1];
      }
    }
  }

  /** The tasks after the pick are untouched. */
  lemma {:induction false} ScanPickKeepsRest(ts: seq<Task>)
    ensures var r := Scan(ts);
      r.chosen.Some? ==> forall j :: r.chosen.value < j < |ts| ==> r.tasks[j] == ts[j]
  {
    if ts == [] {
    } else if Claimable(ts[0]) {
      var r := Scan(ts);
      forall j | 0 < j < |ts| ensures r.tasks[j] == ts[j] {
        assert r.tasks[j] == ts[1..][j - 1];
      }
    } else {
      ScanPickKeepsRest(ts[1..]);
      ScanPassesOver(ts);
      var r, rest := Scan(ts), Scan(ts[1..]);
      if r.chosen.Some? {
        forall j | r.chosen.value < j < |ts| ensures r.tasks[j] == ts[j] {
          assert r.tasks[j] == rest.tasks[j - 1] && ts[j] == ts[1..][j - 1];
        }
      }
    }
  }

  /** Every task before the pick, or every task when nothing is picked, is unclaimable and rejected. */
  lemma {:induction false} ScanRejectsBefore(ts: seq<Task>)
    ensures var r := Scan(ts);
      forall j :: 0 <= j < |ts| && (r.chosen.None? || j < r.chosen.value) ==>
        !Claimable(ts[j]) && r.tasks[j] == Rejected(ts[j])
  {
    if ts != [] && !Claimable(ts[0]) {
      var r, rest := Scan(ts), Scan(ts[1..]);
      ScanRejectsBefore(ts[1..]);
      ScanPassesOver(ts);
      assert forall j :: 1 <= j < |ts| ==> r.tasks[j] == rest.tasks[j - 1] && ts[j] == ts[1..][j - 1];
    }
  }

  /**
   * The scan loop of processor_loop, updating the loaded list in place;
   * it computes exactly Scan.
   */
  method SelectCandidate(tasks: seq<Task>) returns (scanned: seq<Task>, chosen: Option<nat>)
    ensures ScanResult(scanned, chosen) == Scan(tasks)
  {
    scanned, chosen := tasks, None;
    var i := 0;
    while i < |scanned|
      invariant 0 <= i <= |tasks| && |scanned| == |tasks|
      invariant forall j :: 0 <= j < i ==> !Claimable(tasks[j]) && scanned[j] == Rejected(tasks[j])
      invariant forall j :: i <= j < |tasks| ==> scanned[j] == tasks[j]
    {
      var task := scanned[i];
      if task.status.IsPending() {
        if !HasResolution(task) {
          var resolution := DetectResolution(task.path);
          if resolution.Some? {
            task := task.(resolution := resolution);
          } else {
            scanned := scanned[i := task.(status := ErrorNoResolution)];
            i := i + 1;
            continue;
          }
        }
        scanned := scanned[i := task];
        chosen := Some(i);
        break;
      }
      i := i + 1;
    }
    var spec := Scan(tasks);
    ScanSpec(tasks);
    if chosen.Some? {
      assert chosen.value == i && Claimable(tasks[i]) && scanned[i] == Resolved(tasks[i]);
      assert spec.chosen == Some(i);
    } else {
      assert i == |tasks|;
    }
    forall j | 0 <= j < |tasks| ensures scanned[j] == spec.tasks[j] {
    }
    assert scanned == spec.tasks;
  }

  // ---------------------------------------------------------------------
  // Claiming the selected task
  // ---------------------------------------------------------------------

  /**
   * The outcome of one selection pass: a claimed task with the store to
   * save, or nothing to do (and then the scan's markings are not saved).
   */
  datatype Claim = Claimed(store: seq<Task>, index: nat, task: Task) | Idle

  /** Select and claim: the claimed task is the one at `index` in the store to save. */
  function ClaimNext(ts: seq<Task>, startTime: string): (r: Claim)
    ensures r.Claimed? ==> r.index < |ts| && |r.store| == |ts| && r.store[r.index] == r.task
  {
    var s := Scan(ts);
    match s.chosen
    case None => Idle
    case Some(k) =>
      var task := s.tasks[k].(status := Processing, startTime := startTime);
      Claimed(s.tasks[k := task], k, task)
  }

  /**
   * What a claim does: the first claimable task in store order becomes
   * `processing` with its start time and a set resolution; every earlier
   * pending task (whose resolution is unset and underivable) becomes
   * error_no_resolution; all other tasks are unchanged, and every task
   * keeps its identity. Nothing is claimed exactly when no task is
   * claimable.
   */
  lemma ClaimNextSpec(ts: seq<Task>, startTime: string)
    ensures var r := ClaimNext(ts, startTime);
      r.Idle? <==> forall j :: 0 <= j < |ts| ==> !Claimable(ts[j])
    ensures var r := ClaimNext(ts, startTime);
      r.Claimed? ==>
        var k := r.index;
        && Claimable(ts[k]) && (forall j :: 0 <= j < k ==> !Claimable(ts[j]))
        && r.task.status == Processing && r.task.startTime == startTime
        && HasResolution(r.task)
        && r.task == Resolved(ts[k]).(status := Processing, startTime := startTime)
        && (forall j :: 0 <= j < k ==> r.store[j] == Rejected(ts[j]))
        && (forall j :: k < j < |ts| ==> r.store[j] == ts[j])
        && (forall j :: 0 <= j < |ts| ==> SameIdentity(r.store[j], ts[j]))
  {
    var s := Scan(ts);
    ScanSpec(ts);
    ScanKeepsIdentity(ts);
    var r := ClaimNext(ts, startTime);
    if r.Claimed? {
      var k := r.index;
      forall j | 0 <= j < |ts| ensures SameIdentity(r.store[j], ts[j]) {
        assert SameIdentity(s.tasks[j], ts[j]);
      }
    }
  }

  /** The scan changes statuses and resolutions only: every task keeps its path and fingerprint. */
  lemma ScanKeepsIdentity(ts: seq<Task>)
    ensures forall j :: 0 <= j < |ts| ==> SameIdentity(Scan(ts).tasks[j], ts[j])
  {
    var s := Scan(ts);
    ScanSpec(ts);
    forall j | 0 <= j < |ts| ensures SameIdentity(s.tasks[j], ts[j]) {
      if s.chosen.Some? && j == s.chosen.value {
        assert s.tasks[j] == Resolved(ts[j]);
      } else if s.chosen.Some? && j > s.chosen.value {
        assert s.tasks[j] == ts[j];
      } else {
        assert s.tasks[j] == Rejected(ts[j]);
      }
    }
  }

  /** The resolution passed to the encoder: the task's own, or "1080" when the key is absent. */
  function EncoderHeight(t: Task): string {
    if t.resolution.Some? then t.resolution.value else "1080"
  }

  /** A claimed task always carries a non-empty resolution, so the "1080" default is never used. */
  lemma ClaimedNeverDefaults(ts: seq<Task>, startTime: string)
    requires ClaimNext(ts, startTime).Claimed?
    ensures var t := ClaimNext(ts, startTime).task;
      t.resolution.Some? && t.resolution.value != "" && EncoderHeight(t) == t.resolution.value
  {
    ClaimNextSpec(ts, startTime);
  }

  /** Changing one task changes the processing count by what that task contributes. */
  lemma {:induction false} ProcessingCountUpdate(ts: seq<Task>, k: nat, t: Task)
    requires k < |ts|
    ensures ProcessingCount(ts[k := t]) ==
      ProcessingCount(ts) - (if ts[k].status.Processing? then 1 else 0) + (if t.status.Processing? then 1 else 0)
  {
    var n := |ts| - 1;
    if k < n {
      assert ts[k := t][..n] == ts[..n][k := t];
      ProcessingCountUpdate(ts[..n], k, t);
    } else {
      assert ts[k := t][..n] == ts[..n];
    }
  }

  /** Two stores that agree, task by task, on which tasks are processing have the same count. */
  lemma {:induction false} ProcessingCountPointwise(a: seq<Task>, b: seq<Task>)
    requires |a| == |b|
    requires forall j :: 0 <= j < |a| ==> (a[j].status.Processing? <==> b[j].status.Processing?)
    ensures ProcessingCount(a) == ProcessingCount(b)
  {
    if a != [] {
      ProcessingCountPointwise(a[..|a| - 1], b[..|b| - 1]);
    }
  }

  /**
   * A claim adds exactly one processing task: a store with none has
   * exactly one afterwards.
   */
  lemma ClaimAddsOneProcessing(ts: seq<Task>, startTime: string)
    requires ClaimNext(ts, startTime).Claimed?
    ensures ProcessingCount(ClaimNext(ts, startTime).store) == ProcessingCount(ts) + 1
  {
    var s := Scan(ts);
    var k := s.chosen.value;
    ScanSpec(ts);
    ProcessingCountPointwise(ts, s.tasks);
    ProcessingCountUpdate(s.tasks, k, ClaimNext(ts, startTime).task);
  }

  // ---------------------------------------------------------------------
  // process_video, reduced to its effect on the task record
  // ---------------------------------------------------------------------

  /**
   * What happened when the task was processed: the input file was
   * missing; an exception escaped before the encoder was started (creating
   * the output folder, at the top of process_video); an exception was
   * raised while running or monitoring the encoder; or the encoder exited
   * with `code`, leaving an output of `sizeAfter` bytes after `elapsed`
   * seconds, finishing at `endTime`.
   */
  datatype EncoderRun =
    | InputMissing
    | SetupRaised
    | EncoderRaised
    | Exited(code: int, endTime: string, sizeAfter: nat, elapsed: real)

  /** Whether the encoder is started at all for this run. */
  predicate EncoderStarted(run: EncoderRun) {
    run.EncoderRaised? || run.Exited?
  }

  /**
   * process_video on a claimed task. None when an exception escapes to
   * the processor loop, which then merges nothing. Otherwise the updated
   * task: same identity, resolution, times and sizes except what the
   * outcome sets, and a terminal status chosen by the outcome.
   */
  function ProcessVideo(t: Task, run: EncoderRun): (r: Option<Task>)
    ensures r.None? <==> run.SetupRaised?
    ensures r.Some? ==>
      var u := r.value;
      && SameIdentity(u, t)
      && u.resolution == t.resolution && u.addedTime == t.addedTime
      && u.startTime == t.startTime && u.sizeBefore == t.sizeBefore
      && (u.status == ErrorMissingInput <==> !EncoderStarted(run))
      && (u.status == ErrorException <==> run.EncoderRaised?)
      && (u.status == Processed <==> run.Exited? && run.code == 0)
      && (u.status == Failed <==> run.Exited? && run.code != 0)
      && (u.status.Processed? || u.status.IsError())
    ensures r.Some? && r.value.status == Processed ==>
      r.value.endTime == run.endTime && r.value.sizeAfter == run.sizeAfter && r.value.timeTaken == run.elapsed
    ensures r.Some? && r.value.status != Processed ==>
      r.value == t.(status := r.value.status)
  {
    match run
    case InputMissing => Some(t.(status := ErrorMissingInput))
    case SetupRaised => None
    case EncoderRaised => Some(t.(status := ErrorException))
    case Exited(code, endTime, sizeAfter, elapsed) =>
      if code == 0 then Some(t.(status := Processed, endTime := endTime, sizeAfter := sizeAfter, timeTaken := elapsed))
      else Some(t.(status := Failed))
  }

  // ---------------------------------------------------------------------
  // Merging the result into the freshly loaded store
  // ---------------------------------------------------------------------

  /** The index of the first task of `ts` with the identity of `done`, if any. */
  function FirstMatch(ts: seq<Task>, done: Task): (r: Option<nat>)
    ensures r.Some? ==>
      r.value < |ts| && SameIdentity(ts[r.value], done) &&
      forall j :: 0 <= j < r.value ==> !SameIdentity(ts[j], done)
    ensures r.None? ==> forall j :: 0 <= j < |ts| ==> !SameIdentity(ts[j], done)
  {
    if ts == [] then None
    else if SameIdentity(ts[0], done) then Some(0)
    else
      var rest := FirstMatch(ts[1..], done);
      if rest.Some? then Some(rest.value + 1) else None
  }

  /**
   * The merged store: the first task with the identity of `done` is
   * overwritten by it; length, order and every other task are unchanged;
   * without a match nothing changes.
   */
  function MergeResult(ts: seq<Task>, done: Task): (r: seq<Task>)
    ensures |r| == |ts|
    ensures forall j :: 0 <= j < |ts| && Some(j) != FirstMatch(ts, done) ==> r[j] == ts[j]
    ensures FirstMatch(ts, done).Some? ==> r[FirstMatch(ts, done).value] == done
  {
    match FirstMatch(ts, done)
    case None => ts
    case Some(k) => ts[k := done]
  }

  /** The merge loop of processor_loop (`t.update(task_to_run)` on the first match); it computes MergeResult. */
  method Merge(current: seq<Task>, done: Task) returns (merged: seq<Task>)
    ensures merged == MergeResult(current, done)
  {
    merged := current;
    var i := 0;
    while i < |merged|
      invariant 0 <= i <= |current| && merged == current
      invariant forall j :: 0 <= j < i ==> !SameIdentity(current[j], done)
    {
      if merged[i].path == done.path && merged[i].md5 == done.md5 {
        merged := merged[i := done];
        assert FirstMatch(current, done) == Some(i);
        return;
      }
      i := i + 1;
    }
  }

  /** Tasks appended to the store while the encoder ran are kept, after the merged ones. */
  lemma MergeKeepsAppended(ts: seq<Task>, appended: seq<Task>, done: Task)
    requires FirstMatch(ts, done).Some?
    ensures MergeResult(ts + appended, done) == MergeResult(ts, done) + appended
  {
    var k := FirstMatch(ts, done).value;
    FirstMatchAppend(ts, appended, done);
    assert (ts + appended)[k := done] == ts[k := done] + appended;
  }

  /** A match in `ts` is found before anything appended to it is looked at. */
  lemma {:induction false} FirstMatchAppend(ts: seq<Task>, appended: seq<Task>, done: Task)
    requires FirstMatch(ts, done).Some?
    ensures FirstMatch(ts + appended, done) == FirstMatch(ts, done)
  {
    assert (ts + appended)[0] == ts[0];
    if !SameIdentity(ts[0], done) {
      assert (ts + appended)[1..] == ts[1..] + appended;
      FirstMatchAppend(ts[1..], appended, done);
    }
  }

  /** When fingerprints are unique, the merge overwrites the task with the same fingerprint and path. */
  lemma MergeHitsOwnTask(ts: seq<Task>, k: nat, done: Task)
    requires UniqueFingerprints(ts)
    requires k < |ts| && SameIdentity(ts[k], done)
    ensures MergeResult(ts, done) == ts[k := done]
  {
    var m := FirstMatch(ts, done);
    assert m.Some? && m.value <= k;
    assert ts[m.value].md5 == ts[k].md5;
  }

  /** Scanning and claiming keep every fingerprint in place, so uniqueness survives a claim. */
  lemma ClaimKeepsFingerprints(ts: seq<Task>, startTime: string)
    requires UniqueFingerprints(ts)
    requires ClaimNext(ts, startTime).Claimed?
    ensures UniqueFingerprints(ClaimNext(ts, startTime).store)
  {
    var store := ClaimNext(ts, startTime).store;
    ClaimNextSpec(ts, startTime);
    forall i, j | 0 <= i < j < |store| ensures store[i].md5 != store[j].md5 {
      assert SameIdentity(store[i], ts[i]) && SameIdentity(store[j], ts[j]);
    }
  }

  /**
   * One processing round when the store has unique fingerprints: claim,
   * process, let any tasks be appended meanwhile, and merge. The result
   * lands on the claimed task, with a terminal status, and the appended
   * tasks follow unchanged.
   */
  lemma ProcessingRound(ts: seq<Task>, startTime: string, run: EncoderRun, appended: seq<Task>)
    requires UniqueFingerprints(ts)
    requires ClaimNext(ts, startTime).Claimed?
    requires ProcessVideo(ClaimNext(ts, startTime).task, run).Some?
    ensures var c := ClaimNext(ts, startTime);
      var done := ProcessVideo(c.task, run).value;
      && MergeResult(c.store + appended, done) == c.store[c.index := done] + appended
      && !done.status.IsActive()
  {
    var c := ClaimNext(ts, startTime);
    var done := ProcessVideo(c.task, run).value;
    ClaimKeepsFingerprints(ts, startTime);
    MergeHitsOwnTask(c.store, c.index, done);
    MergeKeepsAppended(c.store, appended, done);
  }

  /**
   * A round in which no exception escapes hands the work slot back: the
   * claim adds one `processing` task and the merged outcome, which is
   * never active, replaces exactly that task, so the count returns to
   * what it was before the claim.
   */
  lemma CompletedRoundKeepsProcessingCount(ts: seq<Task>, startTime: string, run: EncoderRun)
    requires UniqueFingerprints(ts)
    requires ClaimNext(ts, startTime).Claimed?
    requires ProcessVideo(ClaimNext(ts, startTime).task, run).Some?
    ensures var c := ClaimNext(ts, startTime);
      ProcessingCount(MergeResult(c.store, ProcessVideo(c.task, run).value)) == ProcessingCount(ts)
  {
    var c := ClaimNext(ts, startTime);
    var done := ProcessVideo(c.task, run).value;
    ClaimAddsOneProcessing(ts, startTime);
    ClaimKeepsFingerprints(ts, startTime);
    MergeHitsOwnTask(c.store, c.index, done);
    ProcessingCountUpdate(c.store, c.index, done);
  }

  /** Overwriting a task by one with the same identity keeps fingerprints unique. */
  lemma MergeKeepsFingerprints(ts: seq<Task>, done: Task)
    requires UniqueFingerprints(ts)
    ensures UniqueFingerprints(MergeResult(ts, done))
  {
    var r := MergeResult(ts, done);
    forall i, j | 0 <= i < j < |r| ensures r[i].md5 != r[j].md5 {
      assert r[i].md5 == ts[i].md5 && r[j].md5 == ts[j].md5;
    }
  }

  /**
   * An exception that escapes before the encoder starts leaves the claimed
   * task `processing` with nothing to merge; the next pass claims the next
   * task, and the store then holds two `processing` tasks.
   */
  lemma OrphanedClaimAllowsTwoProcessing(a: Task, b: Task, t1: string, t2: string)
    requires a.status == Queued && HasResolution(a)
    requires b.status == Queued && HasResolution(b)
    ensures var first := ClaimNext([a, b], t1);
      && first.Claimed? && first.index == 0
      && ProcessVideo(first.task, SetupRaised).None?
      && var second := ClaimNext(first.store, t2);
      && second.Claimed? && second.index == 1
      && ProcessingCount(second.store) == 2
  {
    var first := ClaimNext([a, b], t1);
    assert Claimable(a);
    ClaimNextSpec([a, b], t1);
    ClaimAddsOneProcessing([a, b], t1);
    assert ProcessingCount([a, b]) == 0 by {
      assert [a, b][..1] == [a];
      assert [a][..0] == [];
      assert ProcessingCount([]) == 0;
      assert ProcessingCount([a]) == 0;
    }
    assert first.store[1] == b && Claimable(b);
    ClaimNextSpec(first.store, t2);
    ClaimAddsOneProcessing(first.store, t2);
  }
}
