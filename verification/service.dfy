/**
 * The running service as one sequential actor: the contents of the task
 * file, the rotation counter, the processor's idle-cycle counter and the
 * archive files written so far. Each method is one step of the watcher or
 * of the processor loop, with the task file's load and save folded into
 * reading and assigning `tasks`.
 */
module Service {
  import opened Tasks
  import opened Fingerprint
  import opened Ingestion
  import opened Rotation
  import opened Processor

  /** The processor checks for rotation on every fourth idle cycle. */
  const CheckInterval: nat := 4

  /** The archive files a rotation adds to a list of archives: one, or none. */
  function Written(archive: Option<seq<Task>>): seq<seq<Task>> {
    if archive.Some? then [archive.value] else []
  }

  class TaskService {
    /** The contents of the task file. */
    var tasks: seq<Task>
    /** `rotation_scan_counter`. */
    var rotationCounter: nat
    /** `scan_counter` of the processor loop: idle cycles so far. */
    var idleCycles: nat
    /** Error archive files written, oldest first. */
    var errorArchives: seq<seq<Task>>
    /** Processed archive files written, oldest first. */
    var processedArchives: seq<seq<Task>>

    /**
     * The counter bound the rotation check keeps. The store-wide invariant
     * is UniqueFingerprints(tasks): a stored file may violate it, so it is
     * not required here, but every method below preserves it.
     */
    ghost predicate Valid()
      reads this
    {
      rotationCounter < RotationScanWait
    }

    /** Neither counter nor any archive changed. */
    twostate predicate CountersAndArchivesKept()
      reads this
    {
      && idleCycles == old(idleCycles) && rotationCounter == old(rotationCounter)
      && errorArchives == old(errorArchives) && processedArchives == old(processedArchives)
    }

    /**
     * The new state after check_and_rotate: the counter follows
     * RotationCheck; when rotation fires the archives written are appended
     * and the store is emptied, and otherwise the store and the archives
     * are unchanged.
     */
    twostate predicate CheckedRotation(errorWriteOk: bool, processedWriteOk: bool)
      reads this
    {
      var check := RotationCheck(old(rotationCounter), old(tasks));
      var r := RotateTasks(old(tasks), errorWriteOk, processedWriteOk);
      && rotationCounter == check.0
      && (check.1 ==>
            && tasks == []
            && errorArchives == old(errorArchives) + Written(r.errorArchive)
            && processedArchives == old(processedArchives) + Written(r.processedArchive))
      && (!check.1 ==>
            tasks == old(tasks) && errorArchives == old(errorArchives) && processedArchives == old(processedArchives))
    }

    /**
     * The new state after an idle pass: one more idle cycle, and on every
     * fourth one the rotation check; otherwise nothing else changes (the
     * scan's error_no_resolution markings are not saved).
     */
    twostate predicate IdleStepped(errorWriteOk: bool, processedWriteOk: bool)
      reads this
    {
      && idleCycles == old(idleCycles) + 1
      && (idleCycles % CheckInterval == 0 ==> CheckedRotation(errorWriteOk, processedWriteOk))
      && (idleCycles % CheckInterval != 0 ==>
            && tasks == old(tasks) && rotationCounter == old(rotationCounter)
            && errorArchives == old(errorArchives) && processedArchives == old(processedArchives))
    }

    /** A service started over the task file's current contents. */
    constructor (stored: seq<Task>)
      ensures Valid()
      ensures tasks == stored && rotationCounter == 0 && idleCycles == 0
      ensures errorArchives == [] && processedArchives == []
    {
      tasks := stored;
      rotationCounter := 0;
      idleCycles := 0;
      errorArchives := [];
      processedArchives := [];
    }

    /**
     * Handler.process for one file, then add_task: a file that passes the
     * filter and whose copy settles is ingested; anything else leaves the
     * store as it was. Fingerprint uniqueness is preserved.
     */
    method HandleFile(relPath: string, readings: seq<SizeReading>, file: Option<seq<byte>>,
                      stat: Option<nat>, digest: seq<byte> -> string, addedTime: string)
      modifies this`tasks
      ensures tasks ==
        if IsVideoCandidate(relPath) && Stabilises(readings)
        then Ingest(old(tasks), relPath, file, stat, digest, addedTime)
        else old(tasks)
      ensures UniqueFingerprints(old(tasks)) ==> UniqueFingerprints(tasks)
    {
      if !IsVideoCandidate(relPath) {
        return;
      }
      var outcome, _ := WaitForFileTransfer(readings);
      if outcome != Stable {
        return;
      }
      tasks := Ingest(tasks, relPath, file, stat, digest, addedTime);
    }

    /**
     * check_and_rotate: advance the debounce counter on the current store
     * and, if it fires, archive the groups whose writes succeed and empty
     * the store. A rotation that fires with both writes succeeding
     * archives every task of the store.
     */
    method CheckAndRotate(errorWriteOk: bool, processedWriteOk: bool) returns (fired: bool)
      requires Valid()
      modifies this`tasks, this`rotationCounter, this`errorArchives, this`processedArchives
      ensures Valid()
      ensures fired == RotationCheck(old(rotationCounter), old(tasks)).1
      ensures CheckedRotation(errorWriteOk, processedWriteOk)
      ensures UniqueFingerprints(old(tasks)) ==> UniqueFingerprints(tasks)
      ensures fired && errorWriteOk && processedWriteOk ==>
        multiset(Archived(RotateTasks(old(tasks), true, true))) == multiset(old(tasks))
    {
      var check := RotationCheck(rotationCounter, tasks);
      rotationCounter := check.0;
      fired := check.1;
      if fired {
        var r := RotateTasks(tasks, errorWriteOk, processedWriteOk);
        errorArchives := errorArchives + Written(r.errorArchive);
        processedArchives := processedArchives + Written(r.processedArchive);
        tasks := r.store;
        if errorWriteOk && processedWriteOk {
          FiredRotationLosesNothing(old(rotationCounter), old(tasks));
        }
      }
    }

    /**
     * The first half of a processor_loop pass: claim the next task and save
     * the store, or, with nothing to claim, count an idle cycle (the scan's
     * error_no_resolution markings are then not saved) and check for
     * rotation on every fourth one.
     */
    method ProcessorStep(startTime: string, errorWriteOk: bool, processedWriteOk: bool)
      returns (claimed: Option<Task>)
      requires Valid()
      modifies this
      ensures Valid()
      ensures var c := ClaimNext(old(tasks), startTime);
        c.Claimed? ==> claimed == Some(c.task) && tasks == c.store && CountersAndArchivesKept()
      ensures ClaimNext(old(tasks), startTime).Idle? ==>
        claimed == None && IdleStepped(errorWriteOk, processedWriteOk)
      ensures UniqueFingerprints(old(tasks)) ==> UniqueFingerprints(tasks)
    {
      var scanned, chosen := SelectCandidate(tasks);
      if chosen.Some? {
        var k := chosen.value;
        var task := scanned[k].(status := Processing, startTime := startTime);
        tasks := scanned[k := task];
        claimed := Some(task);
        if UniqueFingerprints(old(tasks)) {
          ClaimKeepsFingerprints(old(tasks), startTime);
        }
      } else {
        claimed := None;
        idleCycles := idleCycles + 1;
        if idleCycles % CheckInterval == 0 {
          var _ := CheckAndRotate(errorWriteOk, processedWriteOk);
        }
      }
    }

    /**
     * The second half: reload the store and merge the finished task into
     * it. Tasks ingested while the encoder ran are kept.
     */
    method Complete(done: Task)
      modifies this`tasks
      ensures tasks == MergeResult(old(tasks), done)
      ensures UniqueFingerprints(old(tasks)) ==> UniqueFingerprints(tasks)
    {
      tasks := Merge(tasks, done);
      if UniqueFingerprints(old(tasks)) {
        MergeKeepsFingerprints(old(tasks), done);
      }
    }

    /**
     * The rest of a pass that claimed `task`: process_video on it and,
     * unless an exception escaped, the merge of the result into the
     * reloaded store. Fingerprint uniqueness is preserved.
     */
    method FinishClaim(task: Task, run: EncoderRun)
      modifies this`tasks
      ensures tasks == match ProcessVideo(task, run)
                       case None => old(tasks)
                       case Some(done) => MergeResult(old(tasks), done)
      ensures UniqueFingerprints(old(tasks)) ==> UniqueFingerprints(tasks)
    {
      var done := ProcessVideo(task, run);
      if done.Some? {
        Complete(done.value);
      }
    }

    /**
     * One whole processor_loop pass with no ingestion in between: claim,
     * process, merge. The outcome is merged into the saved store; with
     * unique fingerprints it lands on the claimed task. An exception
     * escaping process_video leaves the claimed task `processing`. An
     * idle pass is the idle step of ProcessorStep.
     */
    method ProcessorIteration(startTime: string, run: EncoderRun, errorWriteOk: bool, processedWriteOk: bool)
      returns (claimed: Option<Task>)
      requires Valid()
      modifies this
      ensures Valid()
      ensures var c := ClaimNext(old(tasks), startTime);
        c.Claimed? ==>
          && claimed == Some(c.task)
          && CountersAndArchivesKept()
          && tasks == (match ProcessVideo(c.task, run)
                       case None => c.store
                       case Some(done) => MergeResult(c.store, done))
      ensures var c := ClaimNext(old(tasks), startTime);
        c.Claimed? && UniqueFingerprints(old(tasks)) ==>
          tasks == (match ProcessVideo(c.task, run)
                    case None => c.store
                    case Some(done) => c.store[c.index := done])
      ensures ClaimNext(old(tasks), startTime).Idle? ==>
        claimed == None && IdleStepped(errorWriteOk, processedWriteOk)
      ensures UniqueFingerprints(old(tasks)) ==> UniqueFingerprints(tasks)
    {
      ghost var before := tasks;
      ghost var c := ClaimNext(before, startTime);
      claimed := ProcessorStep(startTime, errorWriteOk, processedWriteOk);
      if claimed.Some? {
        assert c.Claimed? && claimed.value == c.task && tasks == c.store;
        FinishClaim(claimed.value, run);
        if UniqueFingerprints(before) && ProcessVideo(c.task, run).Some? {
          ClaimKeepsFingerprints(before, startTime);
          MergeHitsOwnTask(c.store, c.index, ProcessVideo(c.task, run).value);
        }
      }
    }
  }
}
