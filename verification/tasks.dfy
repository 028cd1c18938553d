/**
 * The task record of the transcoding queue and the small vocabulary
 * shared by every component: the eight status values, the groups of
 * statuses that the processor and the rotation policy test for, and the
 * store-wide fingerprint uniqueness invariant.
 */
module Tasks {

  datatype Option<+T> = None | Some(value: T)

  /** The eight status strings a task record can carry. */
  datatype Status =
    | Queued
    | WaitingForResolution
    | Processing
    | Processed
    | Failed
    | ErrorMissingInput
    | ErrorException
    | ErrorNoResolution
  {
    /** The string stored in the task file for this status. */
    function Name(): string {
      match this
      case Queued => "queued"
      case WaitingForResolution => "waiting_for_resolution"
      case Processing => "processing"
      case Processed => "processed"
      case Failed => "failed"
      case ErrorMissingInput => "error_missing_input"
      case ErrorException => "error_exception"
      case ErrorNoResolution => "error_no_resolution"
    }

    /** Statuses the processor may pick up. */
    predicate IsPending() {
      Queued? || WaitingForResolution?
    }

    /** Statuses that keep rotation from firing. */
    predicate IsActive() {
      Queued? || Processing? || WaitingForResolution?
    }

    /** Statuses archived into the error file on rotation. */
    predicate IsError() {
      ErrorMissingInput? || ErrorException? || ErrorNoResolution? || Failed?
    }
  }

  /**
   * One video file's record. `resolution` is None when the key is absent;
   * timestamps are opaque strings ("" until reached); `timeTaken` is the
   * elapsed encoding time in seconds.
   */
  datatype Task = Task(
    path: string,
    md5: string,
    resolution: Option<string>,
    status: Status,
    addedTime: string,
    startTime: string,
    endTime: string,
    sizeBefore: nat,
    sizeAfter: nat,
    timeTaken: real)

  /** Python truthiness of `task.get("resolution")`: present and non-empty. */
  predicate HasResolution(t: Task) {
    t.resolution.Some? && t.resolution.value != ""
  }

  /** The identity the processor uses to find a task again: path and fingerprint. */
  predicate SameIdentity(a: Task, b: Task) {
    a.path == b.path && a.md5 == b.md5
  }

  /** No two tasks of the store carry the same fingerprint. */
  ghost predicate UniqueFingerprints(ts: seq<Task>) {
    forall i, j :: 0 <= i < j < |ts| ==> ts[i].md5 != ts[j].md5
  }

  /** Some task of the store carries fingerprint `h`. */
  predicate KnownFingerprint(ts: seq<Task>, h: string) {
    exists i :: 0 <= i < |ts| && ts[i].md5 == h
  }

  /** How many tasks of the store are in status `processing`. */
  function ProcessingCount(ts: seq<Task>): nat {
    if ts == [] then 0
    else ProcessingCount(ts[..|ts| - 1]) + (if ts[|ts| - 1].status.Processing? then 1 else 0)
  }
}
