/**
 * The rotation policy: a debounce counter that lets rotation fire only
 * after the store has stayed large and quiescent for several consecutive
 * checks, and the rotation itself, which archives the error and the
 * processed tasks and empties the live store.
 */
module Rotation {
  import opened Tasks

  /** Minimum number of tasks before rotation is considered. */
  const RotationThreshold: nat := 100

  /** Consecutive qualifying checks needed before rotation fires. */
  const RotationScanWait: nat := 5

  // ---------------------------------------------------------------------
  // should_rotate_tasks
  // ---------------------------------------------------------------------

  /** Some task is queued, processing or waiting for a resolution. */
  predicate HasActive(ts: seq<Task>) {
    exists i :: 0 <= i < |ts| && ts[i].status.IsActive()
  }

  /** A check qualifies: the store is large enough and nothing is active. */
  predicate Quiescent(ts: seq<Task>) {
    |ts| >= RotationThreshold && !HasActive(ts)
  }

  /**
   * One call of should_rotate_tasks: the new counter and whether rotation
   * fires. The counter stays below the wait, and rotation fires only on a
   * qualifying store.
   */
  function RotationCheck(counter: nat, ts: seq<Task>): (r: (nat, bool))
    ensures r.0 < RotationScanWait
    ensures r.1 ==> Quiescent(ts) && r.0 == 0
    ensures !Quiescent(ts) ==> r == (0, false)
  {
    if !Quiescent(ts) then (0, false)
    else if counter + 1 >= RotationScanWait then (0, true)
    else (counter + 1, false)
  }

  /** The counter after a sequence of checks against the stores in `history`. */
  function CounterAfter(counter: nat, history: seq<seq<Task>>): nat {
    if history == [] then counter
    else RotationCheck(CounterAfter(counter, history[..|history| - 1]), history[|history| - 1]).0
  }

  /** Whether the last check of `history` fires. */
  function FiresAt(counter: nat, history: seq<seq<Task>>): bool
    requires history != []
  {
    RotationCheck(CounterAfter(counter, history[..|history| - 1]), history[|history| - 1]).1
  }

  /** How many of the latest checks in a row saw a qualifying store. */
  function QuiescentStreak(history: seq<seq<Task>>): nat {
    if history == [] || !Quiescent(history[|history| - 1]) then 0
    else QuiescentStreak(history[..|history| - 1]) + 1
  }

  /**
   * The counter is the current run of qualifying checks modulo the wait;
   * while every check so far qualified, the run continues from the
   * counter's starting value.
   */
  lemma {:induction false} CounterTracksStreak(counter: nat, history: seq<seq<Task>>)
    requires counter < RotationScanWait
    ensures QuiescentStreak(history) <= |history|
    ensures CounterAfter(counter, history) ==
      if QuiescentStreak(history) == |history| then (counter + |history|) % RotationScanWait
      else QuiescentStreak(history) % RotationScanWait
  {
    if history != [] {
      var prefix, last := history[..|history| - 1], history[|history| - 1];
      CounterTracksStreak(counter, prefix);
      var before := CounterAfter(counter, prefix);
      assert before < RotationScanWait;
      assert CounterAfter(counter, history) == RotationCheck(before, last).0;
      if Quiescent(last) {
        assert QuiescentStreak(history) == QuiescentStreak(prefix) + 1;
        assert RotationCheck(before, last).0 == (before + 1) % RotationScanWait;
        if QuiescentStreak(prefix) == |prefix| {
          StepModulo(counter + |prefix|);
        } else {
          StepModulo(QuiescentStreak(prefix));
        }
      } else {
        assert QuiescentStreak(history) == 0;
      }
    }
  }

  /** Adding one after reducing modulo the wait is adding one before. */
  lemma StepModulo(x: nat)
    ensures (x % RotationScanWait + 1) % RotationScanWait == (x + 1) % RotationScanWait
  {
  }

  /**
   * From a reset counter, rotation fires exactly when the run of
   * consecutive qualifying checks reaches a positive multiple of five:
   * never on a store that is small or has an active task, and never twice
   * within five checks.
   */
  lemma FiresOnEveryFifthQuiescentCheck(history: seq<seq<Task>>)
    requires history != []
    ensures FiresAt(0, history) <==> QuiescentStreak(history) > 0 && QuiescentStreak(history) % RotationScanWait == 0
  {
    var prefix := history[..|history| - 1];
    CounterTracksStreak(0, prefix);
  }

  // ---------------------------------------------------------------------
  // rotate_tasks
  // ---------------------------------------------------------------------

  /** The three groups rotation sorts statuses into. */
  datatype Group = Errors | Done | Active

  predicate InGroup(s: Status, g: Group) {
    match g
    case Errors => s.IsError()
    case Done => s.Processed?
    case Active => s.IsActive()
  }

  /** The tasks of `ts` whose status is in group `g`, in their original order. */
  function Keep(ts: seq<Task>, g: Group): (r: seq<Task>)
    ensures |r| <= |ts|
    ensures forall i :: 0 <= i < |r| ==> InGroup(r[i].status, g)
  {
    if ts == [] then []
    else
      var last := ts[|ts| - 1];
      Keep(ts[..|ts| - 1], g) + (if InGroup(last.status, g) then [last] else [])
  }

  /** A group holds every task of its statuses, as often as the store does, and no other. */
  lemma {:induction false} KeepCounts(ts: seq<Task>, g: Group)
    ensures forall t :: multiset(Keep(ts, g))[t] == if InGroup(t.status, g) then multiset(ts)[t] else 0
  {
    if ts != [] {
      var prefix, last := ts[..|ts| - 1], ts[|ts| - 1];
      assert ts == prefix + [last];
      KeepCounts(prefix, g);
    }
  }

  /** Filtering distributes over concatenation: the original order is kept. */
  lemma {:induction false} KeepConcat(a: seq<Task>, b: seq<Task>, g: Group)
    ensures Keep(a + b, g) == Keep(a, g) + Keep(b, g)
  {
    if b != [] {
      var b', last := b[..|b| - 1], b[|b| - 1];
      assert (a + b)[..|a + b| - 1] == a + b';
      assert (a + b)[|a + b| - 1] == last;
      KeepConcat(a, b', g);
    } else {
      assert a + b == a;
    }
  }

  /** The tasks archived to the error file. */
  function ErrorGroup(ts: seq<Task>): seq<Task> {
    Keep(ts, Errors)
  }

  /** The tasks archived to the processed file. */
  function ProcessedGroup(ts: seq<Task>): seq<Task> {
    Keep(ts, Done)
  }

  /** The tasks rotation drops without archiving them. */
  function ActiveGroup(ts: seq<Task>): seq<Task> {
    Keep(ts, Active)
  }

  /**
   * The error group and the processed group are disjoint, and together
   * with the active tasks they make up the whole store; on a store with no
   * active task the two groups hold every task.
   */
  lemma PartitionExact(ts: seq<Task>)
    ensures multiset(ErrorGroup(ts)) !! multiset(ProcessedGroup(ts))
    ensures multiset(ErrorGroup(ts)) + multiset(ProcessedGroup(ts)) + multiset(ActiveGroup(ts)) == multiset(ts)
    ensures !HasActive(ts) ==> multiset(ErrorGroup(ts)) + multiset(ProcessedGroup(ts)) == multiset(ts)
  {
    GroupsDisjoint(ts);
    GroupsCover(ts);
    if !HasActive(ts) {
      NoActiveGroup(ts);
    }
  }

  /** No task is in both the error group and the processed group. */
  lemma GroupsDisjoint(ts: seq<Task>)
    ensures multiset(ErrorGroup(ts)) !! multiset(ProcessedGroup(ts))
  {
    KeepCounts(ts, Errors);
    KeepCounts(ts, Done);
  }

  /** Every task of the store is in exactly one of the three groups. */
  lemma GroupsCover(ts: seq<Task>)
    ensures multiset(ErrorGroup(ts)) + multiset(ProcessedGroup(ts)) + multiset(ActiveGroup(ts)) == multiset(ts)
  {
    var e, p, a := ErrorGroup(ts), ProcessedGroup(ts), ActiveGroup(ts);
    KeepCounts(ts, Errors);
    KeepCounts(ts, Done);
    KeepCounts(ts, Active);
    forall t ensures multiset(e)[t] + multiset(p)[t] + multiset(a)[t] == multiset(ts)[t] {
    }
    assert multiset(e) + multiset(p) + multiset(a) == multiset(ts);
  }

  /** A store with no active task has an empty active group. */
  lemma {:induction false} NoActiveGroup(ts: seq<Task>)
    requires !HasActive(ts)
    ensures ActiveGroup(ts) == []
  {
    if ts != [] {
      var prefix := ts[..|ts| - 1];
      assert !HasActive(prefix) by {
        forall i | 0 <= i < |prefix| ensures !prefix[i].status.IsActive() {
          assert prefix[i] == ts[i];
        }
      }
      NoActiveGroup(prefix);
      assert !ts[|ts| - 1].status.IsActive();
    }
  }

  /** What one rotation leaves behind: the archive files written and the live store. */
  datatype RotationResult = RotationResult(
    errorArchive: Option<seq<Task>>,
    processedArchive: Option<seq<Task>>,
    store: seq<Task>)

  /** Everything a rotation result put into archive files. */
  function Archived(r: RotationResult): seq<Task> {
    (if r.errorArchive.Some? then r.errorArchive.value else []) +
    (if r.processedArchive.Some? then r.processedArchive.value else [])
  }

  /**
   * rotate_tasks on the loaded store `ts`; `errorWriteOk` and
   * `processedWriteOk` say whether each archive write succeeds. Each
   * non-empty group is archived exactly when its own write succeeds,
   * independently of the other, and the live store is emptied either way
   * (an empty store has empty groups and is already empty).
   */
  function RotateTasks(ts: seq<Task>, errorWriteOk: bool, processedWriteOk: bool): (r: RotationResult)
    ensures r.store == []
    ensures r.errorArchive.Some? <==> errorWriteOk && ErrorGroup(ts) != []
    ensures r.errorArchive.Some? ==> r.errorArchive.value == ErrorGroup(ts)
    ensures r.processedArchive.Some? <==> processedWriteOk && ProcessedGroup(ts) != []
    ensures r.processedArchive.Some? ==> r.processedArchive.value == ProcessedGroup(ts)
    ensures multiset(Archived(r)) <= multiset(ts)
  {
    if ts == [] then RotationResult(None, None, ts)
    else
      var errors, processed := ErrorGroup(ts), ProcessedGroup(ts);
      var r := RotationResult(
        if errors != [] && errorWriteOk then Some(errors) else None,
        if processed != [] && processedWriteOk then Some(processed) else None,
        []);
      PartitionExact(ts);
      r
  }

  /**
   * When both archive writes succeed, a rotation archives every task that
   * is not active, and only the active ones are lost; on a store with no
   * active task nothing is lost.
   */
  lemma RotationLosesOnlyActive(ts: seq<Task>)
    ensures var r := RotateTasks(ts, true, true);
      multiset(Archived(r)) + multiset(ActiveGroup(ts)) == multiset(ts)
    ensures !HasActive(ts) ==> multiset(Archived(RotateTasks(ts, true, true))) == multiset(ts)
  {
    PartitionExact(ts);
    var r := RotateTasks(ts, true, true);
    if ts != [] {
      var errors, processed := ErrorGroup(ts), ProcessedGroup(ts);
      assert multiset(Archived(r)) == multiset(errors) + multiset(processed);
    }
  }

  /**
   * A rotation that fires, with both archive writes succeeding, archives
   * every task of the store: the check fires only on a store with no
   * active task.
   */
  lemma FiredRotationLosesNothing(counter: nat, ts: seq<Task>)
    requires RotationCheck(counter, ts).1
    ensures multiset(Archived(RotateTasks(ts, true, true))) == multiset(ts)
  {
    assert !HasActive(ts);
    RotationLosesOnlyActive(ts);
  }
}
