/**
 * The ingestion side of the queue: which file events are considered at
 * all, the wait for a copy to finish, and the deduplicating append of a
 * new `queued` task.
 */
module Ingestion {
  import opened Tasks
  import opened Resolution
  import opened Fingerprint

  /** The file extensions treated as video, in lower case. */
  const VideoExtensions: set<string> := {".mp4", ".mkv", ".mov", ".avi", ".webm"}

  // ---------------------------------------------------------------------
  // The event filter of Handler.process
  // ---------------------------------------------------------------------

  /** `os.path.basename`: everything after the last separator. */
  function BaseName(p: string): (name: string)
    ensures |name| <= |p| && name == p[|p| - |name|..]
    ensures Separator !in name
    ensures |name| < |p| ==> p[|p| - |name| - 1] == Separator
  {
    if p == [] || p[|p| - 1] == Separator then [] else BaseName(p[..|p| - 1]) + [p[|p| - 1]]
  }

  /** The index of the last dot in `s`, if any. */
  function LastDot(s: string): (k: Option<nat>)
    ensures k.Some? ==> k.value < |s| && s[k.value] == '.' && '.' !in s[k.value + 1..]
    ensures k.None? ==> '.' !in s
  {
    if s == [] then None
    else if s[|s| - 1] == '.' then Some(|s| - 1)
    else
      var k := LastDot(s[..|s| - 1]);
      assert s == s[..|s| - 1] + [s[|s| - 1]];
      if k.Some? then
        assert s[k.value + 1..] == s[..|s| - 1][k.value + 1..] + [s[|s| - 1]];
        k
      else
        k
  }

  /**
   * `os.path.splitext(name)[1]`: from the last dot to the end, provided
   * some character other than a dot comes before that dot; "" otherwise.
   */
  function Extension(name: string): (ext: string)
    ensures ext == [] || (ext[0] == '.' && '.' !in ext[1..])
    ensures |ext| <= |name| && ext == name[|name| - |ext|..]
    ensures ext != [] ==> exists j :: 0 <= j < |name| - |ext| && name[j] != '.'
    ensures ext != [] ==> LastDot(name) == Some(|name| - |ext|)
    ensures ext == [] ==> LastDot(name).None? || forall j :: 0 <= j < LastDot(name).value ==> name[j] == '.'
  {
    match LastDot(name)
    case None => ""
    case Some(k) =>
      if exists j :: 0 <= j < k && name[j] != '.' then name[k..] else ""
  }

  /** ASCII lower-casing of one character. */
  function LowerChar(c: char): char {
    if 'A' <= c <= 'Z' then (c as int + 32) as char else c
  }

  /** `str.lower()`, for ASCII letters. */
  function Lower(s: string): (r: string)
    ensures |r| == |s|
    ensures forall i :: 0 <= i < |s| ==> r[i] == LowerChar(s[i])
  {
    seq(|s|, i requires 0 <= i < |s| => LowerChar(s[i]))
  }

  /**
   * The file test of Handler.process: not a dotfile, and a video extension
   * in any case. A file without an extension is never taken.
   */
  predicate IsVideoCandidate(path: string)
    ensures IsVideoCandidate(path) ==> Extension(BaseName(path)) != []
  {
    var name := BaseName(path);
    var ext := Lower(Extension(name));
    ExtensionsNotEmpty();
    !(|name| > 0 && name[0] == '.') && ext in VideoExtensions
  }

  /** `name` ends, case-insensitively, in a video extension with at least one character before it. */
  predicate HasVideoSuffix(name: string) {
    exists e :: e in VideoExtensions && |e| < |name| && Lower(name[|name| - |e|..]) == e
  }

  /** No video extension is empty, so a file without an extension is never taken. */
  lemma ExtensionsNotEmpty()
    ensures forall e :: e in VideoExtensions ==> |e| >= 2
  {
  }

  /** Every video extension is a dot followed by dot-free characters. */
  lemma VideoExtensionShape(e: string)
    requires e in VideoExtensions
    ensures |e| >= 2 && e[0] == '.' && '.' !in e[1..]
  {
  }

  /**
   * The filter read without splitext: a file is taken exactly when its
   * name does not start with a dot and ends, case-insensitively, in one of
   * the video extensions with at least one character before it.
   */
  lemma VideoCandidateIff(path: string)
    ensures IsVideoCandidate(path) <==>
      var name := BaseName(path);
      (name == [] || name[0] != '.') && HasVideoSuffix(name)
  {
    var name := BaseName(path);
    if IsVideoCandidate(path) {
      CandidateHasVideoSuffix(name);
    }
    if (name == [] || name[0] != '.') && HasVideoSuffix(name) {
      VideoSuffixIsCandidate(name);
    }
  }

  lemma CandidateHasVideoSuffix(name: string)
    requires Lower(Extension(name)) in VideoExtensions
    ensures HasVideoSuffix(name)
  {
    var ext := Extension(name);
    var e := Lower(ext);
    assert ext != [] by {
      assert |e| >= 2 by { VideoExtensionShape(e); }
    }
    var j :| 0 <= j < |name| - |ext| && name[j] != '.';
    assert |e| < |name|;
    assert name[|name| - |e|..] == ext;
  }

  lemma VideoSuffixIsCandidate(name: string)
    requires name == [] || name[0] != '.'
    requires HasVideoSuffix(name)
    ensures Lower(Extension(name)) in VideoExtensions
  {
    var e :| e in VideoExtensions && |e| < |name| && Lower(name[|name| - |e|..]) == e;
    VideoExtensionShape(e);
    var q := |name| - |e|;
    var s := name[q..];
    assert s[0] == '.' by { assert LowerChar(s[0]) == e[0]; }
    assert '.' !in s[1..] by {
      forall i | 1 <= i < |s| ensures s[i] != '.' {
        assert LowerChar(s[i]) == e[i];
        assert e[i] in e[1..];
      }
    }
    DotIsLast(name, q);
    assert name[0] != '.' && 0 < q;
    assert Extension(name) == s;
  }

  /** A dot with no dot after it is the last dot. */
  lemma {:induction false} DotIsLast(name: string, q: nat)
    requires q < |name| && name[q] == '.' && '.' !in name[q + 1..]
    ensures LastDot(name) == Some(q)
  {
    if q < |name| - 1 {
      var n := |name| - 1;
      assert name[n] in name[q + 1..];
      assert name[..n][q + 1..] == name[q + 1..n];
      DotIsLast(name[..n], q);
    }
  }

  /** A path without a separator is its own base name. */
  lemma {:induction false} BaseNameWithoutSeparator(p: string)
    requires Separator !in p
    ensures BaseName(p) == p
  {
    if p != [] {
      assert p[|p| - 1] in p;
      BaseNameWithoutSeparator(p[..|p| - 1]);
      assert p == p[..|p| - 1] + [p[|p| - 1]];
    }
  }

  /** The name of a video candidate contains a dot. */
  lemma CandidateHasDot(path: string)
    ensures IsVideoCandidate(path) ==> '.' in BaseName(path)
  {
    if !IsVideoCandidate(path) {
      return;
    }
    var name := BaseName(path);
    var ext := Extension(name);
    assert |Lower(ext)| >= 2 by {
      VideoExtensionShape(Lower(ext));
    }
    assert name[|name| - |ext|] == ext[0];
  }

  /** No resolution folder name contains a dot. */
  lemma FolderNamesHaveNoDot(d: string)
    requires d in ResolutionFolders
    ensures '.' !in d
  {
  }

  /** A video file directly under the watch root lies in no resolution folder. */
  lemma RootFileUnclassified(path: string)
    requires Separator !in path
    ensures IsVideoCandidate(path) ==> DetectResolution(path) == None
  {
    if !IsVideoCandidate(path) {
      return;
    }
    BaseNameWithoutSeparator(path);
    CandidateHasDot(path);
    if path in ResolutionFolders {
      FolderNamesHaveNoDot(path);
    }
    DetectAtRoot(path);
  }

  // ---------------------------------------------------------------------
  // wait_for_file_transfer
  // ---------------------------------------------------------------------

  /** One poll of the file size: the file is gone, or it has this many bytes. */
  datatype SizeReading = Missing | Size(bytes: nat)

  /**
   * How the wait ends: the size settled, the file vanished, or the given
   * polls ran out while the size was still changing (the source would
   * keep polling).
   */
  datatype TransferOutcome = Stable | Vanished | StillCopying

  /** Poll `i` closes a run of four equal, non-zero sizes (a baseline and three matches). */
  predicate StableAt(readings: seq<SizeReading>, i: int) {
    3 <= i < |readings| &&
    readings[i].Size? && readings[i].bytes > 0 &&
    readings[i - 3] == readings[i] && readings[i - 2] == readings[i] && readings[i - 1] == readings[i]
  }

  /** The polls settle before the file is ever seen missing. */
  ghost predicate Stabilises(readings: seq<SizeReading>) {
    exists i :: StableAt(readings, i) && forall j :: 0 <= j < i ==> readings[j].Size?
  }

  /** After `n` polls: how many of the latest polls repeated the previous non-zero size. */
  ghost function Matches(readings: seq<SizeReading>, n: nat): nat
    requires n <= |readings|
  {
    if n <= 1 then 0
    else if readings[n - 1] == readings[n - 2] && readings[n - 1].Size? && readings[n - 1].bytes > 0
    then Matches(readings, n - 1) + 1
    else 0
  }

  lemma StableIffThreeMatches(readings: seq<SizeReading>, n: nat)
    requires 1 <= n <= |readings|
    ensures StableAt(readings, n - 1) <==> Matches(readings, n) >= 3
  {
    if n >= 2 && Matches(readings, n) >= 3 {
      assert Matches(readings, n - 1) >= 2;
      assert Matches(readings, n - 2) >= 1;
    }
    if StableAt(readings, n - 1) {
      assert Matches(readings, n - 2) >= 1;
      assert Matches(readings, n - 1) >= 2;
    }
  }

  /**
   * `wait_for_file_transfer` over a finite sequence of polls. `polls` is
   * how many readings it consumed. It succeeds at the first poll that
   * closes four equal non-zero sizes, fails at the first missing file, and
   * no earlier poll did either.
   */
  method WaitForFileTransfer(readings: seq<SizeReading>) returns (outcome: TransferOutcome, polls: nat)
    ensures polls <= |readings|
    ensures forall j :: 0 <= j < polls - 1 ==> readings[j].Size? && !StableAt(readings, j)
    ensures outcome == Stable ==> polls >= 4 && StableAt(readings, polls - 1)
    ensures outcome == Vanished ==> polls >= 1 && readings[polls - 1].Missing?
    ensures outcome == StillCopying ==>
      polls == |readings| && (polls > 0 ==> readings[polls - 1].Size? && !StableAt(readings, polls - 1))
    ensures outcome == Stable <==> Stabilises(readings)
  {
    var lastSize: int := -1;
    var stableCount := 0;
    var i := 0;
    while stableCount < 3
      invariant 0 <= i <= |readings|
      invariant 0 <= stableCount <= 3
      invariant forall j :: 0 <= j < i ==> readings[j].Size?
      invariant i == 0 ==> lastSize == -1 && stableCount == 0
      invariant i > 0 ==> lastSize == readings[i - 1].bytes && stableCount == Matches(readings, i)
      invariant forall j :: 0 <= j < i - 1 ==> !StableAt(readings, j)
      invariant stableCount < 3 ==> i == 0 || !StableAt(readings, i - 1)
      invariant stableCount == 3 ==> i > 0 && StableAt(readings, i - 1)
      decreases |readings| - i, 3 - stableCount
    {
      if i == |readings| {
        outcome, polls := StillCopying, i;
        NeverStable(readings, i);
        return;
      }
      match readings[i]
      case Missing =>
        outcome, polls := Vanished, i + 1;
        NeverStable(readings, i);
        return;
      case Size(currentSize) =>
        if currentSize == lastSize && currentSize > 0 {
          stableCount := stableCount + 1;
        } else {
          lastSize := currentSize;
          stableCount := 0;
        }
      i := i + 1;
      StableIffThreeMatches(readings, i);
    }
    outcome, polls := Stable, i;
    assert StableAt(readings, i - 1);
  }

  /** No stable poll before `n` and a miss or the end at `n`: the polls never settle. */
  lemma NeverStable(readings: seq<SizeReading>, n: nat)
    requires n <= |readings|
    requires forall j :: 0 <= j < n ==> readings[j].Size? && !StableAt(readings, j)
    requires n < |readings| ==> readings[n].Missing?
    ensures !Stabilises(readings)
  {
    forall i | StableAt(readings, i) ensures 0 <= n < i && readings[n].Missing? {
    }
  }

  // ---------------------------------------------------------------------
  // add_task, after the wait
  // ---------------------------------------------------------------------

  /**
   * `file_size`: the size `os.path.getsize` reports (`stat`), or 0 when
   * that call fails (`stat` is None). It is a call of its own, separate
   * from the reads of `fast_hash`.
   */
  function FileSize(stat: Option<nat>): (n: nat)
    ensures stat.Some? ==> n == stat.value
    ensures stat.None? ==> n == 0
  {
    match stat
    case None => 0
    case Some(size) => size
  }

  /** The record add_task appends for a new file. */
  function NewTask(relPath: string, resolution: string, md5: string, sizeBefore: nat, addedTime: string): Task {
    Task(relPath, md5, Some(resolution), Queued, addedTime, "", "", sizeBefore, 0, 0.0)
  }

  /**
   * add_task once the copy has settled: skip a file outside the
   * resolution folders, skip a fingerprint already in the store (including
   * the empty fingerprint of an unreadable file), and otherwise append one
   * `queued` task.
   */
  function Ingest(tasks: seq<Task>, relPath: string, file: Option<seq<byte>>, stat: Option<nat>,
                  digest: seq<byte> -> string, addedTime: string): (r: seq<Task>)
    ensures r == tasks <==>
      DetectResolution(relPath).None? || KnownFingerprint(tasks, FastHash(file, digest))
    ensures |tasks| <= |r| <= |tasks| + 1 && r[..|tasks|] == tasks
    ensures r != tasks ==>
      var t := r[|tasks|];
      && |r| == |tasks| + 1
      && t.path == relPath
      && t.md5 == FastHash(file, digest)
      && t.resolution == DetectResolution(relPath)
      && t.status == Queued
      && t.addedTime == addedTime && t.startTime == "" && t.endTime == ""
      && t.sizeBefore == FileSize(stat) && t.sizeAfter == 0 && t.timeTaken == 0.0
    ensures UniqueFingerprints(tasks) ==> UniqueFingerprints(r)
    ensures DetectResolution(relPath).Some? ==> KnownFingerprint(r, FastHash(file, digest))
  {
    var resolution := DetectResolution(relPath);
    if resolution.None? then tasks
    else
      var h := FastHash(file, digest);
      if KnownFingerprint(tasks, h) then tasks
      else
        var r := tasks + [NewTask(relPath, resolution.value, h, FileSize(stat), addedTime)];
        assert r[|tasks|].md5 == h;
        r
  }

  /**
   * Delivering the same content twice, under any two paths inside the
   * resolution folders, leaves one task: the second delivery changes
   * nothing.
   */
  lemma IngestIdempotent(tasks: seq<Task>, path1: string, path2: string, file: Option<seq<byte>>,
                         stat1: Option<nat>, stat2: Option<nat>,
                         digest: seq<byte> -> string, time1: string, time2: string)
    requires DetectResolution(path1).Some?
    ensures var once := Ingest(tasks, path1, file, stat1, digest, time1);
      Ingest(once, path2, file, stat2, digest, time2) == once
  {
  }

  /**
   * An unreadable file gets the empty fingerprint, and the duplicate test
   * compares against it: once one unreadable file is queued, every later
   * unreadable file is skipped as a duplicate.
   */
  lemma UnreadableFilesCollide(tasks: seq<Task>, path1: string, path2: string,
                               stat1: Option<nat>, stat2: Option<nat>,
                               digest: seq<byte> -> string, time1: string, time2: string)
    requires DetectResolution(path1).Some? && DetectResolution(path2).Some?
    ensures var once := Ingest(tasks, path1, None, stat1, digest, time1);
      KnownFingerprint(once, "") && Ingest(once, path2, None, stat2, digest, time2) == once
  {
  }
}
