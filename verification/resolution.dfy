/**
 * Resolution classification: a path relative to the watch root names
 * its target height by its first folder, which must be one of the three
 * resolution folders.
 */
module Resolution {
  import opened Tasks

  /** The path separator (POSIX `os.sep`). */
  const Separator: char := '/'

  /** The folder names that select a target height. */
  const ResolutionFolders: seq<string> := ["480", "720", "1080"]

  /** The first separator-delimited segment of `p`: `p.split(os.sep)[0]`. */
  function FirstSegment(p: string): (seg: string)
    ensures |seg| <= |p| && seg == p[..|seg|]
    ensures Separator !in seg
    ensures |seg| < |p| ==> p[|seg|] == Separator
  {
    if p == [] || p[0] == Separator then [] else [p[0]] + FirstSegment(p[1..])
  }

  /** The path is the folder `d` itself or lies below it. */
  predicate InFolder(p: string, d: string) {
    p == d || d + [Separator] <= p
  }

  /**
   * `detect_resolution_from_path`: the first segment if it is a
   * resolution folder name, None otherwise. Stated without FirstSegment:
   * the result is `d` exactly when the path is `d` itself or starts with
   * `d` followed by a separator.
   */
  function DetectResolution(p: string): (r: Option<string>)
    ensures r.Some? ==> r.value in ResolutionFolders && InFolder(p, r.value)
    ensures r.None? ==> forall d :: d in ResolutionFolders ==> !InFolder(p, d)
  {
    var seg := FirstSegment(p);
    if seg in ResolutionFolders then
      assert |seg| < |p| ==> p[..|seg| + 1] == seg + [Separator];
      Some(seg)
    else
      OutsideFolders(p);
      None
  }

  /** A path whose first segment is not a folder name lies in no resolution folder. */
  lemma OutsideFolders(p: string)
    requires FirstSegment(p) !in ResolutionFolders
    ensures forall d :: d in ResolutionFolders ==> !InFolder(p, d)
  {
    OutsideFolder("480", p);
    OutsideFolder("720", p);
    OutsideFolder("1080", p);
  }

  /** A path whose first segment is not `d` is neither `d` nor inside `d`, when `d` has no separator. */
  lemma OutsideFolder(d: string, p: string)
    requires Separator !in d
    requires FirstSegment(p) != d
    ensures !InFolder(p, d)
  {
    if InFolder(p, d) {
      FirstSegmentOfFolder(d, p);
    }
  }

  /** A path that is `d`, or `d` then a separator, has `d` as first segment, when `d` has no separator. */
  lemma {:induction false} FirstSegmentOfFolder(d: string, p: string)
    requires Separator !in d
    requires p == d || d + [Separator] <= p
    ensures FirstSegment(p) == d
  {
    if d != [] {
      assert p[0] == d[0];
      assert p[1..] == d[1..] || d[1..] + [Separator] <= p[1..];
      FirstSegmentOfFolder(d[1..], p[1..]);
    }
  }

  /** Every resolution folder name is returned for a path inside that folder. */
  lemma {:induction false} DetectInsideFolder(d: string, rest: string)
    requires d in ResolutionFolders
    ensures DetectResolution(d + [Separator] + rest) == Some(d)
  {
    var p := d + [Separator] + rest;
    assert d + [Separator] <= p;
    FirstSegmentOfFolder(d, p);
  }

  /** A path with no separator (a file directly under the root) gets a resolution only if it is itself a folder name. */
  lemma DetectAtRoot(p: string)
    requires Separator !in p
    ensures DetectResolution(p) == (if p in ResolutionFolders then Some(p) else None)
  {
    assert FirstSegment(p) == p;
  }

  /** `720/clip.mp4` is classified as 720. */
  lemma DetectExampleInside()
    ensures DetectResolution("720/clip.mp4") == Some("720")
  {
    assert "720/clip.mp4" == "720" + [Separator] + "clip.mp4";
    DetectInsideFolder("720", "clip.mp4");
  }

  /** `clip.mp4`, directly under the root, is not classified. */
  lemma DetectExampleRoot()
    ensures DetectResolution("clip.mp4") == None
  {
    DetectAtRoot("clip.mp4");
  }

  /** `2160/clip.mp4` is in a folder that is not a resolution folder. */
  lemma DetectExampleOther()
    ensures DetectResolution("2160/clip.mp4") == None
  {
    assert "2160" + [Separator] <= "2160/clip.mp4";
    FirstSegmentOfFolder("2160", "2160/clip.mp4");
  }
}
