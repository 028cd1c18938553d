/**
 * The content fingerprint used for deduplication: a digest over the
 * first 64 KiB of the file, the last 64 KiB when the file is larger than
 * 128 KiB, and the decimal file size, fed to the digest in that order.
 * The digest itself (md5) is a parameter: nothing here depends on what
 * it computes.
 */
module Fingerprint {
  import opened Tasks

  newtype byte = x: int | 0 <= x < 256

  /** Bytes read from the start of the file, and from its end. */
  const WindowSize: nat := 65536

  /** Files larger than this also have their last window hashed. */
  const TailThreshold: nat := 131072

  predicate IsDigit(b: byte) {
    48 <= b <= 57
  }

  /** `str(n).encode()`: the ASCII decimal digits of `n`, without leading zeros. */
  function DecimalDigits(n: nat): (s: seq<byte>)
    ensures |s| >= 1
    ensures forall i :: 0 <= i < |s| ==> IsDigit(s[i])
    ensures |s| > 1 ==> s[0] != 48
  {
    if n < 10 then [(48 + n) as byte] else DecimalDigits(n / 10) + [(48 + n % 10) as byte]
  }

  /** The number a string of ASCII decimal digits denotes. */
  function DecimalValue(s: seq<byte>): nat
    requires forall i :: 0 <= i < |s| ==> IsDigit(s[i])
  {
    if s == [] then 0
    else
      var last := s[|s| - 1];
      assert IsDigit(last);
      DecimalValue(s[..|s| - 1]) * 10 + (last - 48) as nat
  }

  /** Reading the decimal digits back yields the size: the size part of the input is unambiguous. */
  lemma {:induction false} DecimalRoundTrip(n: nat)
    ensures DecimalValue(DecimalDigits(n)) == n
  {
    var s := DecimalDigits(n);
    if n >= 10 {
      assert s[..|s| - 1] == DecimalDigits(n / 10);
      DecimalRoundTrip(n / 10);
    }
  }

  /** The bytes `fast_hash` feeds to the digest for a file with content `c`. */
  function HashInput(c: seq<byte>): (m: seq<byte>)
    ensures |m| == Min(|c|, WindowSize) + (if |c| > TailThreshold then WindowSize else 0) + |DecimalDigits(|c|)|
    ensures m[..Min(|c|, WindowSize)] == c[..Min(|c|, WindowSize)]
    ensures |c| > TailThreshold ==> m[WindowSize..2 * WindowSize] == c[|c| - WindowSize..]
    ensures m[|m| - |DecimalDigits(|c|)|..] == DecimalDigits(|c|)
  {
    var head := c[..Min(|c|, WindowSize)];
    var tail := if |c| > TailThreshold then c[|c| - WindowSize..] else [];
    head + tail + DecimalDigits(|c|)
  }

  function Min(a: nat, b: nat): nat {
    if a <= b then a else b
  }

  /**
   * `fast_hash`: the digest of the selected bytes, or "" when the file
   * cannot be read (`file` is None).
   */
  function FastHash(file: Option<seq<byte>>, digest: seq<byte> -> string): (h: string)
    ensures file.None? ==> h == ""
    ensures file.Some? ==> h == digest(HashInput(file.value))
  {
    match file
    case None => ""
    case Some(c) => digest(HashInput(c))
  }

  /**
   * Two files of the same size that agree on the first window, and on the
   * last window when that one is read, get the same fingerprint, whatever
   * the digest.
   */
  lemma SameWindowsSameFingerprint(a: seq<byte>, b: seq<byte>, digest: seq<byte> -> string)
    requires |a| == |b|
    requires a[..Min(|a|, WindowSize)] == b[..Min(|b|, WindowSize)]
    requires |a| > TailThreshold ==> a[|a| - WindowSize..] == b[|b| - WindowSize..]
    ensures FastHash(Some(a), digest) == FastHash(Some(b), digest)
  {
    assert HashInput(a) == HashInput(b);
  }

  /** The window over a file of at most 64 KiB is the whole file: equal inputs mean equal contents. */
  lemma SmallFileFullyCovered(a: seq<byte>, b: seq<byte>)
    requires |a| <= WindowSize
    requires HashInput(a) == HashInput(b)
    ensures a == b
  {
    SameInputSameWindows(a, b);
    assert a == a[..Min(|a|, WindowSize)];
    assert b == b[..Min(|b|, WindowSize)];
  }

  /** A larger size never has fewer decimal digits. */
  lemma {:induction false} DigitsMonotone(n: nat, k: nat)
    requires n <= k
    ensures |DecimalDigits(n)| <= |DecimalDigits(k)|
  {
    if n >= 10 {
      assert n / 10 <= k / 10;
      DigitsMonotone(n / 10, k / 10);
    }
  }

  /**
   * The converse of SameWindowsSameFingerprint: the digest input determines
   * the file size and the windows read. Only the bytes outside the windows
   * can differ between two files with the same digest input.
   */
  lemma SameInputSameWindows(a: seq<byte>, b: seq<byte>)
    requires HashInput(a) == HashInput(b)
    ensures |a| == |b|
    ensures a[..Min(|a|, WindowSize)] == b[..Min(|b|, WindowSize)]
    ensures |a| > TailThreshold ==> a[|a| - WindowSize..] == b[|b| - WindowSize..]
  {
    var m := HashInput(a);
    var da, db := DecimalDigits(|a|), DecimalDigits(|b|);
    if |a| <= |b| {
      DigitsMonotone(|a|, |b|);
    } else {
      DigitsMonotone(|b|, |a|);
    }
    assert |da| == |db|;
    assert da == m[|m| - |da|..] == db;
    DecimalRoundTrip(|a|);
    DecimalRoundTrip(|b|);
  }

  /**
   * A byte past the first window and before the last one read does not
   * reach the digest: for a file of 64..128 KiB that is every byte after
   * the first 64 KiB; for a larger file, the middle.
   */
  lemma UnreadBytesIgnored(c: seq<byte>, i: nat, x: byte, digest: seq<byte> -> string)
    requires WindowSize <= i < |c|
    requires |c| > TailThreshold ==> i < |c| - WindowSize
    ensures FastHash(Some(c[i := x]), digest) == FastHash(Some(c), digest)
  {
    var c' := c[i := x];
    assert c'[..WindowSize] == c[..WindowSize];
    if |c| > TailThreshold {
      assert c'[|c| - WindowSize..] == c[|c| - WindowSize..];
    }
    assert HashInput(c') == HashInput(c);
  }

  /**
   * With a digest that never yields the empty string, as md5's 32-digit
   * hexdigest never does, the empty fingerprint marks exactly the files
   * that could not be read, so a readable file never shares a fingerprint
   * with an unreadable one.
   */
  lemma EmptyFingerprintIffUnreadable(file: Option<seq<byte>>, other: Option<seq<byte>>, digest: seq<byte> -> string)
    requires forall m :: digest(m) != ""
    ensures FastHash(file, digest) == "" <==> file.None?
    ensures file.Some? && other.None? ==> FastHash(file, digest) != FastHash(other, digest)
  {
    if file.Some? {
      assert digest(HashInput(file.value)) != "";
    }
  }
}
