/** Bytes, and the byte-by-byte overlapping copy that both LZ formats are defined by. */
module Bytes {

  type byte = x: int | 0 <= x < 256

  /** Appends `n` bytes to `out`, each the byte `d` positions before it. */
  function MatchCopy(out: seq<byte>, d: nat, n: nat): (r: seq<byte>)
    requires 1 <= d <= |out|
    ensures |r| == |out| + n
    decreases n
  {
    if n == 0 then out else MatchCopy(out + [out[|out| - d]], d, n - 1)
  }

  /** Every byte of s[lo..hi] equals the byte `d` positions before it. */
  ghost predicate Periodic(s: seq<byte>, lo: nat, hi: nat, d: nat)
    requires 1 <= d <= lo && hi <= |s|
  {
    forall k :: lo <= k < hi ==> s[k] == s[k - d]
  }

  /** A copy at distance `d` is the only extension of `out` that has period `d`. */
  lemma {:induction false} PeriodicIsMatchCopy(out: seq<byte>, d: nat, s: seq<byte>)
    requires 1 <= d <= |out| <= |s|
    requires s[..|out|] == out
    requires Periodic(s, |out|, |s|, d)
    ensures s == MatchCopy(out, d, |s| - |out|)
    decreases |s| - |out|
  {
    if |s| == |out| {
      assert s[..|out|] == s;
    } else {
      assert s[|out|] == s[|out| - d] == out[|out| - d];
      assert s[..|out| + 1] == out + [out[|out| - d]];
      PeriodicIsMatchCopy(s[..|out| + 1], d, s);
    }
  }

  /** `far` is d, 2d, 3d, ... */
  ghost predicate Multiple(far: nat, d: nat)
    requires d >= 1
    decreases far
  {
    far == d || (far > d && Multiple(far - d, d))
  }

  /** In a region of period `d`, looking back any multiple of `d` finds the same byte. */
  lemma {:induction false} LookBack(s: seq<byte>, lo: nat, m: nat, d: nat, far: nat)
    requires 1 <= d <= lo <= m <= |s|
    requires Periodic(s, lo, m, d) && Multiple(far, d)
    requires far <= m && m - far >= lo - d
    ensures s[m - far] == s[m - d]
    decreases far
  {
    if far > d {
      assert s[m - far + d] == s[m - far];
      LookBack(s, lo, m, d, far - d);
    }
  }

  /** Copying from a larger distance that is a multiple of `d` extends the period `d`. */
  lemma {:induction false} ExtendPeriod(s: seq<byte>, lo: nat, m: nat, hi: nat, d: nat, far: nat)
    requires 1 <= d <= lo <= m <= hi <= |s|
    requires Periodic(s, lo, m, d) && Multiple(far, d)
    requires far <= m && m - far >= lo - d
    requires forall k :: m <= k < hi ==> s[k] == s[k - far]
    ensures Periodic(s, lo, hi, d)
    decreases hi - m
  {
    if m < hi {
      LookBack(s, lo, m, d, far);
      assert Periodic(s, lo, m + 1, d);
      ExtendPeriod(s, lo, m + 1, hi, d, far);
    }
  }

  /** Eight bytes at a time. */
  method CopyEight(src: seq<byte>, from: nat, dst: array<byte>, to: nat)
    requires from + 8 <= |src| && to + 8 <= dst.Length
    modifies dst
    ensures dst[..to + 8] == old(dst[..to]) + src[from..from + 8]
    ensures forall i :: to + 8 <= i < dst.Length ==> dst[i] == old(dst[i])
  {
    forall k | to <= k < to + 8 {
      dst[k] := src[k - to + from];
    }
  }

  lemma {:induction false} NextPart(before: seq<byte>, src: seq<byte>, lo: nat, n: nat, m: nat)
    requires lo + n <= lo + m <= |src|
    ensures before + src[lo..lo + n] + src[lo + n..lo + m] == before + src[lo..lo + m]
    ensures (before + src[lo..lo + m])[..|before| + n] == before + src[lo..lo + n]
  {
    assert src[lo..lo + n] + src[lo + n..lo + m] == src[lo..lo + m];
  }
}
