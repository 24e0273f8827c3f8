/** lzf_decompress (with CHECK_INPUT), which refines `LzfFormat.Decode`. */
module LzfDecoder {
  import opened Bytes
  import opened LzfFormat

  /** Copies inside the output: as a block when the areas are apart, else byte by byte. */
  method CopyRef(dst: array<byte>, op: nat, d: nat, n: nat)
    requires 1 <= d <= op && op + n <= dst.Length
    modifies dst
    ensures dst[..op + n] == MatchCopy(old(dst[..op]), d, n)
  {
    ghost var before := dst[..op];
    if d >= n {
      CopyApart(dst, op, d, n);
    } else {
      CopyBytes(dst, op, d, n);
    }
    assert dst[..op + n][..op] == before;
    PeriodicIsMatchCopy(before, d, dst[..op + n]);
  }

  method CopyApart(dst: array<byte>, op: nat, d: nat, n: nat)
    requires 1 <= d <= op && op + n <= dst.Length && n <= d
    modifies dst
    ensures dst[..op] == old(dst[..op]) && Periodic(dst[..op + n], op, op + n, d)
  {
    var block := dst[op - d..op - d + n];
    forall k | op <= k < op + n {
      dst[k] := block[k - op];
    }
  }

  method CopyBytes(dst: array<byte>, op: nat, d: nat, n: nat)
    requires 1 <= d <= op && op + n <= dst.Length
    modifies dst
    ensures dst[..op] == old(dst[..op]) && Periodic(dst[..op + n], op, op + n, d)
  {
    var p := op;
    while p < op + n
      invariant op <= p <= op + n
      invariant dst[..op] == old(dst[..op])
      invariant Periodic(dst[..p], op, p, d)
    {
      dst[p] := dst[p - d];
      assert dst[..p + 1][..p] == dst[..p];
      p := p + 1;
    }
  }

  method CopyRun(src: seq<byte>, ip: nat, dst: array<byte>, op: nat, n: nat)
    requires ip + n <= |src| && op + n <= dst.Length
    modifies dst
    ensures dst[..op + n] == old(dst[..op]) + src[ip..ip + n]
  {
    forall k | op <= k < op + n {
      dst[k] := src[k - op + ip];
    }
  }

  /** A literal run of `n` bytes. */
  method DecodeRun(src: seq<byte>, ip: nat, dst: array<byte>, op: nat, n: nat) returns (ok: bool)
    requires ip <= |src| && op <= dst.Length
    modifies dst
    ensures ok ==> ip + n <= |src| && op + n <= dst.Length
    ensures RunStep(n, src[ip..], old(dst[..op]), dst.Length)
         == if ok then More(src[ip + n..], dst[..op + n]) else Stop
  {
    ok := op + n <= dst.Length && ip + n <= |src|;
    if ok {
      assert src[ip..][n..] == src[ip + n..] && src[ip..][..n] == src[ip..ip + n];
      CopyRun(src, ip, dst, op, n);
    }
  }

  /** A back reference of `n` bytes whose offset ends at `ip`. */
  method DecodeRef(src: seq<byte>, ip: nat, dst: array<byte>, op: nat, n: nat, hi: nat) returns (ok: bool)
    requires ip < |src| && op <= dst.Length
    modifies dst
    ensures ok ==> op + n <= dst.Length
    ensures RefStep(n, hi, src[ip..], old(dst[..op]), dst.Length)
         == if ok then More(src[ip + 1..], dst[..op + n]) else Stop
  {
    var back := 256 * hi + 1 + src[ip] as int;
    assert src[ip..][1..] == src[ip + 1..];
    ok := op + n <= dst.Length && back <= op;
    if ok {
      CopyRef(dst, op, back, n);
    }
  }

  /** One run or reference; `ok` is false where the code returns 0. */
  method DecodeItem(src: seq<byte>, start: nat, dst: array<byte>, from: nat) returns (ok: bool, ip: nat, op: nat)
    requires start < |src| && from <= dst.Length
    modifies dst
    ensures ok ==> start < ip <= |src| && op <= dst.Length
    ensures ItemStep(src[start..], old(dst[..from]), dst.Length) == if ok then More(src[ip..], dst[..op]) else Stop
  {
    hide RunStep;
    var ctrl := src[start];
    ok, ip, op := false, start + 1, from;
    assert src[start..][1..] == src[ip..];
    if ctrl < 32 {
      ok := DecodeRun(src, ip, dst, op, ctrl + 1);
      ip, op := ip + ctrl + 1, op + ctrl + 1;
      return;
    }
    var len, hi := ctrl as int / 32, ctrl as int % 32;
    if ip >= |src| {
      return;
    }
    if len == 7 {
      len, ip := len + src[ip] as int, ip + 1;
      assert src[start..][2..] == src[ip..];
      if ip >= |src| {
        return;
      }
    }
    ok := DecodeRef(src, ip, dst, op, len + 2, hi);
    ip, op := ip + 1, op + len + 2;
  }

  /** lzf_decompress: the bytes of the reference decoder, or 0 exactly when it rejects the input. */
  method Decompress(src: seq<byte>, dst: array<byte>) returns (n: nat)
    requires |src| >= 1
    modifies dst
    ensures n <= dst.Length
    ensures match Decode(src, dst.Length)
            case Decoded(out) => n > 0 && dst[..n] == out
            case Rejected => n == 0
  {
    var ip, op: nat := 0, 0;
    assert src[0..] == src && dst[..0] == [];
    while true
      invariant ip < |src| && op <= dst.Length
      invariant Decode(src, dst.Length) == DecodeFrom(src[ip..], dst[..op], dst.Length)
      decreases |src| - ip
    {
      var ok;
      ghost var out := dst[..op];
      ProducesByte(src[ip..], out, dst.Length);
      ok, ip, op := DecodeItem(src, ip, dst, op);
      if !ok {
        return 0;
      }
      if ip == |src| {
        assert src[ip..] == [];
        return op;
      }
    }
  }

  lemma {:induction false} ProducesByte(s: seq<byte>, out: seq<byte>, cap: nat)
    requires |s| >= 1
    ensures ItemStep(s, out, cap).More? ==> |ItemStep(s, out, cap).out| > |out|
  {
  }
}
