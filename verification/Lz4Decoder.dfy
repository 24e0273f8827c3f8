/** LZ4_decompress_safe on a 64-bit machine: literals and matches are copied eight bytes at a time,
    past their end, with correction tables for close matches.  It refines `Lz4Format.Decode`. */
module Lz4Decoder {
  import opened Bytes
  import opened Lz4Format

  const DEC32: seq<nat> := [0, 3, 2, 3, 0, 0, 0, 0]
  const DEC64: seq<int> := [0, 0, 0, -1, 0, 1, 2, 3]

  /** One word copy: `n` bytes are read before any is written. */
  method CopyWord(dst: array<byte>, op: nat, ref: nat, n: nat)
    requires op + n <= dst.Length && ref + n <= dst.Length
    modifies dst
    ensures forall k :: op <= k < op + n ==> dst[k] == old(dst[k - op + ref])
    ensures forall k :: 0 <= k < dst.Length && !(op <= k < op + n) ==> dst[k] == old(dst[k])
  {
    var word := dst[ref..ref + n];
    forall k | op <= k < op + n {
      dst[k] := word[k - op];
    }
  }

  /** LZ4_WILDCOPY inside the output: whole words until `end` is reached or passed. */
  method WildCopy(dst: array<byte>, from: nat, far: nat, end: int) returns (op: nat)
    requires 1 <= far <= from && from + 8 <= dst.Length && end + 7 <= dst.Length
    modifies dst
    ensures end <= op && from + 8 <= op <= dst.Length
    ensures dst[..from] == old(dst[..from])
    ensures far >= 8 ==> forall k :: from <= k < op ==> dst[k] == dst[k - far]
  {
    CopyWord(dst, from, from - far, 8);
    op := from + 8;
    while op < end
      invariant from + 8 <= op <= dst.Length
      invariant dst[..from] == old(dst[..from])
      invariant far >= 8 ==> forall k :: from <= k < op ==> dst[k] == dst[k - far]
    {
      CopyWord(dst, op, op - far, 8);
      op := op + 8;
    }
  }

  /** The first four bytes of a match at distance `d`, one at a time. */
  method CopyFour(dst: array<byte>, op: nat, d: nat)
    requires d <= op && op + 4 <= dst.Length
    modifies dst
    ensures dst[..op] == old(dst[..op])
    ensures d >= 1 ==> Periodic(dst[..op + 4], op, op + 4, d)
  {
    var ref := op - d;
    dst[op] := dst[ref];
    dst[op + 1] := dst[ref + 1];
    dst[op + 2] := dst[ref + 2];
    dst[op + 3] := dst[ref + 3];
  }

  /** The first eight bytes of a match closer than eight.  Returns the distance to use from there: a
      multiple of `d`, at least eight, reaching no further back than the match did. */
  method CopyClose(dst: array<byte>, op: nat, d: nat) returns (far: nat)
    requires d <= op && d < 8 && op + 8 <= dst.Length
    modifies dst
    ensures dst[..op] == old(dst[..op])
    ensures 4 <= far <= op + 8
    ensures d >= 1 ==> far >= 8 && Multiple(far, d) && op + 8 - far >= op - d
    ensures d >= 1 ==> Periodic(dst[..op + 8], op, op + 8, d)
  {
    CopyFour(dst, op, d);
    ghost var four := dst[..op + 4];
    var ref := op + 4 - d - DEC32[d];
    CopyWord(dst, op + 4, ref, 4);
    far := op + 8 - (ref - DEC64[d]);
    assert dst[..op + 4] == four;
    if d >= 1 {
      CorrectedDistances(d);
      FourExtends(dst[..op + 8], four, op, d);
    }
  }

  lemma FourExtends(s: seq<byte>, four: seq<byte>, op: nat, d: nat)
    requires 1 <= d < 8 && d <= op && |s| == op + 8 && |four| == op + 4
    requires s[..op + 4] == four && Periodic(four, op, op + 4, d)
    requires forall k :: op + 4 <= k < op + 8 ==> s[k] == s[k - d - DEC32[d]]
    ensures Periodic(s, op, op + 8, d)
  {
    assert forall k :: 0 <= k < op + 4 ==> s[k] == four[k];
    CorrectedDistances(d);
    ExtendPeriod(s, op, op + 4, op + 8, d, d + DEC32[d]);
  }

  /** The first eight bytes of any match. */
  method CopyHead(dst: array<byte>, op: nat, d: nat) returns (far: nat)
    requires d <= op && op + 8 <= dst.Length
    modifies dst
    ensures dst[..op] == old(dst[..op])
    ensures 4 <= far <= op + 8
    ensures d >= 1 ==> far >= 8 && Multiple(far, d) && op + 8 - far >= op - d
    ensures d >= 1 ==> Periodic(dst[..op + 8], op, op + 8, d)
  {
    if d < 8 {
      far := CopyClose(dst, op, d);
    } else {
      CopyWord(dst, op, op - d, 8);
      far := d;
    }
  }

  /** Both corrected distances of a close match are multiples of its distance. */
  lemma CorrectedDistances(d: nat)
    requires 1 <= d < 8
    ensures Multiple(d + DEC32[d], d)
    ensures d + DEC32[d] + DEC64[d] + 4 >= 8 && Multiple(d + DEC32[d] + DEC64[d] + 4, d)
  {
    if d == 1 {
      assert Multiple(2, 1) && Multiple(4, 1) && Multiple(6, 1);
    } else if d == 2 {
      assert Multiple(4, 2) && Multiple(6, 2);
    } else if d == 3 {
      assert Multiple(6, 3);
    }
  }

  /** The rest of a match, up to `end`, from the eighth byte on. */
  method CopyTail(dst: array<byte>, from: nat, far: nat, end: nat) returns (p: nat)
    requires 4 <= far <= from <= dst.Length - 4 && from <= end + 4 && end <= dst.Length - LAST_LITERALS
    modifies dst
    ensures from <= p <= dst.Length && end <= p
    ensures dst[..from] == old(dst[..from])
    ensures far >= 8 ==> forall k :: from <= k < p ==> dst[k] == dst[k - far]
  {
    p := from;
    if end > dst.Length - 8 - 4 {
      if p < dst.Length - 8 {
        p := WildCopy(dst, p, far, dst.Length - 8);
      }
      while p < end
        invariant from <= p <= dst.Length
        invariant dst[..from] == old(dst[..from])
        invariant far >= 8 ==> forall k :: from <= k < p ==> dst[k] == dst[k - far]
      {
        dst[p] := dst[p - far];
        p := p + 1;
      }
    } else {
      p := WildCopy(dst, p, far, end);
    }
  }

  /** A whole match of `n` bytes at distance `d`, refused when it would end inside the last five
      bytes: the fast copy equals the byte-by-byte copy. */
  method CopyMatch(dst: array<byte>, op: nat, d: nat, n: nat) returns (ok: bool)
    requires d <= op <= dst.Length - MF_LIMIT && n >= MIN_MATCH
    modifies dst
    ensures ok <==> op + n <= dst.Length - LAST_LITERALS
    ensures ok && d >= 1 ==> dst[..op + n] == MatchCopy(old(dst[..op]), d, n)
  {
    hide MatchCopy, Multiple, Periodic;
    var far := CopyHead(dst, op, d);
    ghost var head := dst[..op + 8];
    assert head[..op] == old(dst[..op]);
    ok := op + n <= dst.Length - LAST_LITERALS;
    if ok {
      var p := CopyTail(dst, op + 8, far, op + n);
      if d >= 1 {
        ghost var s := dst[..p];
        assert s[..op + 8] == head;
        FastCopyIsMatchCopy(s, head, op, op + n, d, far);
        assert s[..op + n] == dst[..op + n];
      }
    }
  }

  /** From the eight-byte head on, copying at the corrected distance gives the match. */
  lemma {:induction false} FastCopyIsMatchCopy(s: seq<byte>, head: seq<byte>, op: nat, end: nat, d: nat, far: nat)
    requires 1 <= d <= op <= end <= |s| && |head| == op + 8 <= |s|
    requires s[..op + 8] == head && Periodic(head, op, op + 8, d)
    requires Multiple(far, d) && 8 <= far <= op + 8 && op + 8 - far >= op - d
    requires forall k :: op + 8 <= k < |s| ==> s[k] == s[k - far]
    ensures s[..end] == MatchCopy(head[..op], d, end - op)
  {
    assert forall k :: 0 <= k < op + 8 ==> s[k] == head[k];
    assert Periodic(s, op, op + 8, d);
    ExtendPeriod(s, op, op + 8, |s|, d, far);
    assert s[..end][..op] == head[..op];
    PeriodicIsMatchCopy(head[..op], d, s[..end]);
  }

  /** The literals of a sequence that is not the last one. */
  method CopyLiterals(src: seq<byte>, ip: nat, dst: array<byte>, op: nat, n: nat)
    requires ip + n + 8 <= |src| && op + n + 8 <= dst.Length
    modifies dst
    ensures dst[..op + n] == old(dst[..op]) + src[ip..ip + n]
  {
    var done := 0;
    ghost var before := dst[..op];
    while done == 0 || done < n
      invariant 0 <= done <= n + 8 && (done == n + 8 ==> n == 0)
      invariant dst[..op + done] == before + src[ip..ip + done]
      decreases n + 8 - done
    {
      CopyEight(src, ip + done, dst, op + done);
      NextPart(before, src, ip, done, done + 8);
      done := done + 8;
    }
    NextPart(before, src, ip, n, done);
    assert dst[..op + n] == dst[..op + done][..op + n];
  }

  /** The literals of the last sequence: the rest of the input. */
  method CopyLast(src: seq<byte>, ip: nat, dst: array<byte>, op: nat)
    requires ip <= |src| && op + |src| - ip <= dst.Length
    modifies dst
    ensures dst[..op + |src| - ip] == old(dst[..op]) + src[ip..]
  {
    forall k | op <= k < op + |src| - ip {
      dst[k] := src[k - op + ip];
    }
  }

  method ReadLengthAt(src: seq<byte>, start: nat, nibble: nat, keep: nat) returns (n: nat, ip: nat)
    requires start <= |src|
    ensures start <= ip <= |src|
    ensures ReadLength(nibble, src[start..], keep) == Length(n, src[ip..])
  {
    n, ip := nibble, start;
    if nibble == 15 {
      var s := 255;
      while |src| - ip > keep && s == 255
        invariant start <= ip <= |src|
        invariant ReadExtension(src[start..], keep, 15)
               == if s == 255 then ReadExtension(src[ip..], keep, n) else Length(n, src[ip..])
      {
        s := src[ip];
        assert src[ip..][1..] == src[ip + 1..];
        n, ip := n + s, ip + 1;
      }
    }
  }

  /** Where the decoder stands after the match of a sequence: error position, or next sequence. */
  method DecodeMatch(src: seq<byte>, start: nat, nibble: nat, dst: array<byte>, op: nat, ghost out: seq<byte>,
                     ghost exact: bool)
      returns (ok: bool, ip: nat, end: nat)
    requires start + 2 + 1 + LAST_LITERALS <= |src|
    requires op == |out| <= dst.Length - MF_LIMIT && (exact ==> dst[..op] == out)
    modifies dst
    ensures ip <= |src|
    ensures match MatchStep(src[start..], nibble, out, exact, dst.Length)
            case Stop(r) => !ok && r == Corrupt(|src| - ip)
            case More(s, out', exact') => ok && s == src[ip..] && |out'| == end <= dst.Length
                                          && (exact' ==> dst[..end] == out')
  {
    ghost var rest := src[start..];
    var d := src[start] as int + 256 * src[start + 1] as int;
    ip, end, ok := start + 2, op, false;
    if d > op {
      return;
    }
    var n;
    assert rest[2..] == src[start + 2..];
    n, ip := ReadLengthAt(src, ip, nibble, LAST_LITERALS + 1);
    ok := CopyMatch(dst, op, d, MIN_MATCH + n);
    end := op + MIN_MATCH + n;
  }

  /** One sequence. */
  method DecodeSequence(src: seq<byte>, start: nat, dst: array<byte>, from: nat, ghost out: seq<byte>,
                        ghost exact: bool)
      returns (more: bool, r: int, ip: nat, op: nat)
    requires start < |src|
    requires from == |out| <= dst.Length && (exact ==> dst[..from] == out)
    modifies dst
    ensures match SequenceStep(src[start..], out, exact, dst.Length)
            case Stop(Decoded(text, exact')) => !more && r == |text| && (exact' ==> dst[..r] == text)
            case Stop(Corrupt(unread)) => !more && r == -(|src| - unread) - 1
            case More(s, out', exact') => more && ip <= |src| && s == src[ip..] && |out'| == op <= dst.Length
                                          && (exact' ==> dst[..op] == out')
  {
    hide MatchStep;
    hide ReadLength;
    ghost var rest := src[start..];
    var token := src[start];
    assert rest[1..] == src[start + 1..];
    var lit;
    lit, ip := ReadLengthAt(src, start + 1, token / 16, 0);
    op, more := from, false;
    if op + lit > dst.Length - MF_LIMIT || ip + lit > |src| - (2 + 1 + LAST_LITERALS) {
      if ip + lit != |src| || op + lit > dst.Length {
        r := -(ip as int) - 1;
        return;
      }
      CopyLast(src, ip, dst, op);
      r := op + lit;
      return;
    }
    CopyLiterals(src, ip, dst, op, lit);
    assert src[ip..][lit..] == src[ip + lit..] && src[ip..][..lit] == src[ip..ip + lit];
    more, ip, op := DecodeMatch(src, ip + lit, token % 16, dst, op + lit, out + src[ip..ip + lit], exact);
    r := -(ip as int) - 1;
  }

  /** LZ4_decompress_safe: for every input, the return code and the bytes of the reference decoder. */
  method DecompressSafe(src: seq<byte>, dst: array<byte>) returns (r: int)
    requires |src| >= 1 || dst.Length == 0
    modifies dst
    ensures match Decode(src, dst.Length)
            case Decoded(out, exact) => r == |out| <= dst.Length && (exact ==> dst[..r] == out)
            case Corrupt(unread) => unread <= |src| && r == -(|src| - unread) - 1
  {
    if dst.Length == 0 {
      return if |src| == 1 && src[0] == 0 then 0 else -1;
    }
    var ip, op := 0, 0;
    ghost var out: seq<byte>, exact := [], true;
    assert src[0..] == src;
    DecodedFits(src, [], true, dst.Length);
    while true
      invariant ip < |src| && op == |out| <= dst.Length && (exact ==> dst[..op] == out)
      invariant Decode(src, dst.Length) == DecodeFrom(src[ip..], out, exact, dst.Length)
      decreases |src| - ip
    {
      ghost var step := SequenceStep(src[ip..], out, exact, dst.Length);
      var more, ip', op';
      more, r, ip', op' := DecodeSequence(src, ip, dst, op, out, exact);
      if !more {
        return;
      }
      ip, op, out, exact := ip', op', step.out, step.exact;
    }
  }
}
