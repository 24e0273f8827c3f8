/** LZ4_compress_limitedOutput on a 64-bit machine (byU16 and byU32 tables, no prefix).  Whatever the
    lossy hash table proposes, the block it writes decodes to the input. */
module Lz4Encoder {
  import opened Bytes
  import opened Lz4Format
  import opened Lz4Parse

  /** LZ4_COMPRESSBOUND. */
  function CompressBound(n: nat): nat {
    n + n / 255 + 16
  }

  /** The shortest input for which the encoder can write past the requested limit. */
  const FIRST_OVERRUN := 134674

  /** How far past the requested limit the encoder can write for `n` input bytes. */
  function Overrun(n: nat): nat {
    if n < FIRST_OVERRUN then 0 else (n - 4114) / 65280 - 1
  }

  /** What the length of a match can take beyond a 256th of it. */
  function Surplus(length: nat): nat {
    if length < 4095 then 1 else (length - 4095) / 65280 + 2
  }

  // ----- Hash table

  /** Every position in the table is before `limit`. */
  ghost predicate Below(table: array<nat>, limit: nat)
    reads table
  {
    forall h :: 0 <= h < table.Length ==> table[h] < limit
  }

  method PutOnHash(table: array<nat>, h: nat, p: nat, kind: TableType)
    requires h < table.Length && Below(table, p + 1)
    requires p < if kind == ByU16 then 0x1_0000 else 0x1_0000_0000
    modifies table
    ensures table[..] == old(table[..])[h := p] && Below(table, p + 1)
  {
    table[h] := if kind == ByU16 then p % 0x1_0000 else p % 0x1_0000_0000;
  }

  // ----- Searching

  /** Skips forward, faster and faster, to a position whose table entry is a match of four bytes.  The first
      step of two is made to start + 63, so that a period of two is noticed there at the latest. */
  method FindMatch(src: seq<byte>, table: array<nat>, kind: TableType, start: nat, hash: nat)
      returns (found: bool, ip: nat, ref: nat)
    requires table.Length == Cells(kind) && MIN_LENGTH <= |src| <= MAX_INPUT_SIZE
    requires kind == ByU16 ==> |src| < LIMIT_64K
    requires 1 <= start <= |src| - MF_LIMIT + 1 && hash == HashPosition(src, start, kind)
    requires Below(table, start)
    modifies table
    ensures Search(found, ip, ref, table[..]) == Searched(src, old(table[..]), kind, start, 64 + 3)
    ensures found ==>
              start <= ip < |src| - MF_LIMIT && ref < ip <= ref + MAX_DISTANCE && Periodic(src, ip, ip + 4, ip - ref)
    ensures found ==> Below(table, ip + 1)
    ensures found && ip > start + 63 ==> !Periodic(src, start + 63, start + 67, 2)
  {
    hide HashPosition, SameWord, Passed, Periodic, Searched;
    var limit := |src| - MF_LIMIT;
    var attempts, forward, h := 64 + 3, start, hash;
    PassedStart(src, table[..], kind, start);
    while true
      invariant attempts >= 67 && 1 <= start <= forward <= limit + 1
      invariant h == HashPosition(src, forward, kind) && Below(table, forward)
      invariant Searched(src, old(table[..]), kind, start, 64 + 3) == Searched(src, table[..], kind, forward, attempts)
      invariant Passed(src, table[..], kind, start, forward, attempts)
      decreases limit + 1 - forward
    {
      SearchedIs(src, table[..], kind, forward, attempts);
      var step := attempts / 64;
      attempts := attempts + 1;
      ip := forward;
      forward := ip + step;
      if forward > limit {
        found, ref := false, 0;
        return;
      }
      var h' := HashPosition(src, forward, kind);
      ref := table[h];
      ghost var before := table[..];
      PutOnHash(table, h, ip, kind);
      assert table[..] == before[h := ip];
      h := h';
      if ref + MAX_DISTANCE >= ip && SameWord(src, ip, ip - ref, 4) {
        found := true;
        PassedEnd(src, before, kind, start, ip, attempts - 1);
        return;
      }
      PassedStep(src, before, kind, start, ip, attempts - 1);
    }
  }

  /** Extends a match backwards over bytes not yet emitted. */
  method CatchUp(src: seq<byte>, anchor: nat, start: nat, d: nat) returns (ip: nat)
    requires anchor <= start && 1 <= d <= start && start + 4 <= |src| && Periodic(src, start, start + 4, d)
    ensures anchor <= ip <= start && d <= ip && Periodic(src, ip, start + 4, d)
    ensures ip == anchor || ip == d || src[ip - 1] != src[ip - d - 1]
    ensures ip == BackTo(src, anchor, start, d)
  {
    ip := start;
    while ip > anchor && ip - d > 0 && src[ip - 1] == src[ip - d - 1]
      invariant anchor <= ip <= start && d <= ip && Periodic(src, ip, start + 4, d)
      invariant BackTo(src, anchor, ip, d) == BackTo(src, anchor, start, d)
    {
      ip := ip - 1;
    }
  }

  /** Number of leading bytes in which two unequal words of eight agree. */
  method CommonBytes(src: seq<byte>, ip: nat, d: nat) returns (n: nat)
    requires 1 <= d <= ip && ip + 8 <= |src| && !SameWord(src, ip, d, 8)
    ensures n < 8 && Periodic(src, ip, ip + n, d) && src[ip + n] != src[ip + n - d]
  {
    n := 0;
    while src[ip + n] == src[ip + n - d]
      invariant n < 8 && Periodic(src, ip, ip + n, d)
      decreases 8 - n
    {
      n := n + 1;
    }
  }

  /** How far the match at distance `d` reaches, at most `limit`: words of 8, then 4, 2 and 1. */
  method CountMatch(src: seq<byte>, start: nat, d: nat, limit: nat) returns (ip: nat)
    requires 1 <= d <= start <= limit && limit <= |src|
    ensures start <= ip <= limit && Periodic(src, start, ip, d)
    ensures ip < limit ==> src[ip] != src[ip - d]
  {
    hide SameWord;
    ip := start;
    while ip + 7 < limit
      invariant start <= ip <= limit && Periodic(src, start, ip, d)
    {
      if SameWord(src, ip, d, 8) {
        ip := ip + 8;
      } else {
        var n := CommonBytes(src, ip, d);
        ip := ip + n;
        return;
      }
    }
    ip := CountTail(src, ip, d, limit);
  }

  /** The last seven bytes at most. */
  method CountTail(src: seq<byte>, start: nat, d: nat, limit: nat) returns (ip: nat)
    requires 1 <= d <= start <= limit <= start + 7 && limit <= |src|
    ensures start <= ip <= limit && Periodic(src, start, ip, d)
    ensures ip < limit ==> src[ip] != src[ip - d]
  {
    hide SameWord;
    ip := start;
    if ip + 3 < limit && SameWord(src, ip, d, 4) {
      ip := ip + 4;
    }
    assert ip + 3 < limit ==> !Periodic(src, ip, ip + 4, d);
    ip := CountPair(src, start, ip, d, limit);
  }

  /** The last three bytes at most; if there are more, four that are not all equal. */
  method CountPair(src: seq<byte>, ghost start: nat, from: nat, d: nat, limit: nat) returns (ip: nat)
    requires 1 <= d <= start <= from <= limit <= from + 7 && limit <= |src| && Periodic(src, start, from, d)
    requires from + 3 < limit ==> !Periodic(src, from, from + 4, d)
    ensures from <= ip <= limit && Periodic(src, start, ip, d)
    ensures ip < limit ==> src[ip] != src[ip - d]
  {
    hide SameWord;
    ip := from;
    if ip + 1 < limit && SameWord(src, ip, d, 2) {
      ip := ip + 2;
    }
    if ip < limit && src[ip - d] == src[ip] {
      ip := ip + 1;
    }
  }

  // ----- Emitting

  /** Length bytes of the literals, one at a time. */
  method WriteExtension(dst: array<byte>, from: nat, n: nat) returns (op: nat)
    requires from + |ExtensionBytes(n)| <= dst.Length
    modifies dst
    ensures op == from + |ExtensionBytes(n)|
    ensures dst[..op] == old(dst[..from]) + ExtensionBytes(n)
    ensures forall i :: op <= i < dst.Length ==> dst[i] == old(dst[i])
  {
    var left := n;
    op := from;
    while left >= 255
      invariant 0 <= left && op + |ExtensionBytes(left)| == from + |ExtensionBytes(n)|
      invariant dst[..op] + ExtensionBytes(left) == old(dst[..from]) + ExtensionBytes(n)
      invariant forall i :: from + |ExtensionBytes(n)| <= i < dst.Length ==> dst[i] == old(dst[i])
    {
      assert ExtensionBytes(left) == [255] + ExtensionBytes(left - 255);
      dst[op] := 255;
      assert dst[..op + 1] == dst[..op] + [255];
      left, op := left - 255, op + 1;
    }
    dst[op] := left;
    assert dst[..op + 1] == dst[..op] + [left];
    op := op + 1;
  }

  lemma {:induction false} PairOfBytes(n: nat)
    requires n > 509
    ensures ExtensionBytes(n) == [255, 255] + ExtensionBytes(n - 510)
  {
  }

  /** Length bytes of a match, two at a time. */
  method WriteExtensionInPairs(dst: array<byte>, from: nat, n: nat) returns (op: nat)
    requires from + |ExtensionBytes(n)| <= dst.Length
    modifies dst
    ensures op == from + |ExtensionBytes(n)|
    ensures dst[..op] == old(dst[..from]) + ExtensionBytes(n)
    ensures forall i :: op <= i < dst.Length ==> dst[i] == old(dst[i])
  {
    hide ExtensionBytes;
    var left := n;
    op := from;
    while left > 509
      invariant 0 <= left && op + |ExtensionBytes(left)| == from + |ExtensionBytes(n)|
      invariant dst[..op] + ExtensionBytes(left) == old(dst[..from]) + ExtensionBytes(n)
      invariant forall i :: from + |ExtensionBytes(n)| <= i < dst.Length ==> dst[i] == old(dst[i])
    {
      PairOfBytes(left);
      dst[op] := 255;
      dst[op + 1] := 255;
      assert dst[..op + 2] == dst[..op] + [255, 255];
      left, op := left - 510, op + 2;
    }
    op := WriteExtension(dst, op, left);
  }

  /** Token and length bytes of `n` literals. */
  method WriteHeader(dst: array<byte>, from: nat, n: nat) returns (op: nat)
    requires from + 1 + |Extension(n)| <= dst.Length
    modifies dst
    ensures op == from + 1 + |Extension(n)|
    ensures dst[..op] == old(dst[..from]) + [Token(n, 0)] + Extension(n)
    ensures forall i :: op <= i < dst.Length ==> dst[i] == old(dst[i])
  {
    dst[from] := 16 * Nibble(n);
    op := from + 1;
    assert dst[..op] == old(dst[..from]) + [Token(n, 0)];
    if n >= 15 {
      op := WriteExtension(dst, op, n - 15);
    }
  }

  /** Room the literals take: whole words, at least one. */
  function LiteralRoom(n: nat): nat {
    if n == 0 then 8 else n + 7
  }

  method CopyLiterals(src: seq<byte>, anchor: nat, ip: nat, dst: array<byte>, op: nat)
    requires anchor <= ip && ip + 8 <= |src| && op + LiteralRoom(ip - anchor) <= dst.Length
    modifies dst
    ensures dst[..op + (ip - anchor)] == old(dst[..op]) + src[anchor..ip]
    ensures forall i :: op + LiteralRoom(ip - anchor) <= i < dst.Length ==> dst[i] == old(dst[i])
  {
    var n, done := ip - anchor, 0;
    ghost var before := dst[..op];
    while done == 0 || done < n
      invariant 0 <= done <= LiteralRoom(n)
      invariant dst[..op + done] == before + src[anchor..anchor + done]
      invariant forall i :: op + LiteralRoom(n) <= i < dst.Length ==> dst[i] == old(dst[i])
      decreases n + 8 - done
    {
      CopyEight(src, anchor + done, dst, op + done);
      NextPart(before, src, anchor, done, done + 8);
      done := done + 8;
    }
    NextPart(before, src, anchor, n, done);
    assert dst[..op + n] == dst[..op + done][..op + n];
  }

  /** The check before the literals leaves room for all of their words. */
  lemma {:induction false} LiteralsFit(n: nat)
    ensures |Extension(n)| <= n / 255 + 1
    ensures |Extension(n)| + LiteralRoom(n) <= n + 8 + n / 255
  {
    if n >= 15 {
      ExtensionSize(n - 15);
    }
  }

  /** Token, length and bytes of the literals src[anchor..ip]; refused when they might not fit. */
  method EmitLiterals(src: seq<byte>, anchor: nat, ip: nat, dst: array<byte>, from: nat, maxOut: nat)
      returns (ok: bool, op: nat)
    requires anchor <= ip && ip + 8 <= |src| && maxOut <= dst.Length
    modifies dst
    ensures ok <==> from + 1 + (ip - anchor) + (2 + 1 + LAST_LITERALS) + (ip - anchor) / 255 <= maxOut
    ensures ok ==> from < op <= maxOut - 2
    ensures ok ==> dst[..op] == old(dst[..from]) + [Token(ip - anchor, 0)] + Extension(ip - anchor) + src[anchor..ip]
    ensures forall i :: maxOut <= i < dst.Length ==> dst[i] == old(dst[i])
  {
    hide Extension;
    hide Token;
    var length := ip - anchor;
    op := from + 1;
    ok := op + length + (2 + 1 + LAST_LITERALS) + length / 255 <= maxOut;
    if !ok {
      return;
    }
    LiteralsFit(length);
    op := WriteHeader(dst, from, length);
    CopyLiterals(src, anchor, ip, dst, op);
    op := op + length;
  }

  /** Two ways of dividing a length, and how far they drift apart. */
  lemma {:induction false} Drift(length: nat, a: nat, b: nat, c: nat)
    requires length >= 4095
    requires 255 * a <= length - 15 < 255 * a + 255
    requires 256 * b <= length < 256 * b + 256
    requires 65280 * c <= length - 4095 < 65280 * c + 65280
    ensures a <= b + c + 1
  {
  }

  /** The match-length limit check is an estimate: this is how far it can be off. */
  lemma {:induction false} EstimateError(length: nat)
    ensures |Extension(length)| <= length / 256 + Surplus(length)
  {
    if length >= 15 {
      ExtensionSize(length - 15);
      if length >= 4095 {
        Drift(length, (length - 15) / 255, length / 256, (length - 4095) / 65280);
      }
    }
  }

  /** The check that is made before a match length is written at op, in a buffer that ends at end. */
  predicate LengthFits(op: nat, length: nat, end: nat) {
    op + (1 + LAST_LITERALS) + length / 256 <= end
  }

  /** The check keeps the length inside the buffer, wherever the buffer ends, exactly for these lengths. */
  lemma {:induction false} CheckIsSound(length: nat)
    ensures (forall op: nat, end: nat :: LengthFits(op, length, end) ==> op + |Extension(length)| <= end)
       <==> (length < 15 || (length - 15) / 255 <= length / 256 + LAST_LITERALS)
  {
    if length >= 15 {
      ExtensionSize(length - 15);
    }
    assert LengthFits(0, length, 1 + LAST_LITERALS + length / 256);
  }

  lemma {:induction false} TokenSum(lit: nat, length: nat)
    ensures Token(lit, 0) as int + Nibble(length) == Token(lit, length)
  {
  }

  /** Adds the match length to the token and writes its extension. */
  method WriteMatchLength(dst: array<byte>, from: nat, length: nat, token: nat,
                          ghost pre: seq<byte>, ghost lit: nat, ghost rest: seq<byte>) returns (op: nat)
    requires token == |pre| && from + |Extension(length)| <= dst.Length
    requires dst[..from] == pre + [Token(lit, 0)] + rest
    modifies dst
    ensures op == from + |Extension(length)|
    ensures dst[..op] == pre + [Token(lit, length)] + rest + Extension(length)
    ensures forall i :: op <= i < dst.Length ==> dst[i] == old(dst[i])
  {
    hide Token, Nibble, ExtensionBytes;
    assert dst[token] == dst[..from][token] == Token(lit, 0);
    var t := dst[token] as int + Nibble(length);
    TokenSum(lit, length);
    dst[token] := t;
    assert dst[..from] == pre + [Token(lit, length)] + rest;
    if length >= 15 {
      op := WriteExtensionInPairs(dst, from, length - 15);
    } else {
      op := from;
    }
  }

  lemma {:induction false} SerializeInParts(pre: seq<byte>, token: seq<byte>, ext: seq<byte>, lits: seq<byte>,
                                            two: seq<byte>, ext2: seq<byte>)
    ensures pre + token + ext + lits + two == pre + token + (ext + lits + two)
    ensures pre + token + (ext + lits + two) + ext2 == pre + (token + ext + lits + (two + ext2))
  {
    Associate(pre, token, ext, lits, two);
    Associate(token, ext, lits, two, ext2);
    Associate(pre, token, ext + lits + two, ext2, []);
  }

  /** Offset and length of the match at distance `d` from `start`; completes the token at |pre|.  The
      match reaches as far as the bytes agree, at least to `reach`. */
  method EmitMatch(src: seq<byte>, start: nat, d: nat, dst: array<byte>, from: nat, maxOut: nat,
                   token: nat, ghost pre: seq<byte>, ghost lits: seq<byte>, ghost reach: nat)
      returns (ok: bool, op: nat, ip: nat)
    requires 1 <= d <= start && d < 0x10000 && start + 4 <= reach <= |src| - LAST_LITERALS
    requires Periodic(src, start, reach, d)
    requires token == |pre| && from + 2 <= maxOut + Overrun(|src|) <= dst.Length
    requires dst[..from] == pre + [Token(|lits|, 0)] + Extension(|lits|) + lits
    modifies dst
    ensures reach <= ip <= |src| - LAST_LITERALS && Periodic(src, start, ip, d)
    ensures ok <==> from + 2 + (1 + LAST_LITERALS) + (ip - start - 4) / 256 <= maxOut
    ensures ip < |src| - LAST_LITERALS ==> src[ip] != src[ip - d]
    ensures ok ==> op + 6 <= maxOut + Surplus(ip - start - 4) && op <= maxOut + Overrun(|src|)
    ensures !ok ==> dst[from] as int == d % 256 && dst[from + 1] as int == d / 256
    ensures ok ==> dst[..op] == pre + Serialize(Sequence(lits, d % 256, d / 256, ip - start))
    ensures forall i :: maxOut + Overrun(|src|) <= i < dst.Length ==> dst[i] == old(dst[i])
  {
    var lo, hi := d % 256, d / 256;
    dst[from] := lo;
    dst[from + 1] := hi;
    op := from + 2;
    assert dst[..op] == dst[..from] + [lo, hi];
    ip := CountMatch(src, start + 4, d, |src| - LAST_LITERALS);
    assert Periodic(src, start, ip, d);
    assert ip >= reach;
    var length := ip - start - 4;
    ok := LengthFits(op, length, maxOut);
    if !ok {
      return;
    }
    hide Extension;
    hide Token;
    EstimateError(length);
    SurplusFits(length, |src|);
    hide Surplus, Overrun;
    SerializeInParts(pre, [Token(|lits|, 0)], Extension(|lits|), lits, [lo, hi], Extension(length));
    op := WriteMatchLength(dst, op, length, token, pre, |lits|, Extension(|lits|) + lits + [lo, hi]);
    SerializeInParts(pre, [Token(|lits|, length)], Extension(|lits|), lits, [lo, hi], Extension(length));
  }

  /** The overrun covers the length of any match, and a token and offset behind any match that another one can
      follow. */
  lemma {:induction false} SurplusFits(length: nat, n: nat)
    ensures length + 10 <= n ==> Surplus(length) <= Overrun(n) + 6
    ensures length < 65600 || length + 19 <= n ==> Surplus(length) <= Overrun(n) + 3
  {
  }

  /** A long match that begins at position 1 or 2 is not followed at once by another: all entries of the table
      but the one of end - 2 are too far back, and that one cannot match. */
  lemma {:induction false} NoneFollows(src: seq<byte>, start: nat, d: nat, end: nat, ref: nat)
    requires 1 <= d <= start <= 2 && 65600 <= end && end + 4 <= |src|
    requires Periodic(src, start, end, d) && src[end] != src[end - d]
    requires ref <= 64 || ref == end - 2
    ensures !(ref < end <= ref + MAX_DISTANCE && Periodic(src, end, end + 4, end - ref))
  {
    assert src[end - d] == src[end - 2];
  }

  // ----- The encoder

  /** `pre` serializes sequences whose text is src[..anchor]. */
  ghost predicate Emitted(pre: seq<byte>, qs: seq<Sequence>, src: seq<byte>, anchor: nat) {
    && Valid(qs, |src|)
    && pre == SerializeAll(qs, |src|)
    && anchor <= |src| && Text(qs, |src|) == src[..anchor]
  }

  lemma {:induction false} Extend(pre: seq<byte>, qs: seq<Sequence>, src: seq<byte>, anchor: nat, ip: nat, d: nat,
                                  end: nat)
    requires Emitted(pre, qs, src, anchor)
    requires anchor <= ip <= |src| - MF_LIMIT && ip + 4 <= end <= |src| - LAST_LITERALS
    requires 1 <= d <= ip && d < 0x10000 && Periodic(src, ip, end, d)
    ensures var q := Sequence(src[anchor..ip], d % 256, d / 256, end - ip);
            Emitted(pre + Serialize(q), qs + [q], src, end)
  {
    hide Serialize;
    hide Valid;
    hide Text;
    hide SerializeAll;
    hide MatchCopy;
    var q := Sequence(src[anchor..ip], d % 256, d / 256, end - ip);
    assert q.Offset() == d;
    assert Size(qs) == |Text(qs, |src|)| == anchor;
    Append(qs, q, |src|);
    assert src[..anchor] + src[anchor..ip] == src[..ip];
    assert src[..end][..ip] == src[..ip];
    PeriodicIsMatchCopy(src[..ip], d, src[..end]);
  }

  /** Bytes emitted so far never pass the bound that LZ4_COMPRESSBOUND is made of. */
  lemma {:induction false} EmittedSize(pre: seq<byte>, qs: seq<Sequence>, src: seq<byte>, anchor: nat)
    requires Emitted(pre, qs, src, anchor)
    ensures |pre| <= anchor + anchor / 255
  {
    assert Size(qs) == |Text(qs, |src|)| == anchor;
    SerializedSize(qs, |src|);
  }

  lemma {:induction false} NoRoomForLiterals(emitted: nat, a: nat, ip: nat, maxOut: nat, n: nat)
    requires emitted <= a + a / 255 && a <= ip && ip + 8 <= n
    requires emitted + 1 + (ip - a) + (2 + 1 + LAST_LITERALS) + (ip - a) / 255 > maxOut
    ensures maxOut < CompressBound(n)
  {
  }

  /** A match that is refused is refused only below the published bound. */
  lemma {:induction false} NoRoom(emitted: nat, a: nat, ip: nat, end: nat, from: nat, maxOut: nat, n: nat)
    requires emitted <= a + a / 255 && a <= ip && ip + 4 <= end <= n
    requires from <= emitted + 1 + (ip - a) / 255 + 1 + (ip - a)
    requires from + 2 + (1 + LAST_LITERALS) + (end - ip - 4) / 256 > maxOut
    ensures maxOut < CompressBound(n)
  {
  }

  /** Chained: another match begins right where the last one ended. */
  datatype Status = OutOfSpace | AtEnd | Searching | Chained

  /** Where the encoder stands in the parse `all` of its input: `ps` is written and has passed every check, and the
      rest is what the table leads to from ip on.  Out of space: a check of `all` fails. */
  ghost predicate Tracked(src: seq<byte>, kind: TableType, maxOut: nat, all: seq<Piece>, ps: seq<Piece>,
                          qs: seq<Sequence>, table: seq<nat>, status: Status, ip: nat, d: nat) {
    && AllSound(src, all)
    && if status == OutOfSpace then !AllAdmitted(src, all, maxOut)
       else
         && AllSound(src, ps) && qs == SequencesOf(src, ps) && AllAdmitted(src, ps, maxOut) && End(ps) == ip
         && (status == AtEnd ==> all == ps)
         && (status == Searching ==>
               && |table| == Cells(kind) && MIN_LENGTH <= |src| && ip + MF_LIMIT <= |src|
               && all == ps + ParseFrom(src, table, kind, ip))
         && (status == Chained ==> Ahead(src, kind, maxOut, all, ps, qs, table, ip, ip, d, true))
  }

  /** The next piece of the parse is a match that has been found. */
  ghost predicate Ahead(src: seq<byte>, kind: TableType, maxOut: nat, all: seq<Piece>, ps: seq<Piece>,
                        qs: seq<Sequence>, table: seq<nat>, from: nat, start: nat, d: nat, chained: bool) {
    && AllSound(src, all) && AllSound(src, ps) && qs == SequencesOf(src, ps) && AllAdmitted(src, ps, maxOut)
    && End(ps) == from && |table| == Cells(kind) && MIN_LENGTH <= |src| && CanMatch(src, from, start, d)
    && all == ps + ParseMatch(src, table, kind, from, start, d, chained)
  }

  /** What one match comes to, from a table and with `out` bytes written up to its literals. */
  ghost predicate OneDone(src: seq<byte>, kind: TableType, maxOut: nat, table: seq<nat>, from: nat, start: nat, d: nat,
                          out: nat, qs: seq<Sequence>, status: Status, end: nat, d': nat, table': seq<nat>,
                          qs': seq<Sequence>) {
    && |table| == Cells(kind) && CanMatch(src, from, start, d)
    && end == MatchEnd(src, start + MIN_MATCH, d, |src| - LAST_LITERALS)
    && (status == OutOfSpace <==> out + 2 + (1 + LAST_LITERALS) + (end - start - MIN_MATCH) / 256 > maxOut)
    && (status != OutOfSpace ==>
          && qs' == qs + [Sequence(src[from..start], d % 256, d / 256, end - start)]
          && (status == AtEnd <==> end + MF_LIMIT > |src|)
          && (status != AtEnd ==>
                && table' == EnteredAt(src, table, kind, end)
                && (status == Chained <==> IsMatch(src, end, RefAt(src, table, kind, end)))
                && (status == Chained ==> d' == end - RefAt(src, table, kind, end))))
  }

  lemma {:induction false} OneComesTo(src: seq<byte>, kind: TableType, maxOut: nat, table: seq<nat>, from: nat,
                                      start: nat, d: nat, out: nat, qs: seq<Sequence>, ok: bool, found: bool, ref: nat,
                                      status: Status, end: nat, d': nat, table': seq<nat>, qs': seq<Sequence>)
    requires |table| == Cells(kind) && from <= start && start + MF_LIMIT <= |src|
    requires 1 <= d <= start && d <= MAX_DISTANCE
    requires start + MIN_MATCH <= end <= |src| - LAST_LITERALS && Periodic(src, start, end, d)
    requires end < |src| - LAST_LITERALS ==> src[end] != src[end - d]
    requires ok <==> out + 2 + (1 + LAST_LITERALS) + (end - start - MIN_MATCH) / 256 <= maxOut
    requires status == if !ok then OutOfSpace
                       else if end > |src| - MF_LIMIT then AtEnd
                       else if found then Chained
                       else Searching
    requires ok ==> qs' == qs + [Sequence(src[from..start], d % 256, d / 256, end - start)]
    requires ok && end <= |src| - MF_LIMIT ==>
               && ref == RefAt(src, table, kind, end) && table' == EnteredAt(src, table, kind, end)
               && (found <==> ref < end <= ref + MAX_DISTANCE && Periodic(src, end, end + 4, end - ref))
               && (found ==> d' == end - ref)
    ensures OneDone(src, kind, maxOut, table, from, start, d, out, qs, status, end, d', table', qs')
  {
    hide MatchEnd, SameWord, RefAt, EnteredAt;
    IsMatchEnd(src, start + MIN_MATCH, d, |src| - LAST_LITERALS, end);
  }

  /** `pre` is as long as what is written for the pieces. */
  lemma {:induction false} EmittedIsWritten(pre: seq<byte>, src: seq<byte>, ps: seq<Piece>, anchor: nat)
    requires AllSound(src, ps) && Emitted(pre, SequencesOf(src, ps), src, anchor)
    ensures pre == Written(src, ps)
  {
    hide AllSound, SequencesOf, Written, SerializeAll, Text, Valid;
    WrittenIsSerialized(src, ps);
  }

  /** The checks of the next piece decide. */
  lemma {:induction false} NextDecides(src: seq<byte>, kind: TableType, maxOut: nat, all: seq<Piece>, ps: seq<Piece>,
                                       qs: seq<Sequence>, table: seq<nat>, from: nat, start: nat, d: nat,
                                       chained: bool, pre: seq<byte>)
    requires Ahead(src, kind, maxOut, all, ps, qs, table, from, start, d, chained) && Emitted(pre, qs, src, from)
    ensures var p := PieceAt(src, from, start, d, chained);
            && AllSound(src, ps + [p]) && SequencesOf(src, ps + [p]) == qs + [SequenceOf(src, p)]
            && all == ps + [p] + ParseBehind(src, table, kind, p.end)
            && if LiteralsAdmitted(|pre|, p, maxOut) && MatchAdmitted(|pre|, p, maxOut) then
                 AllAdmitted(src, ps + [p], maxOut)
               else !AllAdmitted(src, all, maxOut)
  {
    hide Emitted, AllSound, AllAdmitted, SequencesOf, Written, ParseBehind, MatchEnd, CanMatch, Extension;
    var p := PieceAt(src, from, start, d, chained);
    EmittedIsWritten(pre, src, ps, from);
    MatchIs(src, table, kind, from, start, d, chained);
    hide ParseMatch;
    WrittenMore(src, ps, p);
    AdmittedMore(src, ps, p, maxOut);
    var rest := ParseBehind(src, table, kind, p.end);
    assert ps + [p] + rest == ps + ([p] + rest);
    if !AllAdmitted(src, ps + [p], maxOut) {
      RefusedAll(src, ps + [p], rest, maxOut);
    }
  }

  /** One match done, the encoder stands behind it. */
  lemma {:induction false} TrackOne(src: seq<byte>, kind: TableType, maxOut: nat, all: seq<Piece>, ps: seq<Piece>,
                                    qs: seq<Sequence>, table: seq<nat>, from: nat, start: nat, d: nat,
                                    chained: bool, pre: seq<byte>, out: nat, status: Status, end: nat, d': nat,
                                    table': seq<nat>, qs': seq<Sequence>)
    requires Ahead(src, kind, maxOut, all, ps, qs, table, from, start, d, chained) && Emitted(pre, qs, src, from)
    requires OneDone(src, kind, maxOut, table, from, start, d, out, qs, status, end, d', table', qs')
    requires out == |pre| + 1 + |Extension(start - from)| + (start - from)
    requires chained || |pre| + 1 + (start - from) + (2 + 1 + LAST_LITERALS) + (start - from) / 255 <= maxOut
    ensures Tracked(src, kind, maxOut, all, ps + [Piece(from, start, d, end, chained)], qs', table', status, end, d')
  {
    hide Emitted, AllSound, AllAdmitted, SequencesOf, ParseFrom, ParseMatch, ParseBehind, MatchEnd, Extension, IsMatch,
         RefAt, EnteredAt;
    NextDecides(src, kind, maxOut, all, ps, qs, table, from, start, d, chained, pre);
    var p := PieceAt(src, from, start, d, chained);
    BehindIs(src, table, kind, p.end);
  }

  /** A search done: the parse has ended, or a match lies ahead. */
  lemma {:induction false} TrackSearch(src: seq<byte>, kind: TableType, maxOut: nat, all: seq<Piece>, ps: seq<Piece>,
                                       qs: seq<Sequence>, table: seq<nat>, anchor: nat, d: nat)
    requires Tracked(src, kind, maxOut, all, ps, qs, table, Searching, anchor, d)
    ensures |table| == Cells(kind) && MIN_LENGTH <= |src| && anchor + MF_LIMIT <= |src|
    ensures var r := Searched(src, table, kind, anchor + 1, 64 + 3);
            if !r.found then Tracked(src, kind, maxOut, all, ps, qs, [], AtEnd, anchor, 0)
            else && r.ref < r.ip
                 && Ahead(src, kind, maxOut, all, ps, qs, r.table, anchor, BackTo(src, anchor, r.ip, r.ip - r.ref),
                          r.ip - r.ref, false)
  {
    hide AllSound, AllAdmitted, SequencesOf, ParseFrom, ParseMatch, BackTo, Searched, CanMatch, IsMatch;
    FromIs(src, table, kind, anchor);
  }

  /** A run of literals that is refused. */
  lemma {:induction false} TrackRefused(src: seq<byte>, kind: TableType, maxOut: nat, all: seq<Piece>, ps: seq<Piece>,
                                        qs: seq<Sequence>, table: seq<nat>, from: nat, start: nat, d: nat,
                                        pre: seq<byte>, table': seq<nat>, ip: nat)
    requires Ahead(src, kind, maxOut, all, ps, qs, table, from, start, d, false) && Emitted(pre, qs, src, from)
    requires |pre| + 1 + (start - from) + (2 + 1 + LAST_LITERALS) + (start - from) / 255 > maxOut
    ensures Tracked(src, kind, maxOut, all, ps, qs, table', OutOfSpace, ip, d)
  {
    hide Emitted, AllSound, AllAdmitted, SequencesOf, ParseMatch, ParseBehind, MatchEnd, Extension;
    NextDecides(src, kind, maxOut, all, ps, qs, table, from, start, d, false, pre);
  }

  /** Enters the positions at the end of a match in the table, and looks for a match right there. */
  method NextMatch(src: seq<byte>, table: array<nat>, kind: TableType, ip: nat) returns (found: bool, ref: nat)
    requires table.Length == Cells(kind) && 4 <= ip <= |src| - MF_LIMIT && |src| <= MAX_INPUT_SIZE
             && Below(table, ip - 1)
    requires kind == ByU16 ==> |src| < LIMIT_64K
    modifies table
    ensures ref == old(table[..])[HashPosition(src, ip - 2, kind) := ip - 2][HashPosition(src, ip, kind)]
    ensures table[..] == old(table[..])[HashPosition(src, ip - 2, kind) := ip - 2][HashPosition(src, ip, kind) := ip]
    ensures Below(table, ip + 1) && (ref == ip - 2 || exists h :: 0 <= h < table.Length && old(table[h]) == ref)
    ensures found <==> ref < ip <= ref + MAX_DISTANCE && Periodic(src, ip, ip + 4, ip - ref)
  {
    hide HashPosition, SameWord;
    var h2 := HashPosition(src, ip - 2, kind);
    PutOnHash(table, h2, ip - 2, kind);
    var h := HashPosition(src, ip, kind);
    assert table[..][h] == table[h];
    ref := table[h];
    PutOnHash(table, h, ip, kind);
    found := ref + MAX_DISTANCE >= ip && SameWord(src, ip, ip - ref, 4);
  }

  /** A token and the literals src[a..ip] are written behind `pre`; a match of at least src[ip..reach] is to
      follow. */
  ghost predicate Pending(pre: seq<byte>, out: seq<byte>, qs: seq<Sequence>, src: seq<byte>, a: nat, ip: nat, d: nat,
                          reach: nat) {
    && Emitted(pre, qs, src, a)
    && a <= ip && ip + 4 <= reach <= |src| - MF_LIMIT + 4
    && out == pre + [Token(ip - a, 0)] + Extension(ip - a) + src[a..ip]
    && 1 <= d <= ip && d < 0x10000 && Periodic(src, ip, reach, d)
  }

  lemma {:induction false} NewToken(pre: seq<byte>, out: seq<byte>, qs: seq<Sequence>, src: seq<byte>, ip: nat, d: nat)
    requires Emitted(pre, qs, src, ip) && out == pre + [0] && ip <= |src| - MF_LIMIT
    requires 1 <= d <= ip && d < 0x10000 && Periodic(src, ip, ip + 4, d)
    ensures Pending(pre, out, qs, src, ip, ip, d, ip + 4)
  {
    assert src[ip..ip] == [];
    NoLiterals(pre, out);
    hide Emitted, Token, Extension;
  }

  lemma {:induction false} NoLiterals(pre: seq<byte>, s: seq<byte>)
    requires s == pre + [0]
    ensures s == pre + [Token(0, 0)] + Extension(0) + []
  {
    hide *;
    ShortRun(0);
    NoToken();
    Trailing(pre + [Token(0, 0)], Extension(0), []);
  }

  lemma {:induction false} Trailing(s: seq<byte>, a: seq<byte>, b: seq<byte>)
    requires a == [] && b == []
    ensures s + a + b == s
  {
  }

  lemma {:induction false} NoToken()
    ensures Token(0, 0) == 0
  {
  }

  lemma {:induction false} ShortRun(n: nat)
    requires n < 15
    ensures Extension(n) == []
  {
  }

  /** A refused match, as EmitMatches sees it. */
  lemma {:induction false} Refused(pre: seq<byte>, out: seq<byte>, qs: seq<Sequence>, src: seq<byte>, a: nat, ip: nat,
                                   d: nat, reach: nat,
                                   end: nat, maxOut: nat)
    requires Pending(pre, out, qs, src, a, ip, d, reach) && ip + 4 <= end <= |src|
    requires |out| + 2 + (1 + LAST_LITERALS) + (end - ip - 4) / 256 > maxOut
    ensures maxOut < CompressBound(|src|)
  {
    hide Emitted, Token, Extension, CompressBound;
    EmittedSize(pre, qs, src, a);
    LiteralsFit(ip - a);
    NoRoom(|pre|, a, ip, end, |out|, maxOut, |src|);
  }

  /** One match: its offset and length, and whether another one follows at once.  `reach` is four bytes past the
      position whose table entry gave the match. */
  method EmitOne(src: seq<byte>, dst: array<byte>, maxOut: nat, table: array<nat>, kind: TableType,
                 from: nat, start: nat, dist: nat, token: nat, ghost reach: nat, ghost emitted: seq<Sequence>,
                 ghost a: nat)
      returns (status: Status, op: nat, ip: nat, d: nat, ghost qs: seq<Sequence>)
    requires table.Length == Cells(kind) && MIN_LENGTH <= |src| <= MAX_INPUT_SIZE
    requires kind == ByU16 ==> |src| < LIMIT_64K
    requires table as object != dst && token < from && from + 2 <= maxOut + Overrun(|src|) <= dst.Length
    requires Pending(dst[..token], dst[..from], emitted, src, a, start, dist, reach)
    requires Below(table, reach - 3) && (start <= 2 ==> reach <= 68)
    modifies dst, table
    ensures status == OutOfSpace ==> maxOut < CompressBound(|src|)
    ensures status != OutOfSpace ==> op <= dst.Length && reach <= ip <= |src| && Emitted(dst[..op], qs, src, ip)
    ensures status == Searching || status == Chained ==> ip <= |src| - MF_LIMIT && Below(table, ip + 1)
    ensures status == Chained ==>
              op + 3 <= maxOut + Overrun(|src|) && 1 <= d <= ip && d < 0x10000 && Periodic(src, ip, ip + 4, d)
    ensures OneDone(src, kind, maxOut, old(table[..]), a, start, dist, from, emitted, status, ip, d, table[..], qs)
    ensures forall i :: maxOut + Overrun(|src|) <= i < dst.Length ==> dst[i] == old(dst[i])
  {
    hide Serialize, Emitted, SameWord, HashPosition, Overrun, Surplus, CompressBound, Token, Extension, OneDone;
    ghost var pre, was := dst[..token], table[..];
    ghost var lits := src[a..start];
    var ok;
    ok, op, ip := EmitMatch(src, start, dist, dst, from, maxOut, token, pre, lits, reach);
    d, qs := dist, emitted;
    var found, ref: nat := false, 0;
    if !ok {
      Refused(pre, old(dst[..from]), emitted, src, a, start, dist, reach, ip, maxOut);
      status := OutOfSpace;
    } else {
      Extend(pre, emitted, src, a, start, dist, ip);
      qs := emitted + [Sequence(lits, dist % 256, dist / 256, ip - start)];
      status := AtEnd;
      if ip <= |src| - MF_LIMIT {
        found, ref := NextMatch(src, table, kind, ip);
        status := if found then Chained else Searching;
        if found {
          d := ip - ref;
          if start <= 2 && 65600 <= ip {
            NoneFollows(src, start, dist, ip, ref);
          }
          SurplusFits(ip - start - 4, |src|);
        }
      }
    }
    OneComesTo(src, kind, maxOut, was, a, start, dist, from, emitted, ok, found, ref, status, ip, d, table[..], qs);
  }

  /** The matches that follow each other without literals in between.  `probe` is the position whose
      table entry gave the first of them. */
  method EmitMatches(src: seq<byte>, dst: array<byte>, maxOut: nat, table: array<nat>, kind: TableType,
                     from: nat, start: nat, dist: nat, slot: nat, ghost probe: nat,
                     ghost emitted: seq<Sequence>, ghost anchor: nat, ghost all: seq<Piece>, ghost before: seq<Piece>)
      returns (status: Status, op: nat, ip: nat, ghost qs: seq<Sequence>, ghost ps: seq<Piece>)
    requires table.Length == Cells(kind) && MIN_LENGTH <= |src| <= MAX_INPUT_SIZE
    requires kind == ByU16 ==> |src| < LIMIT_64K
    requires table as object != dst && slot < from && from + 2 <= maxOut + Overrun(|src|) <= dst.Length
    requires Pending(dst[..slot], dst[..from], emitted, src, anchor, start, dist, probe + 4)
    requires Below(table, probe + 1) && (start <= 2 ==> probe <= 64)
    requires Ahead(src, kind, maxOut, all, before, emitted, table[..], anchor, start, dist, false)
    requires slot + 1 + (start - anchor) + (2 + 1 + LAST_LITERALS) + (start - anchor) / 255 <= maxOut
    modifies dst, table
    ensures status != Chained && Tracked(src, kind, maxOut, all, ps, qs, table[..], status, ip, dist)
    ensures status == OutOfSpace ==> maxOut < CompressBound(|src|)
    ensures status != OutOfSpace ==> op <= dst.Length && ip <= |src| && Emitted(dst[..op], qs, src, ip)
    ensures status == Searching ==> probe + 4 <= ip <= |src| - MF_LIMIT && Below(table, ip + 1)
    ensures forall i :: maxOut + Overrun(|src|) <= i < dst.Length ==> dst[i] == old(dst[i])
  {
    hide Emitted, Pending, Overrun, CompressBound, Periodic, Ahead, OneDone, Tracked, Extension;
    var d: nat;
    ghost var pre, was := dst[..slot], table[..];
    PendingIs(pre, dst[..from], emitted, src, anchor, start, dist, probe + 4);
    status, op, ip, d,
    qs := EmitOne(src, dst, maxOut, table, kind, from, start, dist, slot, probe + 4, emitted, anchor);
    ps := before + [Piece(anchor, start, dist, ip, false)];
    TrackOne(src, kind, maxOut, all, before, emitted, was, anchor, start, dist, false, pre, from, status, ip, d,
             table[..], qs);
    while status == Chained
      invariant Tracked(src, kind, maxOut, all, ps, qs, table[..], status, ip, d)
      invariant status == OutOfSpace ==> maxOut < CompressBound(|src|)
      invariant status != OutOfSpace ==> op <= dst.Length && probe + 4 <= ip <= |src| && Emitted(dst[..op], qs, src, ip)
      invariant status == Searching || status == Chained ==> ip <= |src| - MF_LIMIT && Below(table, ip + 1)
      invariant status == Chained ==>
                  op + 3 <= maxOut + Overrun(|src|) && 1 <= d <= ip && d < 0x10000 && Periodic(src, ip, ip + 4, d)
      invariant forall i :: maxOut + Overrun(|src|) <= i < dst.Length ==> dst[i] == old(dst[i])
      decreases status == Chained, |src| - ip
    {
      pre, was := dst[..op], table[..];
      dst[op] := 0;
      assert dst[..op] == pre && dst[..op + 1] == pre + [0];
      NewToken(pre, dst[..op + 1], qs, src, ip, d);
      TrackedChain(src, kind, maxOut, all, ps, qs, was, ip, d);
      ghost var at, dist', qs', out := ip, d, qs, op + 1;
      status, op, ip, d, qs := EmitOne(src, dst, maxOut, table, kind, op + 1, ip, d, op, ip + 4, qs, ip);
      TrackOne(src, kind, maxOut, all, ps, qs', was, at, at, dist', true, pre, out, status, ip, d, table[..], qs);
      ps := ps + [Piece(at, at, dist', ip, true)];
    }
    TrackedAnywhere(src, kind, maxOut, all, ps, qs, table[..], status, ip, d, dist);
  }

  lemma {:induction false} PendingIs(pre: seq<byte>, out: seq<byte>, qs: seq<Sequence>, src: seq<byte>, a: nat,
                                     ip: nat, d: nat, reach: nat)
    requires Pending(pre, out, qs, src, a, ip, d, reach)
    ensures Emitted(pre, qs, src, a) && a <= ip && |out| == |pre| + 1 + |Extension(ip - a)| + (ip - a)
  {
    hide Emitted, Extension, Token;
  }

  lemma {:induction false} TrackedChain(src: seq<byte>, kind: TableType, maxOut: nat, all: seq<Piece>, ps: seq<Piece>,
                                        qs: seq<Sequence>, table: seq<nat>, ip: nat, d: nat)
    requires Tracked(src, kind, maxOut, all, ps, qs, table, Chained, ip, d)
    ensures Ahead(src, kind, maxOut, all, ps, qs, table, ip, ip, d, true)
    ensures |Extension(0)| == 0
  {
    ShortRun(0);
  }

  lemma {:induction false} TrackedAnywhere(src: seq<byte>, kind: TableType, maxOut: nat, all: seq<Piece>,
                                           ps: seq<Piece>, qs: seq<Sequence>, table: seq<nat>, status: Status,
                                           ip: nat, d: nat, d': nat)
    requires Tracked(src, kind, maxOut, all, ps, qs, table, status, ip, d) && status != Chained
    ensures Tracked(src, kind, maxOut, all, ps, qs, table, status, ip, d')
    ensures status == AtEnd ==> Tracked(src, kind, maxOut, all, ps, qs, [], AtEnd, ip, 0)
  {
    hide AllSound, AllAdmitted, SequencesOf, ParseFrom, Ahead;
  }

  /** The rest of the input as literals; the check before it is exact. */
  method EmitLast(src: seq<byte>, anchor: nat, dst: array<byte>, from: nat, maxOut: nat, ghost qs: seq<Sequence>)
      returns (n: nat)
    requires anchor <= |src| && maxOut <= dst.Length && from <= dst.Length
    requires Emitted(dst[..from], qs, src, anchor)
    modifies dst
    ensures n <= maxOut
    ensures n > 0 ==> Decode(dst[..n], |src|) == Decoded(src, true)
    ensures n == 0 ==> maxOut < CompressBound(|src|)
    ensures n > 0 <==> LastAdmitted(from, |src| - anchor, maxOut)
    ensures n > 0 ==> dst[..n] == old(dst[..from]) + SerializeLast(src[anchor..])
    ensures forall i :: maxOut <= i < dst.Length ==> dst[i] == old(dst[i])
  {
    hide Decode;
    hide Emitted;
    hide Extension;
    hide Token;
    ghost var pre := dst[..from];
    EmittedSize(pre, qs, src, anchor);
    var run := |src| - anchor;
    LastFits(run);
    LastBound(from, anchor, run);
    if from + run + 1 + (run + 255 - 15) / 255 > maxOut {
      return 0;
    }
    var op := WriteHeader(dst, from, run);
    CopyRest(src, anchor, dst, op);
    n := op + run;
    BlockComplete(pre, qs, src, anchor, dst[..n]);
  }

  method CopyRest(src: seq<byte>, anchor: nat, dst: array<byte>, op: nat)
    requires anchor <= |src| && op + (|src| - anchor) <= dst.Length
    modifies dst
    ensures dst[..op + (|src| - anchor)] == old(dst[..op]) + src[anchor..]
    ensures forall i :: op + (|src| - anchor) <= i < dst.Length ==> dst[i] == old(dst[i])
  {
    forall k | op <= k < op + (|src| - anchor) {
      dst[k] := src[k - op + anchor];
    }
  }

  lemma {:induction false} LastBound(from: nat, anchor: nat, run: nat)
    requires from <= anchor + anchor / 255
    ensures from + run + 1 + (run + 255 - 15) / 255 <= CompressBound(anchor + run)
  {
  }

  /** The check before the last literals is exact. */
  lemma {:induction false} LastFits(n: nat)
    ensures |Extension(n)| == (n + 255 - 15) / 255
  {
    if n >= 15 {
      ExtensionSize(n - 15);
    }
  }

  lemma {:induction false} BlockComplete(pre: seq<byte>, qs: seq<Sequence>, src: seq<byte>, anchor: nat,
                                         block: seq<byte>)
    requires Emitted(pre, qs, src, anchor)
    requires block == pre + [Token(|src| - anchor, 0)] + Extension(|src| - anchor) + src[anchor..]
    ensures block != [] && Decode(block, |src|) == Decoded(src, true)
  {
    hide Decode;
    hide Extension;
    hide Token;
    hide Valid;
    hide Text;
    hide SerializeAll;
    var lits := src[anchor..];
    assert |Text(qs, |src|)| == anchor;
    Associate(pre, [Token(|lits|, 0)], Extension(|lits|), lits, []);
    assert block == SerializeAll(qs, |src|) + SerializeLast(lits);
    DecodesBlock(qs, lits, |src|);
    assert src[..anchor] + lits == src;
  }

  lemma {:induction false} ShortPeriod(src: seq<byte>, start: nat, hi: nat, d: nat)
    requires 1 <= d <= start <= 2 && 68 <= hi <= |src| && Periodic(src, start, hi, d)
    ensures Periodic(src, 64, 68, 2)
  {
    forall k | 64 <= k < 68
      ensures src[k] == src[k - 2]
    {
      assert src[k] == src[k - d] && src[k - 1] == src[k - 1 - d];
    }
  }

  /** From a match found at `probe`: its literals, the match, and the matches right after it. */
  method EmitFound(src: seq<byte>, dst: array<byte>, maxOut: nat, table: array<nat>, kind: TableType,
                   from: nat, anchor: nat, probe: nat, d: nat, ghost emitted: seq<Sequence>, ghost all: seq<Piece>,
                   ghost before: seq<Piece>)
      returns (status: Status, op: nat, ip: nat, ghost qs: seq<Sequence>, ghost ps: seq<Piece>)
    requires table.Length == Cells(kind) && MIN_LENGTH <= |src| <= MAX_INPUT_SIZE
    requires kind == ByU16 ==> |src| < LIMIT_64K
    requires table as object != dst && maxOut + Overrun(|src|) <= dst.Length
    requires from <= dst.Length && Emitted(dst[..from], emitted, src, anchor)
    requires anchor <= probe <= |src| - MF_LIMIT && 1 <= d <= probe && d <= MAX_DISTANCE
    requires Periodic(src, probe, probe + 4, d) && Below(table, probe + 1)
    requires anchor <= 2 && probe > 64 ==> !Periodic(src, 64, 68, 2)
    requires Ahead(src, kind, maxOut, all, before, emitted, table[..], anchor, BackTo(src, anchor, probe, d), d, false)
    modifies dst, table
    ensures status != Chained && Tracked(src, kind, maxOut, all, ps, qs, table[..], status, ip, d)
    ensures status == OutOfSpace ==> maxOut < CompressBound(|src|)
    ensures status != OutOfSpace ==> op <= dst.Length && ip <= |src| && Emitted(dst[..op], qs, src, ip)
    ensures status == Searching ==> probe + 4 <= ip <= |src| - MF_LIMIT && Below(table, ip + 1)
    ensures forall i :: maxOut + Overrun(|src|) <= i < dst.Length ==> dst[i] == old(dst[i])
  {
    hide Emitted, Token, Extension, Overrun, CompressBound, Ahead, Tracked, BackTo;
    ghost var pre := dst[..from];
    EmittedSize(pre, emitted, src, anchor);
    var start := CatchUp(src, anchor, probe, d);
    var ok, p := EmitLiterals(src, anchor, start, dst, from, maxOut);
    if !ok {
      NoRoomForLiterals(from, anchor, start, maxOut, |src|);
      TrackRefused(src, kind, maxOut, all, before, emitted, table[..], anchor, start, d, pre, table[..], anchor);
      status, op, ip, qs, ps := OutOfSpace, from, anchor, emitted, before;
      return;
    }
    assert dst[..from] == dst[..p][..from] == pre;
    if start <= 2 && probe > 64 {
      ShortPeriod(src, start, probe + 4, d);
    }
    status, op, ip, qs, ps :=
      EmitMatches(src, dst, maxOut, table, kind, p, start, d, from, probe, emitted, anchor, all, before);
  }

  /** One search and, if it finds a match, what is emitted from there on. */
  method EncodeNext(src: seq<byte>, dst: array<byte>, maxOut: nat, table: array<nat>, kind: TableType, from: nat,
                    anchor: nat, ghost emitted: seq<Sequence>, ghost all: seq<Piece>, ghost before: seq<Piece>)
      returns (status: Status, op: nat, ip: nat, ghost qs: seq<Sequence>, ghost ps: seq<Piece>)
    requires table.Length == Cells(kind) && MIN_LENGTH <= |src| <= MAX_INPUT_SIZE
    requires kind == ByU16 ==> |src| < LIMIT_64K
    requires table as object != dst && maxOut + Overrun(|src|) <= dst.Length
    requires from <= dst.Length && Emitted(dst[..from], emitted, src, anchor)
    requires (anchor == 0 || anchor >= 4) && anchor <= |src| - MF_LIMIT && Below(table, anchor + 1)
    requires Tracked(src, kind, maxOut, all, before, emitted, table[..], Searching, anchor, 0)
    modifies dst, table
    ensures status != Chained
    ensures status == AtEnd ==> Tracked(src, kind, maxOut, all, ps, qs, [], AtEnd, ip, 0)
    ensures status != AtEnd ==> Tracked(src, kind, maxOut, all, ps, qs, table[..], status, ip, 0)
    ensures status == OutOfSpace ==> maxOut < CompressBound(|src|)
    ensures status != OutOfSpace ==> op <= dst.Length && ip <= |src| && Emitted(dst[..op], qs, src, ip)
    ensures status == Searching ==> anchor + 4 <= ip <= |src| - MF_LIMIT && Below(table, ip + 1)
    ensures forall i :: maxOut + Overrun(|src|) <= i < dst.Length ==> dst[i] == old(dst[i])
  {
    hide HashPosition, SameWord, Tracked, Ahead, Searched, BackTo, Emitted, CompressBound, Overrun, IsMatch, Periodic;
    var h := HashPosition(src, anchor + 1, kind);
    TrackSearch(src, kind, maxOut, all, before, emitted, table[..], anchor, 0);
    var found, probe, ref := FindMatch(src, table, kind, anchor + 1, h);
    if !found {
      status, op, ip, qs, ps := AtEnd, from, anchor, emitted, before;
      return;
    }
    status, op, ip, qs, ps :=
      EmitFound(src, dst, maxOut, table, kind, from, anchor, probe, probe - ref, emitted, all, before);
    TrackedAnywhere(src, kind, maxOut, all, ps, qs, table[..], status, ip, probe - ref, 0);
  }

  lemma {:induction false} Shrinks(src: seq<byte>, kind: TableType, maxOut: nat)
    requires maxOut >= |src| / 255 + 79
    ensures Periodic(src, 2, |src|, 2) ==>
              Admitted(src, Parse(src, kind), maxOut) && |Block(src, Parse(src, kind))| <= |src| / 255 + 79
  {
    hide Parse, Admitted, Block;
    if Periodic(src, 2, |src|, 2) {
      PeriodicShrinks(src, kind, maxOut);
    }
  }

  lemma {:induction false} NothingEmitted(pre: seq<byte>, src: seq<byte>)
    requires pre == []
    ensures Emitted(pre, [], src, 0)
  {
  }

  lemma {:induction false} TrackStart(src: seq<byte>, kind: TableType, maxOut: nat, table: seq<nat>)
    requires |table| == Cells(kind) && forall h :: 0 <= h < |table| ==> table[h] == 0
    ensures table == seq(Cells(kind), _ => 0)
    ensures |src| >= MIN_LENGTH ==> Tracked(src, kind, maxOut, Parse(src, kind), [], [], table, Searching, 0, 0)
    ensures |src| < MIN_LENGTH ==> Tracked(src, kind, maxOut, Parse(src, kind), [], [], [], AtEnd, 0, 0)
  {
    hide ParseFrom;
    assert SequencesOf(src, []) == [];
    assert table == seq(Cells(kind), _ => 0);
    assert [] + Parse(src, kind) == Parse(src, kind);
  }

  lemma {:induction false} TrackedOut(src: seq<byte>, kind: TableType, maxOut: nat, ps: seq<Piece>, qs: seq<Sequence>,
                                      table: seq<nat>, ip: nat, d: nat)
    requires Tracked(src, kind, maxOut, Parse(src, kind), ps, qs, table, OutOfSpace, ip, d)
    ensures !Admitted(src, Parse(src, kind), maxOut)
  {
    hide Parse, AllSound, AllAdmitted;
  }

  /** The last check decides, and with the last literals the block is complete. */
  lemma {:induction false} TrackEnd(src: seq<byte>, kind: TableType, maxOut: nat, ps: seq<Piece>, qs: seq<Sequence>,
                                    anchor: nat, pre: seq<byte>)
    requires Tracked(src, kind, maxOut, Parse(src, kind), ps, qs, [], AtEnd, anchor, 0)
    requires Emitted(pre, qs, src, anchor)
    ensures anchor == End(Parse(src, kind)) <= |src|
    ensures Admitted(src, Parse(src, kind), maxOut) <==> LastAdmitted(|pre|, |src| - anchor, maxOut)
    ensures Block(src, Parse(src, kind)) == pre + SerializeLast(src[anchor..])
  {
    hide Parse, AllSound, AllAdmitted, SequencesOf, Written, SerializeLast;
    EmittedIsWritten(pre, src, ps, anchor);
  }

  /** The main loop: searches and matches, up to the last literals. */
  method EncodeAll(src: seq<byte>, dst: array<byte>, maxOut: nat, table: array<nat>, kind: TableType)
      returns (ok: bool, op: nat, anchor: nat, ghost qs: seq<Sequence>, ghost ps: seq<Piece>)
    requires table.Length == Cells(kind) && Below(table, 1) && table as object != dst
    requires maxOut + Overrun(|src|) <= dst.Length
    requires |src| <= MAX_INPUT_SIZE && (kind == ByU16 ==> |src| < LIMIT_64K)
    modifies dst, table
    ensures !ok ==> !Admitted(src, Parse(src, kind), maxOut) && maxOut < CompressBound(|src|)
    ensures ok ==> op <= dst.Length && anchor <= |src| && Emitted(dst[..op], qs, src, anchor)
    ensures ok ==> Tracked(src, kind, maxOut, Parse(src, kind), ps, qs, [], AtEnd, anchor, 0)
    ensures forall i :: maxOut + Overrun(|src|) <= i < dst.Length ==> dst[i] == old(dst[i])
  {
    hide HashPosition, Tracked, Parse, Admitted, AllSound, Emitted, CompressBound, Overrun;
    ok, op, anchor, qs, ps := true, 0, 0, [], [];
    ghost var all := Parse(src, kind);
    NothingEmitted(dst[..0], src);
    TrackStart(src, kind, maxOut, table[..]);
    if |src| >= MIN_LENGTH {
      var h := HashPosition(src, 0, kind);
      PutOnHash(table, h, 0, kind);
      TrackStart(src, kind, maxOut, table[..]);
      var status := Searching;
      while status == Searching
        invariant ok && status in {Searching, AtEnd}
        invariant anchor <= |src| && op <= dst.Length
        invariant Emitted(dst[..op], qs, src, anchor)
        invariant status == Searching ==>
                    && (anchor == 0 || anchor >= 4) && anchor <= |src| - MF_LIMIT && Below(table, anchor + 1)
                    && Tracked(src, kind, maxOut, all, ps, qs, table[..], Searching, anchor, 0)
        invariant status == AtEnd ==> Tracked(src, kind, maxOut, all, ps, qs, [], AtEnd, anchor, 0)
        invariant forall i :: maxOut + Overrun(|src|) <= i < dst.Length ==> dst[i] == old(dst[i])
        decreases status == Searching, |src| - anchor
      {
        status, op, anchor, qs, ps := EncodeNext(src, dst, maxOut, table, kind, op, anchor, qs, all, ps);
        if status == OutOfSpace {
          TrackedOut(src, kind, maxOut, ps, qs, table[..], anchor, 0);
          ok := false;
          return;
        }
      }
    }
  }

  /** LZ4_compress_generic, with limited output and no prefix, from a cleared table: the block of the parse, exactly
      when all of its checks pass. */
  method CompressGeneric(src: seq<byte>, dst: array<byte>, maxOut: nat, table: array<nat>, kind: TableType)
      returns (n: nat)
    requires table.Length == Cells(kind) && Below(table, 1) && table as object != dst
    requires maxOut + Overrun(|src|) <= dst.Length
    modifies dst, table
    ensures n <= maxOut
    ensures n > 0 ==> Decode(dst[..n], |src|) == Decoded(src, true)
    ensures maxOut >= CompressBound(|src|) && |src| <= MAX_INPUT_SIZE && (kind == ByU16 ==> |src| < LIMIT_64K) ==> n > 0
    ensures |src| <= MAX_INPUT_SIZE && (kind == ByU16 ==> |src| < LIMIT_64K) ==>
              (n > 0 <==> Admitted(src, Parse(src, kind), maxOut))
    ensures n > 0 ==> End(Parse(src, kind)) <= |src| && dst[..n] == Block(src, Parse(src, kind))
    ensures |src| <= MAX_INPUT_SIZE && (kind == ByU16 ==> |src| < LIMIT_64K) ==>
              (Periodic(src, 2, |src|, 2) && maxOut >= |src| / 255 + 79 ==> 0 < n <= |src| / 255 + 79)
    ensures forall i :: maxOut + Overrun(|src|) <= i < dst.Length ==> dst[i] == old(dst[i])
  {
    hide Decode, Tracked, Parse, Admitted, AllSound, Block, Emitted, Periodic, CompressBound, Overrun;
    if maxOut >= |src| / 255 + 79 {
      Shrinks(src, kind, maxOut);
    }
    if |src| > MAX_INPUT_SIZE || (kind == ByU16 && |src| >= LIMIT_64K) {
      return 0;
    }
    var ok, op, anchor, qs, ps := EncodeAll(src, dst, maxOut, table, kind);
    if !ok {
      return 0;
    }
    TrackEnd(src, kind, maxOut, ps, qs, anchor, dst[..op]);
    n := EmitLast(src, anchor, dst, op, maxOut, qs);
    assert |dst[..n]| == n;
  }

  /** LZ4_compress_limitedOutput: n bytes that decode to the input, or 0. */
  method CompressLimitedOutput(src: seq<byte>, dst: array<byte>, maxOut: nat) returns (n: nat)
    requires maxOut + Overrun(|src|) <= dst.Length
    modifies dst
    ensures n <= maxOut
    ensures n > 0 ==> Decode(dst[..n], |src|) == Decoded(src, true)
    ensures maxOut >= CompressBound(|src|) && |src| <= MAX_INPUT_SIZE ==> n > 0
    ensures var ps := Parse(src, if |src| < LIMIT_64K then ByU16 else ByU32);
            && (|src| <= MAX_INPUT_SIZE ==> (n > 0 <==> Admitted(src, ps, maxOut)))
            && (n > 0 ==> End(ps) <= |src| && dst[..n] == Block(src, ps))
    ensures |src| <= MAX_INPUT_SIZE && Periodic(src, 2, |src|, 2) && maxOut >= |src| / 255 + 79 ==>
              0 < n <= |src| / 255 + 79
    ensures forall i :: maxOut + Overrun(|src|) <= i < dst.Length ==> dst[i] == old(dst[i])
  {
    hide Parse, Admitted, Block, AllSound, Decode, Periodic;
    var kind := if |src| < LIMIT_64K then ByU16 else ByU32;
    var table := new nat[Cells(kind)](_ => 0);
    n := CompressGeneric(src, dst, maxOut, table, kind);
  }
}
