/** The LZ4 block format ("Compressed block format" and "End of block restrictions" of the
    LZ4 Block Format description): a plain byte-at-a-time decoder, the serialization of a list of
    sequences, and the proof that the decoder undoes the serialization. */
module Lz4Format {
  import opened Bytes

  const MIN_MATCH := 4
  const LAST_LITERALS := 5
  const MF_LIMIT := 12

  // ----- Reference decoder, on the input not read yet

  /** `Decoded(out, exact)`: |out| bytes were produced; their values are defined by the input alone
      unless a zero offset was met (`!exact`).  `Corrupt(unread)`: the input was rejected with
      `unread` bytes left. */
  datatype Result = Decoded(out: seq<byte>, exact: bool) | Corrupt(unread: nat)

  datatype Length = Length(n: nat, rest: seq<byte>)

  /** The bytes that extend a length nibble of 15; reading stops when only `keep` bytes are left. */
  function ReadExtension(s: seq<byte>, keep: nat, acc: nat): (r: Length)
    ensures |r.rest| <= |s|
    ensures |s| >= keep ==> |r.rest| >= keep
  {
    if |s| <= keep then Length(acc, s)
    else if s[0] == 255 then ReadExtension(s[1..], keep, acc + 255)
    else Length(acc + s[0], s[1..])
  }

  function ReadLength(nibble: nat, s: seq<byte>, keep: nat): (r: Length)
    ensures |r.rest| <= |s|
    ensures |s| >= keep ==> |r.rest| >= keep
  {
    if nibble == 15 then ReadExtension(s, keep, 15) else Length(nibble, s)
  }

  datatype Step = Stop(result: Result) | More(s: seq<byte>, out: seq<byte>, exact: bool)

  /** The literals `lit` of one sequence; `s` starts at the first literal.  A sequence too close to
      the end of either buffer must be the last one and use up the input. */
  predicate IsLast(s: seq<byte>, lit: nat, outLen: nat, cap: nat) {
    outLen + lit > cap - MF_LIMIT || lit + 2 + 1 + LAST_LITERALS > |s|
  }

  function LastStep(s: seq<byte>, lit: nat, out: seq<byte>, exact: bool, cap: nat): Result {
    if lit != |s| || |out| + lit > cap then Corrupt(|s|) else Decoded(out + s, exact)
  }

  /** A copy from `offset` back; with offset zero the bytes are whatever the buffer held. */
  function CopyBack(out: seq<byte>, offset: nat, n: nat): (r: seq<byte>)
    requires offset <= |out|
    ensures |r| == |out| + n
  {
    if offset == 0 then out + seq(n, _ => 0) else MatchCopy(out, offset, n)
  }

  /** The match of one sequence; `s` starts at the offset. */
  function MatchStep(s: seq<byte>, nibble: nat, out: seq<byte>, exact: bool, cap: nat): (r: Step)
    requires |s| >= 2 + 1 + LAST_LITERALS
    ensures r.More? ==> 0 < |r.s| < |s| && |r.out| <= cap
    ensures r.Stop? ==> r.result.Corrupt? && r.result.unread < |s|
  {
    var offset := s[0] as int + 256 * s[1] as int;
    if offset > |out| then Stop(Corrupt(|s| - 2))
    else
      var Length(n, rest) := ReadLength(nibble, s[2..], LAST_LITERALS + 1);
      if |out| + MIN_MATCH + n > cap - LAST_LITERALS then Stop(Corrupt(|rest|))
      else More(rest, CopyBack(out, offset, MIN_MATCH + n), exact && offset != 0)
  }

  function SequenceStep(s: seq<byte>, out: seq<byte>, exact: bool, cap: nat): (r: Step)
    requires |s| >= 1
    ensures r.More? ==> 0 < |r.s| < |s| && |r.out| <= cap
    ensures r.Stop? && r.result.Decoded? ==> |r.result.out| <= cap
    ensures r.Stop? && r.result.Corrupt? ==> r.result.unread < |s|
  {
    var Length(lit, rest) := ReadLength(s[0] / 16, s[1..], 0);
    if IsLast(rest, lit, |out|, cap) then Stop(LastStep(rest, lit, out, exact, cap))
    else MatchStep(rest[lit..], s[0] % 16, out + rest[..lit], exact, cap)
  }

  function DecodeFrom(s: seq<byte>, out: seq<byte>, exact: bool, cap: nat): Result
    requires |s| >= 1
    decreases |s|
  {
    match SequenceStep(s, out, exact, cap)
    case Stop(r) => r
    case More(s', out', exact') => DecodeFrom(s', out', exact', cap)
  }

  /** Decodes a whole block into a buffer of `cap` bytes. */
  function Decode(s: seq<byte>, cap: nat): Result
    requires |s| >= 1 || cap == 0
  {
    if cap == 0 then if s == [0] then Decoded([], true) else Corrupt(|s|)
    else DecodeFrom(s, [], true, cap)
  }

  /** Never more than `cap` bytes, whatever the input. */
  lemma {:induction false} DecodedFits(s: seq<byte>, out: seq<byte>, exact: bool, cap: nat)
    requires |s| >= 1
    ensures DecodeFrom(s, out, exact, cap).Decoded? ==> |DecodeFrom(s, out, exact, cap).out| <= cap
    ensures DecodeFrom(s, out, exact, cap).Corrupt? ==> DecodeFrom(s, out, exact, cap).unread <= |s|
    decreases |s|
  {
    match SequenceStep(s, out, exact, cap)
    case Stop(r) =>
    case More(s', out', exact') => DecodedFits(s', out', exact', cap);
  }

  // ----- Serialization

  /** One sequence: literals, then a match of `n` bytes at the distance given by two bytes. */
  datatype Sequence = Sequence(lits: seq<byte>, lo: byte, hi: byte, n: nat) {
    function Offset(): nat { lo as int + 256 * hi as int }
  }

  function Nibble(n: nat): (r: nat)
    ensures r <= 15
  {
    if n >= 15 then 15 else n
  }

  function Token(lit: nat, m: nat): (r: byte)
    ensures r / 16 == Nibble(lit) && r % 16 == Nibble(m)
  {
    16 * Nibble(lit) + Nibble(m)
  }

  function ExtensionBytes(n: nat): (r: seq<byte>)
    ensures |r| >= 1
  {
    if n < 255 then [n] else [255] + ExtensionBytes(n - 255)
  }

  function Extension(n: nat): seq<byte> {
    if n >= 15 then ExtensionBytes(n - 15) else []
  }

  /** The match part of a serialized sequence. */
  function SerializeMatch(q: Sequence): seq<byte>
    requires q.n >= MIN_MATCH
  {
    [q.lo, q.hi] + Extension(q.n - MIN_MATCH)
  }

  function Serialize(q: Sequence): seq<byte>
    requires q.n >= MIN_MATCH
  {
    [Token(|q.lits|, q.n - MIN_MATCH)] + Extension(|q.lits|) + q.lits + SerializeMatch(q)
  }

  function SerializeLast(lits: seq<byte>): seq<byte> {
    [Token(|lits|, 0)] + Extension(|lits|) + lits
  }

  ghost function Size(qs: seq<Sequence>): nat {
    if qs == [] then 0 else Size(qs[..|qs| - 1]) + |qs[|qs| - 1].lits| + qs[|qs| - 1].n
  }

  /** `q` may follow `before` bytes of text in a block of `cap` bytes: its match starts at least 12
      bytes and ends at least 5 bytes before the end, and copies from inside the text. */
  predicate Fits(q: Sequence, before: nat, cap: nat) {
    && q.n >= MIN_MATCH
    && 1 <= q.Offset() <= before + |q.lits|
    && before + |q.lits| <= cap - MF_LIMIT
    && before + |q.lits| + q.n <= cap - LAST_LITERALS
  }

  ghost predicate Valid(qs: seq<Sequence>, cap: nat) {
    qs == [] || (Valid(qs[..|qs| - 1], cap) && Fits(qs[|qs| - 1], Size(qs[..|qs| - 1]), cap))
  }

  /** The text the sequences stand for. */
  ghost function Text(qs: seq<Sequence>, cap: nat): (r: seq<byte>)
    requires Valid(qs, cap)
    ensures |r| == Size(qs)
  {
    if qs == [] then [] else
    var q := qs[|qs| - 1];
    MatchCopy(Text(qs[..|qs| - 1], cap) + q.lits, q.Offset(), q.n)
  }

  ghost function SerializeAll(qs: seq<Sequence>, cap: nat): seq<byte>
    requires Valid(qs, cap)
  {
    if qs == [] then [] else SerializeAll(qs[..|qs| - 1], cap) + Serialize(qs[|qs| - 1])
  }

  lemma {:induction false} Append(qs: seq<Sequence>, q: Sequence, cap: nat)
    requires Valid(qs, cap) && Fits(q, Size(qs), cap)
    ensures Valid(qs + [q], cap) && Size(qs + [q]) == Size(qs) + |q.lits| + q.n
    ensures Text(qs + [q], cap) == MatchCopy(Text(qs, cap) + q.lits, q.Offset(), q.n)
    ensures SerializeAll(qs + [q], cap) == SerializeAll(qs, cap) + Serialize(q)
  {
    assert (qs + [q])[..|qs|] == qs;
  }

  lemma {:induction false} ExtensionSize(n: nat)
    ensures |ExtensionBytes(n)| == n / 255 + 1
    decreases n
  {
    if n >= 255 {
      ExtensionSize(n - 255);
    }
  }

  /** A sequence takes at most one byte in 255 more than the text it stands for. */
  lemma {:induction false} SequenceSize(q: Sequence)
    requires q.n >= MIN_MATCH
    ensures |Serialize(q)| <= |q.lits| + q.n + |q.lits| / 255
  {
    if |q.lits| >= 15 {
      ExtensionSize(|q.lits| - 15);
    }
    if q.n - MIN_MATCH >= 15 {
      ExtensionSize(q.n - MIN_MATCH - 15);
    }
  }

  lemma {:induction false} SerializedSize(qs: seq<Sequence>, cap: nat)
    requires Valid(qs, cap)
    ensures |SerializeAll(qs, cap)| <= Size(qs) + Size(qs) / 255
    decreases |qs|
  {
    if qs != [] {
      SerializedSize(qs[..|qs| - 1], cap);
      SequenceSize(qs[|qs| - 1]);
    }
  }

  // ----- The decoder undoes the serialization

  lemma {:induction false} ReadExtensionBytes(n: nat, tail: seq<byte>, keep: nat, acc: nat)
    requires |tail| >= keep
    ensures ReadExtension(ExtensionBytes(n) + tail, keep, acc) == Length(acc + n, tail)
    decreases n
  {
    var s := ExtensionBytes(n) + tail;
    if n < 255 {
      assert s[1..] == tail;
    } else {
      assert s[1..] == ExtensionBytes(n - 255) + tail;
      ReadExtensionBytes(n - 255, tail, keep, acc + 255);
    }
  }

  lemma {:induction false} ReadsLength(n: nat, tail: seq<byte>, keep: nat)
    requires |tail| >= keep
    ensures ReadLength(Nibble(n), Extension(n) + tail, keep) == Length(n, tail)
  {
    if n >= 15 {
      ReadExtensionBytes(n - 15, tail, keep, 15);
    } else {
      assert Extension(n) + tail == tail;
    }
  }

  lemma {:induction false} ReadsMatch(s: seq<byte>, offset: nat, n: nat, nibble: nat, tail: seq<byte>, out: seq<byte>,
                                      exact: bool, cap: nat)
    requires |s| >= 2 + 1 + LAST_LITERALS
    requires offset == s[0] as int + 256 * s[1] as int && 1 <= offset <= |out|
    requires |out| + MIN_MATCH + n <= cap - LAST_LITERALS
    requires ReadLength(nibble, s[2..], LAST_LITERALS + 1) == Length(n, tail)
    ensures MatchStep(s, nibble, out, exact, cap) == More(tail, MatchCopy(out, offset, MIN_MATCH + n), exact)
  {
  }

  lemma {:induction false} ReadsLiterals(token: byte, ext: seq<byte>, lits: seq<byte>, m: seq<byte>, out: seq<byte>,
                                         exact: bool, cap: nat)
    requires ReadLength(token / 16, ext + (lits + m), 0) == Length(|lits|, lits + m)
    requires |out| + |lits| <= cap - MF_LIMIT && |m| >= 2 + 1 + LAST_LITERALS
    ensures SequenceStep([token] + (ext + (lits + m)), out, exact, cap)
            == MatchStep(m, token % 16, out + lits, exact, cap)
  {
    var s := [token] + (ext + (lits + m));
    assert s[1..] == ext + (lits + m);
    assert (lits + m)[|lits|..] == m && (lits + m)[..|lits|] == lits;
  }

  lemma {:induction false} DropTwo(a: byte, b: byte, s: seq<byte>, t: seq<byte>)
    ensures ([a, b] + s + t)[2..] == s + t
  {
    assert [a, b] + s + t == [a, b] + (s + t);
  }

  lemma {:induction false} ReadsSerializedMatch(q: Sequence, tail: seq<byte>, out: seq<byte>, exact: bool, cap: nat)
    requires |out| >= |q.lits| && Fits(q, |out| - |q.lits|, cap) && |tail| >= LAST_LITERALS + 1
    ensures MatchStep(SerializeMatch(q) + tail, Nibble(q.n - MIN_MATCH), out, exact, cap)
            == More(tail, MatchCopy(out, q.Offset(), q.n), exact)
  {
    hide MatchStep, ReadLength, MatchCopy, Extension, Nibble;
    var m, n := SerializeMatch(q) + tail, q.n - MIN_MATCH;
    ReadsLength(n, tail, LAST_LITERALS + 1);
    DropTwo(q.lo, q.hi, Extension(n), tail);
    ReadsMatch(m, q.Offset(), n, Nibble(n), tail, out, exact, cap);
  }

  lemma {:induction false} Associate(a: seq<byte>, b: seq<byte>, c: seq<byte>, d: seq<byte>, e: seq<byte>)
    ensures a + b + c + d + e == a + (b + (c + (d + e)))
  {
    assert a + b + c + d + e == (a + b + c) + (d + e);
    assert (a + b + c) + (d + e) == (a + b) + (c + (d + e));
  }

  lemma {:induction false} ReadsSequence(q: Sequence, tail: seq<byte>, out: seq<byte>, exact: bool, cap: nat)
    requires Fits(q, |out|, cap) && |tail| >= LAST_LITERALS + 1
    ensures SequenceStep(Serialize(q) + tail, out, exact, cap)
            == More(tail, MatchCopy(out + q.lits, q.Offset(), q.n), exact)
  {
    hide MatchStep;
    hide SequenceStep;
    hide ReadLength;
    hide MatchCopy;
    hide Extension;
    hide Nibble;
    var token, ext, m := Token(|q.lits|, q.n - MIN_MATCH), Extension(|q.lits|), SerializeMatch(q) + tail;
    Associate([token], ext, q.lits, SerializeMatch(q), tail);
    ReadsLength(|q.lits|, q.lits + m, 0);
    ReadsLiterals(token, ext, q.lits, m, out, exact, cap);
    ReadsSerializedMatch(q, tail, out + q.lits, exact, cap);
  }

  lemma {:induction false} ReadsAll(qs: seq<Sequence>, tail: seq<byte>, cap: nat)
    requires Valid(qs, cap) && |tail| >= LAST_LITERALS + 1
    ensures DecodeFrom(SerializeAll(qs, cap) + tail, [], true, cap)
            == DecodeFrom(tail, Text(qs, cap), true, cap)
    decreases |qs|
  {
    if qs == [] {
      assert SerializeAll(qs, cap) + tail == tail;
    } else {
      var q := qs[|qs| - 1];
      var front := qs[..|qs| - 1];
      assert SerializeAll(qs, cap) + tail == SerializeAll(front, cap) + (Serialize(q) + tail);
      ReadsAll(front, Serialize(q) + tail, cap);
      ReadsSequence(q, tail, Text(front, cap), true, cap);
    }
  }

  lemma {:induction false} ReadsLast(lits: seq<byte>, out: seq<byte>, exact: bool, cap: nat)
    requires |out| + |lits| == cap
    ensures DecodeFrom(SerializeLast(lits), out, exact, cap) == Decoded(out + lits, exact)
  {
    var tail := SerializeLast(lits);
    assert tail[1..] == Extension(|lits|) + lits;
    ReadsLength(|lits|, lits, 0);
    assert SequenceStep(tail, out, exact, cap) == Stop(Decoded(out + lits, exact));
  }

  lemma {:induction false} DecodesLiterals(lits: seq<byte>)
    ensures Decode(SerializeLast(lits), |lits|) == Decoded(lits, true)
  {
    if lits == [] {
      assert SerializeLast(lits) == [0];
    } else {
      ReadsLast(lits, [], true, |lits|);
      assert [] + lits == lits;
    }
  }

  /** A block of valid sequences and final literals decodes to exactly the text it stands for. */
  lemma {:induction false} DecodesBlock(qs: seq<Sequence>, lits: seq<byte>, cap: nat)
    requires Valid(qs, cap) && Size(qs) + |lits| == cap
    ensures Decode(SerializeAll(qs, cap) + SerializeLast(lits), cap)
            == Decoded(Text(qs, cap) + lits, true)
  {
    hide DecodeFrom;
    hide Extension;
    if qs == [] {
      assert SerializeAll(qs, cap) + SerializeLast(lits) == SerializeLast(lits);
      assert Text(qs, cap) + lits == lits;
      DecodesLiterals(lits);
    } else {
      ReadsAll(qs, SerializeLast(lits), cap);
      ReadsLast(lits, Text(qs, cap), true, cap);
    }
  }
}
