/** What LZ4_compress_generic makes of an input: the searches through the hash table, the matches they lead to, and
    from those the block and the checks that decide whether it is written. */
module Lz4Parse {
  import opened Bytes
  import opened Lz4Format

  const MAX_INPUT_SIZE := 0x7E000000
  const LIMIT_64K := 65536 + MF_LIMIT - 1
  const MIN_LENGTH := MF_LIMIT + 1
  const MAX_DISTANCE := 65535

  datatype TableType = ByU16 | ByU32

  function Cells(kind: TableType): nat {
    if kind == ByU16 then 8192 else 4096
  }

  // ----- Hash table

  function Word32(src: seq<byte>, p: nat): nat
    requires p + 4 <= |src|
  {
    src[p] as int + 0x100 * src[p + 1] as int + 0x1_0000 * src[p + 2] as int + 0x100_0000 * src[p + 3] as int
  }

  function HashPosition(src: seq<byte>, p: nat, kind: TableType): (h: nat)
    requires p + 4 <= |src|
    ensures h < Cells(kind)
  {
    var product := Word32(src, p) * 2654435761 % 0x1_0000_0000;
    if kind == ByU16 then product / 0x8_0000 else product / 0x10_0000
  }

  /** The words of `n` bytes at `ip` and at `ip - d` are equal. */
  predicate SameWord(src: seq<byte>, ip: nat, d: nat, n: nat)
    requires 1 <= d <= ip && ip + n <= |src|
    ensures SameWord(src, ip, d, n) <==> Periodic(src, ip, ip + n, d)
  {
    var a, b := src[ip..ip + n], src[ip - d..ip - d + n];
    assert a == b ==> forall k :: ip <= k < ip + n ==> src[k] == a[k - ip] == b[k - ip];
    a == b
  }

  lemma {:induction false} SameHash(src: seq<byte>, p: nat, d: nat, kind: TableType)
    requires 1 <= d <= p && p + 4 <= |src| && Periodic(src, p, p + 4, d)
    ensures HashPosition(src, p - d, kind) == HashPosition(src, p, kind)
  {
    assert src[p] == src[p - d] && src[p + 1] == src[p + 1 - d] && src[p + 2] == src[p + 2 - d]
           && src[p + 3] == src[p + 3 - d];
  }

  // ----- Searching

  /** What a search from `forward` on, with so many attempts counted, comes to: the first position probed whose
      table entry is a match of four bytes.  The steps grow by one every 64 attempts. */
  datatype Search = Search(found: bool, ip: nat, ref: nat, table: seq<nat>)

  predicate IsMatch(src: seq<byte>, ip: nat, ref: nat)
    requires ip + 4 <= |src|
  {
    ref < ip <= ref + MAX_DISTANCE && SameWord(src, ip, ip - ref, 4)
  }

  function Searched(src: seq<byte>, table: seq<nat>, kind: TableType, forward: nat, attempts: nat): (r: Search)
    requires |table| == Cells(kind) && |src| >= MIN_LENGTH && forward <= |src| - MF_LIMIT + 1 && attempts >= 64
    ensures |r.table| == Cells(kind)
    ensures r.found ==> forward <= r.ip < |src| - MF_LIMIT && IsMatch(src, r.ip, r.ref)
    decreases |src| - forward
  {
    var next := forward + attempts / 64;
    if next > |src| - MF_LIMIT then Search(false, forward, 0, table)
    else
      var h := HashPosition(src, forward, kind);
      if IsMatch(src, forward, table[h]) then Search(true, forward, table[h], table[h := forward])
      else Searched(src, table[h := forward], kind, next, attempts + 1)
  }

  /** One step, as an equation. */
  lemma {:induction false} SearchedIs(src: seq<byte>, table: seq<nat>, kind: TableType, forward: nat, attempts: nat)
    requires |table| == Cells(kind) && |src| >= MIN_LENGTH && forward <= |src| - MF_LIMIT + 1 && attempts >= 64
    ensures var next, h := forward + attempts / 64, HashPosition(src, forward, kind);
            Searched(src, table, kind, forward, attempts)
            == if next > |src| - MF_LIMIT then Search(false, forward, 0, table)
               else if IsMatch(src, forward, table[h]) then Search(true, forward, table[h], table[h := forward])
               else Searched(src, table[h := forward], kind, next, attempts + 1)
  {
    hide HashPosition, IsMatch;
  }

  /** What a search from `start` has passed so far: positions one apart, up to a first step of two that ends at
      start + 63. */
  ghost predicate Passed(src: seq<byte>, table: seq<nat>, kind: TableType, start: nat, forward: nat, attempts: nat)
    requires |table| == Cells(kind)
  {
    && attempts >= 67 && (attempts <= 128 ==> forward == start + (attempts - 67))
    && (attempts == 129 ==>
          forward == start + 63 && start + 67 <= |src| && table[HashPosition(src, start + 61, kind)] == start + 61)
    && (attempts > 129 ==> start + 67 <= |src| && !Periodic(src, start + 63, start + 67, 2))
  }

  lemma {:induction false} PassedStart(src: seq<byte>, table: seq<nat>, kind: TableType, start: nat)
    requires |table| == Cells(kind)
    ensures Passed(src, table, kind, start, start, 64 + 3)
  {
  }

  lemma {:induction false} PassedEnd(src: seq<byte>, table: seq<nat>, kind: TableType, start: nat, ip: nat,
                                     attempts: nat)
    requires |table| == Cells(kind) && Passed(src, table, kind, start, ip, attempts)
    ensures ip > start + 63 ==> start + 67 <= |src| && !Periodic(src, start + 63, start + 67, 2)
  {
    hide HashPosition;
  }

  lemma {:induction false} PassedStep(src: seq<byte>, table: seq<nat>, kind: TableType, start: nat, ip: nat,
                                      attempts: nat)
    requires |table| == Cells(kind) && Passed(src, table, kind, start, ip, attempts)
    requires ip + attempts / 64 + MF_LIMIT <= |src| && !IsMatch(src, ip, table[HashPosition(src, ip, kind)])
    ensures Passed(src, table[HashPosition(src, ip, kind) := ip], kind, start, ip + attempts / 64, attempts + 1)
  {
    if attempts == 129 && Periodic(src, ip, ip + 4, 2) {
      SameHash(src, ip, 2, kind);
    }
    hide HashPosition, SameWord;
  }

  /** In a text of period two, a search that has room for 64 positions ends at one of them. */
  lemma {:induction false} SearchEnds(src: seq<byte>, table: seq<nat>, kind: TableType, start: nat, forward: nat,
                                      attempts: nat)
    requires |table| == Cells(kind) && Passed(src, table, kind, start, forward, attempts) && attempts <= 129
    requires 1 <= start && start + 65 + MF_LIMIT <= |src| && Periodic(src, 2, |src|, 2)
    ensures forward <= start + 63
    ensures var r := Searched(src, table, kind, forward, attempts); r.found && r.ip <= start + 63
    decreases 129 - attempts
  {
    hide HashPosition, SameWord;
    if attempts == 129 {
      SameHash(src, start + 63, 2, kind);
    } else if !IsMatch(src, forward, table[HashPosition(src, forward, kind)]) {
      PassedStep(src, table, kind, start, forward, attempts);
      SearchEnds(src, table[HashPosition(src, forward, kind) := forward], kind, start, forward + attempts / 64,
                 attempts + 1);
    }
  }

  // ----- Parsing

  /** Literals src[from..start], then a match of src[start..end] at distance d.  Chained: it was found right behind
      the match before, without a search. */
  datatype Piece = Piece(from: nat, start: nat, d: nat, end: nat, chained: bool) {
    function Literals(): nat
      requires from <= start
    {
      start - from
    }
  }

  /** A match that the format has room for. */
  ghost predicate CanMatch(src: seq<byte>, from: nat, start: nat, d: nat) {
    && from <= start && start + MF_LIMIT <= |src| && 1 <= d <= start && d <= MAX_DISTANCE
    && Periodic(src, start, start + MIN_MATCH, d)
  }

  ghost predicate Sound(src: seq<byte>, p: Piece) {
    && CanMatch(src, p.from, p.start, p.d) && p.start + MIN_MATCH <= p.end <= |src| - LAST_LITERALS
    && Periodic(src, p.start, p.end, p.d)
  }

  ghost predicate AllSound(src: seq<byte>, ps: seq<Piece>) {
    forall i :: 0 <= i < |ps| ==> Sound(src, ps[i])
  }

  /** The furthest back that a match at ip can be extended, at most to anchor. */
  function BackTo(src: seq<byte>, anchor: nat, ip: nat, d: nat): (r: nat)
    requires anchor <= ip <= |src| && 1 <= d <= ip
    ensures anchor <= r <= ip && d <= r && Periodic(src, r, ip, d)
    ensures r == anchor || r == d || src[r - 1] != src[r - 1 - d]
  {
    if ip > anchor && ip > d && src[ip - 1] == src[ip - d - 1] then BackTo(src, anchor, ip - 1, d) else ip
  }

  /** The furthest that a match can be extended, at most to limit. */
  function MatchEnd(src: seq<byte>, ip: nat, d: nat, limit: nat): (r: nat)
    requires 1 <= d <= ip <= limit <= |src|
    ensures ip <= r <= limit && Periodic(src, ip, r, d)
    ensures r == limit || src[r] != src[r - d]
    decreases limit - ip
  {
    if ip < limit && src[ip] == src[ip - d] then MatchEnd(src, ip + 1, d, limit) else ip
  }

  lemma {:induction false} IsMatchEnd(src: seq<byte>, ip: nat, d: nat, limit: nat, end: nat)
    requires 1 <= d <= ip <= end <= limit <= |src| && Periodic(src, ip, end, d)
    requires end == limit || src[end] != src[end - d]
    ensures MatchEnd(src, ip, d, limit) == end
  {
    hide MatchEnd;
  }

  /** The table entry that is looked at right behind a match that ends at ip. */
  function RefAt(src: seq<byte>, table: seq<nat>, kind: TableType, ip: nat): nat
    requires |table| == Cells(kind) && 2 <= ip && ip + 4 <= |src|
  {
    table[HashPosition(src, ip - 2, kind) := ip - 2][HashPosition(src, ip, kind)]
  }

  /** The table with the positions at the end of a match. */
  function EnteredAt(src: seq<byte>, table: seq<nat>, kind: TableType, ip: nat): (r: seq<nat>)
    requires |table| == Cells(kind) && 2 <= ip && ip + 4 <= |src|
    ensures |r| == Cells(kind)
  {
    table[HashPosition(src, ip - 2, kind) := ip - 2][HashPosition(src, ip, kind) := ip]
  }

  function PieceAt(src: seq<byte>, from: nat, start: nat, d: nat, chained: bool): (p: Piece)
    requires CanMatch(src, from, start, d)
    ensures Sound(src, p)
  {
    Piece(from, start, d, MatchEnd(src, start + MIN_MATCH, d, |src| - LAST_LITERALS), chained)
  }

  /** The pieces from a position on, with a search ahead. */
  ghost function ParseFrom(src: seq<byte>, table: seq<nat>, kind: TableType, anchor: nat): (ps: seq<Piece>)
    requires |table| == Cells(kind) && MIN_LENGTH <= |src| && anchor + MF_LIMIT <= |src|
    ensures AllSound(src, ps)
    decreases |src| - anchor, 1
  {
    var r := Searched(src, table, kind, anchor + 1, 64 + 3);
    if !r.found then []
    else ParseMatch(src, r.table, kind, anchor, BackTo(src, anchor, r.ip, r.ip - r.ref), r.ip - r.ref, false)
  }

  /** The pieces from a match on. */
  ghost function ParseMatch(src: seq<byte>, table: seq<nat>, kind: TableType, from: nat, start: nat, d: nat,
                            chained: bool): (ps: seq<Piece>)
    requires |table| == Cells(kind) && MIN_LENGTH <= |src| && CanMatch(src, from, start, d)
    ensures AllSound(src, ps)
    decreases |src| - from, 0
  {
    var p := PieceAt(src, from, start, d, chained);
    [p] + ParseBehind(src, table, kind, p.end)
  }

  /** The pieces behind a match: one that begins right there, or a search. */
  ghost function ParseBehind(src: seq<byte>, table: seq<nat>, kind: TableType, ip: nat): (ps: seq<Piece>)
    requires |table| == Cells(kind) && MIN_LENGTH <= |src| && MIN_MATCH <= ip <= |src|
    ensures AllSound(src, ps)
    decreases |src| - ip, 2
  {
    if ip + MF_LIMIT > |src| then []
    else
      var ref := RefAt(src, table, kind, ip);
      var entered := EnteredAt(src, table, kind, ip);
      if IsMatch(src, ip, ref) then ParseMatch(src, entered, kind, ip, ip, ip - ref, true)
      else ParseFrom(src, entered, kind, ip)
  }

  /** The pieces of a whole input. */
  ghost function Parse(src: seq<byte>, kind: TableType): (ps: seq<Piece>)
    ensures AllSound(src, ps)
  {
    if |src| < MIN_LENGTH then [] else ParseFrom(src, seq(Cells(kind), _ => 0), kind, 0)
  }

  lemma {:induction false} FoundCanMatch(src: seq<byte>, anchor: nat, ip: nat, ref: nat)
    requires anchor <= ip && ip + MF_LIMIT <= |src| && IsMatch(src, ip, ref)
    ensures CanMatch(src, anchor, BackTo(src, anchor, ip, ip - ref), ip - ref)
  {
    hide BackTo, SameWord;
  }

  /** One step of each, as equations. */
  lemma {:induction false} FromIs(src: seq<byte>, table: seq<nat>, kind: TableType, anchor: nat)
    requires |table| == Cells(kind) && MIN_LENGTH <= |src| && anchor + MF_LIMIT <= |src|
    ensures var r := Searched(src, table, kind, anchor + 1, 64 + 3);
            if !r.found then ParseFrom(src, table, kind, anchor) == []
            else
              var d := r.ip - r.ref;
              && 1 <= d <= r.ip && CanMatch(src, anchor, BackTo(src, anchor, r.ip, d), d)
              && ParseFrom(src, table, kind, anchor)
                 == ParseMatch(src, r.table, kind, anchor, BackTo(src, anchor, r.ip, d), d, false)
  {
    hide ParseMatch, CanMatch, BackTo, Searched, SameWord;
    var r := Searched(src, table, kind, anchor + 1, 64 + 3);
    if r.found {
      FoundCanMatch(src, anchor, r.ip, r.ref);
    }
  }

  lemma {:induction false} MatchIs(src: seq<byte>, table: seq<nat>, kind: TableType, from: nat, start: nat, d: nat,
                                   chained: bool)
    requires |table| == Cells(kind) && MIN_LENGTH <= |src| && CanMatch(src, from, start, d)
    ensures var p := PieceAt(src, from, start, d, chained);
            ParseMatch(src, table, kind, from, start, d, chained) == [p] + ParseBehind(src, table, kind, p.end)
  {
    hide ParseBehind, MatchEnd;
  }

  lemma {:induction false} BehindIs(src: seq<byte>, table: seq<nat>, kind: TableType, ip: nat)
    requires |table| == Cells(kind) && MIN_LENGTH <= |src| && MIN_MATCH <= ip <= |src|
    ensures var ps := ParseBehind(src, table, kind, ip);
            if ip + MF_LIMIT > |src| then ps == []
            else
              var ref := RefAt(src, table, kind, ip);
              var entered := EnteredAt(src, table, kind, ip);
              if IsMatch(src, ip, ref) then
                && ref < ip && CanMatch(src, ip, ip, ip - ref)
                && ps == ParseMatch(src, entered, kind, ip, ip, ip - ref, true)
              else ps == ParseFrom(src, entered, kind, ip)
  {
    hide ParseFrom, ParseMatch, SameWord, RefAt, EnteredAt;
  }

  /** The end of the last match: the literals behind it end the block. */
  function End(ps: seq<Piece>): nat {
    if ps == [] then 0 else ps[|ps| - 1].end
  }

  // ----- What a parse is

  /** The pieces follow each other without a gap. */
  ghost predicate Tiled(ps: seq<Piece>, from: nat) {
    (ps != [] ==> ps[0].from == from) && forall i :: 0 < i < |ps| ==> ps[i].from == ps[i - 1].end
  }

  /** The match can be extended neither forwards nor backwards. */
  ghost predicate Longest(src: seq<byte>, p: Piece)
    requires Sound(src, p)
  {
    && (p.end == |src| - LAST_LITERALS || src[p.end] != src[p.end - p.d])
    && (p.start == p.from || p.start == p.d || src[p.start - 1] != src[p.start - 1 - p.d])
  }

  ghost predicate Greedy(src: seq<byte>, ps: seq<Piece>, from: nat) {
    AllSound(src, ps) && Tiled(ps, from) && forall i :: 0 <= i < |ps| ==> Longest(src, ps[i])
  }

  lemma {:induction false} GreedyMore(src: seq<byte>, p: Piece, rest: seq<Piece>)
    requires Sound(src, p) && Longest(src, p) && Greedy(src, rest, p.end)
    ensures Greedy(src, [p] + rest, p.from)
  {
    hide Sound, Longest;
    var ps := [p] + rest;
    forall i | 0 < i < |ps|
      ensures ps[i].from == ps[i - 1].end
    {
      assert i > 1 ==> rest[i - 1].from == rest[i - 2].end;
    }
  }

  lemma {:induction false} GreedyFrom(src: seq<byte>, table: seq<nat>, kind: TableType, anchor: nat)
    requires |table| == Cells(kind) && MIN_LENGTH <= |src| && anchor + MF_LIMIT <= |src|
    ensures Greedy(src, ParseFrom(src, table, kind, anchor), anchor)
    decreases |src| - anchor, 1
  {
    hide ParseFrom, ParseMatch, Greedy, CanMatch, BackTo, Searched, IsMatch, Periodic, AllSound;
    FromIs(src, table, kind, anchor);
    var r := Searched(src, table, kind, anchor + 1, 64 + 3);
    if !r.found {
      NoneIsGreedy(src, anchor);
    } else {
      GreedyMatch(src, r.table, kind, anchor, BackTo(src, anchor, r.ip, r.ip - r.ref), r.ip - r.ref, false);
    }
  }

  lemma {:induction false} GreedyMatch(src: seq<byte>, table: seq<nat>, kind: TableType, from: nat, start: nat, d: nat,
                                       chained: bool)
    requires |table| == Cells(kind) && MIN_LENGTH <= |src| && CanMatch(src, from, start, d)
    requires start == from || start == d || src[start - 1] != src[start - 1 - d]
    ensures Greedy(src, ParseMatch(src, table, kind, from, start, d, chained), from)
    decreases |src| - from, 0
  {
    hide ParseFrom, ParseMatch, ParseBehind, Greedy, MatchEnd, IsMatch, RefAt, EnteredAt;
    MatchIs(src, table, kind, from, start, d, chained);
    var p := PieceAt(src, from, start, d, chained);
    BehindIs(src, table, kind, p.end);
    if p.end + MF_LIMIT > |src| {
      NoneIsGreedy(src, p.end);
    } else {
      var ref := RefAt(src, table, kind, p.end);
      var entered := EnteredAt(src, table, kind, p.end);
      if IsMatch(src, p.end, ref) {
        GreedyMatch(src, entered, kind, p.end, p.end, p.end - ref, true);
      } else {
        GreedyFrom(src, entered, kind, p.end);
      }
    }
    GreedyMore(src, p, ParseBehind(src, table, kind, p.end));
  }

  lemma {:induction false} NoneIsGreedy(src: seq<byte>, from: nat)
    ensures Greedy(src, [], from)
  {
  }

  /** The pieces of an input follow each other from its start, and every match is as long as it can be, forwards and
      backwards. */
  lemma {:induction false} ParseIsGreedy(src: seq<byte>, kind: TableType)
    ensures Greedy(src, Parse(src, kind), 0)
  {
    hide Greedy;
    if |src| < MIN_LENGTH {
      NoneIsGreedy(src, 0);
    } else {
      GreedyFrom(src, seq(Cells(kind), _ => 0), kind, 0);
    }
  }

  // ----- The block of a parse

  ghost function SequenceOf(src: seq<byte>, p: Piece): Sequence
    requires Sound(src, p)
  {
    Sequence(src[p.from..p.start], p.d % 256, p.d / 256, p.end - p.start)
  }

  ghost function SequencesOf(src: seq<byte>, ps: seq<Piece>): (qs: seq<Sequence>)
    requires AllSound(src, ps)
    ensures |qs| == |ps|
  {
    seq(|ps|, i requires 0 <= i < |ps| => SequenceOf(src, ps[i]))
  }

  /** What is written for the pieces. */
  ghost function Written(src: seq<byte>, ps: seq<Piece>): seq<byte>
    requires AllSound(src, ps)
  {
    if ps == [] then [] else Written(src, ps[..|ps| - 1]) + Serialize(SequenceOf(src, ps[|ps| - 1]))
  }

  lemma {:induction false} WrittenIsSerialized(src: seq<byte>, ps: seq<Piece>)
    requires AllSound(src, ps) && Valid(SequencesOf(src, ps), |src|)
    ensures Written(src, ps) == SerializeAll(SequencesOf(src, ps), |src|)
    decreases |ps|
  {
    hide SequenceOf, Sound, Serialize;
    if ps != [] {
      var n := |ps| - 1;
      assert SequencesOf(src, ps)[..n] == SequencesOf(src, ps[..n]);
      WrittenIsSerialized(src, ps[..n]);
    }
  }

  lemma {:induction false} WrittenMore(src: seq<byte>, ps: seq<Piece>, p: Piece)
    requires AllSound(src, ps) && Sound(src, p)
    ensures AllSound(src, ps + [p]) && SequencesOf(src, ps + [p]) == SequencesOf(src, ps) + [SequenceOf(src, p)]
    ensures Written(src, ps + [p]) == Written(src, ps) + Serialize(SequenceOf(src, p))
  {
    hide SequenceOf, Sound, Serialize;
    assert (ps + [p])[..|ps|] == ps;
  }

  /** The block. */
  ghost function Block(src: seq<byte>, ps: seq<Piece>): seq<byte>
    requires AllSound(src, ps)
  {
    Written(src, ps) + SerializeLast(src[End(ps)..])
  }

  // ----- The checks

  /** The check before the literals of a piece; a chained piece has none, and no check. */
  predicate LiteralsAdmitted(op: nat, p: Piece, maxOut: nat)
    requires p.from <= p.start
  {
    p.chained || op + 1 + p.Literals() + (2 + 1 + LAST_LITERALS) + p.Literals() / 255 <= maxOut
  }

  /** The check before its match length. */
  predicate MatchAdmitted(op: nat, p: Piece, maxOut: nat)
    requires p.from <= p.start && p.start + MIN_MATCH <= p.end
  {
    op + 1 + |Extension(p.Literals())| + p.Literals() + 2 + (1 + LAST_LITERALS) + (p.end - p.start - MIN_MATCH) / 256
    <= maxOut
  }

  /** The check before the last literals. */
  predicate LastAdmitted(op: nat, run: nat, maxOut: nat) {
    op + run + 1 + (run + 255 - 15) / 255 <= maxOut
  }

  ghost predicate PieceAdmitted(src: seq<byte>, ps: seq<Piece>, i: nat, maxOut: nat)
    requires AllSound(src, ps) && i < |ps|
  {
    var op := |Written(src, ps[..i])|;
    Sound(src, ps[i]) && LiteralsAdmitted(op, ps[i], maxOut) && MatchAdmitted(op, ps[i], maxOut)
  }

  ghost predicate AllAdmitted(src: seq<byte>, ps: seq<Piece>, maxOut: nat)
    requires AllSound(src, ps)
  {
    forall i :: 0 <= i < |ps| ==> PieceAdmitted(src, ps, i, maxOut)
  }

  /** Every check passes with so much output allowed. */
  ghost predicate Admitted(src: seq<byte>, ps: seq<Piece>, maxOut: nat)
    requires AllSound(src, ps)
  {
    AllAdmitted(src, ps, maxOut) && End(ps) <= |src| && LastAdmitted(|Written(src, ps)|, |src| - End(ps), maxOut)
  }

  /** One more piece. */
  lemma {:induction false} AdmittedMore(src: seq<byte>, ps: seq<Piece>, p: Piece, maxOut: nat)
    requires AllSound(src, ps) && Sound(src, p) && AllAdmitted(src, ps, maxOut)
    ensures AllSound(src, ps + [p])
    ensures var op := |Written(src, ps)|;
            AllAdmitted(src, ps + [p], maxOut) <==> LiteralsAdmitted(op, p, maxOut) && MatchAdmitted(op, p, maxOut)
  {
    hide CanMatch, Written, LiteralsAdmitted, MatchAdmitted;
    var qs := ps + [p];
    forall i | 0 <= i < |ps|
      ensures PieceAdmitted(src, qs, i, maxOut) == PieceAdmitted(src, ps, i, maxOut)
    {
      assert qs[..i] == ps[..i];
    }
    assert qs[..|ps|] == ps && qs[|ps|] == p;
    assert AllAdmitted(src, qs, maxOut) <==> PieceAdmitted(src, qs, |ps|, maxOut);
  }

  /** A piece that is refused is refused whatever follows it. */
  lemma {:induction false} RefusedAll(src: seq<byte>, ps: seq<Piece>, rest: seq<Piece>, maxOut: nat)
    requires AllSound(src, ps) && AllSound(src, ps + rest) && !AllAdmitted(src, ps, maxOut)
    ensures !AllAdmitted(src, ps + rest, maxOut)
  {
    hide Sound, Written, LiteralsAdmitted, MatchAdmitted;
    var i :| 0 <= i < |ps| && !PieceAdmitted(src, ps, i, maxOut);
    assert (ps + rest)[..i] == ps[..i];
    assert !PieceAdmitted(src, ps + rest, i, maxOut);
  }

  // ----- Text of period two

  lemma {:induction false} TwoBytes(src: seq<byte>, k: nat)
    requires Periodic(src, 2, |src|, 2) && k < |src|
    ensures src[k] == src[k % 2]
    decreases k
  {
    if k >= 2 {
      TwoBytes(src, k - 2);
    }
  }

  /** A match in such a text goes on to its end: at an odd distance, because all bytes are equal then. */
  lemma {:induction false} GoesOn(src: seq<byte>, from: nat, start: nat, d: nat)
    requires Periodic(src, 2, |src|, 2) && CanMatch(src, from, start, d)
    ensures Periodic(src, start, |src|, d)
  {
    assert src[start] == src[start - d];
    TwoBytes(src, start);
    TwoBytes(src, start - d);
    hide Periodic;
    forall k | start <= k < |src|
      ensures src[k] == src[k - d]
    {
      TwoBytes(src, k);
      TwoBytes(src, k - d);
      Parities(start, k, d);
    }
    assert Periodic(src, start, |src|, d) by {
      AllAgree(src, start, d);
    }
  }

  lemma {:induction false} Parities(a: nat, b: nat, d: nat)
    requires d <= a && d <= b
    ensures d % 2 == 0 ==> b % 2 == (b - d) % 2
    ensures d % 2 == 1 ==> b % 2 != (b - d) % 2 && a % 2 != (a - d) % 2
  {
  }

  lemma {:induction false} AllAgree(src: seq<byte>, start: nat, d: nat)
    requires 1 <= d <= start <= |src| && forall k :: start <= k < |src| ==> src[k] == src[k - d]
    ensures Periodic(src, start, |src|, d)
  {
  }

  /** The one match of such a text. */
  lemma {:induction false} OneMatch(src: seq<byte>, table: seq<nat>, kind: TableType, from: nat, start: nat, d: nat)
    requires |table| == Cells(kind) && MIN_LENGTH <= |src| && CanMatch(src, from, start, d)
    requires Periodic(src, 2, |src|, 2)
    ensures ParseMatch(src, table, kind, from, start, d, false)
            == [Piece(from, start, d, |src| - LAST_LITERALS, false)]
  {
    GoesOn(src, from, start, d);
    IsMatchEnd(src, start + MIN_MATCH, d, |src| - LAST_LITERALS, |src| - LAST_LITERALS);
    MatchIs(src, table, kind, from, start, d, false);
    BehindIs(src, table, kind, |src| - LAST_LITERALS);
    hide ParseMatch, ParseBehind, MatchEnd, Searched, HashPosition;
  }

  /** A text of period two is at most 64 literals and one match to its end; only a short one has no match. */
  lemma {:induction false} PeriodicParse(src: seq<byte>, kind: TableType)
    requires Periodic(src, 2, |src|, 2)
    ensures var ps := Parse(src, kind);
            if ps == [] then |src| < 78
            else
              && |ps| == 1 && Sound(src, ps[0]) && ps[0].from == 0 && ps[0].start <= 64
              && ps[0].end == |src| - LAST_LITERALS && !ps[0].chained
  {
    hide Sound, CanMatch, ParseFrom, ParseMatch, BackTo, Searched, HashPosition, IsMatch, Periodic, Passed;
    if |src| >= MIN_LENGTH {
      var table := seq(Cells(kind), _ => 0);
      FromIs(src, table, kind, 0);
      var r := Searched(src, table, kind, 1, 64 + 3);
      if |src| >= 78 {
        PassedStart(src, table, kind, 1);
        SearchEnds(src, table, kind, 1, 1, 64 + 3);
      }
      if r.found {
        OneMatch(src, r.table, kind, 0, BackTo(src, 0, r.ip, r.ip - r.ref), r.ip - r.ref);
      }
    }
  }

  lemma {:induction false} SerializedAs(q: Sequence)
    requires q.n >= MIN_MATCH
    ensures |Serialize(q)| == 1 + |Extension(|q.lits|)| + |q.lits| + 2 + |Extension(q.n - MIN_MATCH)|
  {
    hide Extension, Token;
  }

  lemma {:induction false} ExtensionAtMost(n: nat)
    ensures |Extension(n)| <= n / 255 + 1
    ensures |Extension(n)| == (n + 255 - 15) / 255
  {
    if n >= 15 {
      ExtensionSize(n - 15);
    }
  }

  /** Its block takes a byte in 255 and a constant, and is written wherever there is so much room. */
  lemma {:induction false} PeriodicShrinks(src: seq<byte>, kind: TableType, maxOut: nat)
    requires Periodic(src, 2, |src|, 2) && maxOut >= |src| / 255 + 79
    ensures Admitted(src, Parse(src, kind), maxOut) && End(Parse(src, kind)) <= |src|
    ensures |Block(src, Parse(src, kind))| <= |src| / 255 + 79
  {
    hide CanMatch, Parse, Periodic, Serialize, Extension, Token;
    PeriodicParse(src, kind);
    var ps := Parse(src, kind);
    ExtensionAtMost(|src| - End(ps));
    if ps == [] {
      assert AllAdmitted(src, ps, maxOut);
    } else {
      var p := ps[0];
      assert ps == [] + [p];
      ExtensionAtMost(p.Literals());
      ExtensionAtMost(p.end - p.start - MIN_MATCH);
      SerializedAs(SequenceOf(src, p));
      WrittenMore(src, [], p);
      AdmittedMore(src, [], p, maxOut);
    }
  }
}
