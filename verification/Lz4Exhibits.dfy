/** Inputs on which the LZ4 encoder writes past the output size it was given: one of every length from
    FIRST_OVERRUN on, by as many bytes as Overrun allows.  The methods take the steps of CompressGeneric on these
    inputs, search included. */
module Lz4Exhibits {
  import opened Bytes
  import opened Lz4Format
  import opened Lz4Parse
  import opened Lz4Encoder

  lemma {:induction false} SerializedLength(q: Sequence)
    requires q.n >= MIN_MATCH && |q.lits| < 15 && q.n - MIN_MATCH >= 15
    ensures |Serialize(q)| == 1 + |q.lits| + 2 + (q.n - MIN_MATCH - 15) / 255 + 1
  {
    ExtensionSize(q.n - MIN_MATCH - 15);
  }

  /** Where a match ends. */
  lemma {:induction false} SameEnd(src: seq<byte>, start: nat, d: nat, ip: nat, stop: nat)
    requires 1 <= d <= start <= ip <= |src| - LAST_LITERALS && start <= stop <= |src| - LAST_LITERALS
    requires Periodic(src, start, ip, d) && Periodic(src, start, stop, d)
    requires ip < |src| - LAST_LITERALS ==> src[ip] != src[ip - d]
    requires stop < |src| - LAST_LITERALS ==> src[stop] != src[stop - d]
    ensures ip == stop
  {
  }

  /** The first byte entered in a cleared table, and the search from the second. */
  method FirstSearch(src: seq<byte>) returns (found: bool, probe: nat, ref: nat, table: array<nat>)
    requires LIMIT_64K <= |src| <= MAX_INPUT_SIZE
    ensures fresh(table) && table.Length == Cells(ByU32)
    ensures Search(found, probe, ref, table[..]) == Searched(src, seq(Cells(ByU32), _ => 0), ByU32, 1, 64 + 3)
    ensures found ==>
              Below(table, probe + 1) && ref < probe <= |src| - MF_LIMIT && Periodic(src, probe, probe + 4, probe - ref)
  {
    hide HashPosition, Searched;
    table := new nat[Cells(ByU32)](_ => 0);
    var h := HashPosition(src, 0, ByU32);
    PutOnHash(table, h, 0, ByU32);
    assert table[..] == seq(Cells(ByU32), _ => 0);
    h := HashPosition(src, 1, ByU32);
    found, probe, ref := FindMatch(src, table, ByU32, 1, h);
  }

  /** A match that begins as far from the start as it reaches back, written behind its literals. */
  method WriteMatch(src: seq<byte>, d: nat, dst: array<byte>, maxOut: nat, ghost lits: seq<byte>, ghost stop: nat)
      returns (op: nat)
    requires 1 <= d == |lits| < 15 && d + 4 <= stop <= |src| - LAST_LITERALS
             && d + 3 <= maxOut + Overrun(|src|) <= dst.Length
    requires Periodic(src, d, d + 4, d) && Periodic(src, d, stop, d)
             && (stop < |src| - LAST_LITERALS ==> src[stop] != src[stop - d])
    requires dst[..d + 1] == [] + [Token(|lits|, 0)] + Extension(|lits|) + lits
    requires d + 3 + (1 + LAST_LITERALS) + (stop - d - 4) / 256 <= maxOut
    modifies dst
    ensures op == |Serialize(Sequence(lits, d, 0, stop - d))| <= dst.Length
    ensures dst[..op] == Serialize(Sequence(lits, d, 0, stop - d))
  {
    hide Serialize, Token, Extension, Surplus, Overrun, Periodic;
    var ok, ip;
    ok, op, ip := EmitMatch(src, d, d, dst, d + 1, maxOut, 0, [], lits, d + 4);
    SameEnd(src, d, d, ip, stop);
    assert op == |dst[..op]|;
  }

  // ----- One match

  /** 330505 equal bytes: one literal, then a match of all but the last five bytes. */
  function Equal(): (src: seq<byte>)
    ensures |src| == 330505
  {
    seq(330505, _ => 0)
  }

  lemma {:induction false} EqualIsPeriodic(end: nat)
    requires 1 <= end <= 330505
    ensures Periodic(Equal(), 1, end, 1)
  {
  }

  /** Position 1 is the first that is looked up, and it matches position 0. */
  lemma {:induction false} EqualSearch(table: seq<nat>)
    requires table == seq(Cells(ByU32), _ => 0)
    ensures var r := Searched(Equal(), table, ByU32, 1, 64 + 3); r.found && r.ip == 1 && r.ref == 0
  {
    EqualIsPeriodic(5);
    hide Equal, HashPosition, SameWord;
  }

  /** With 1300 bytes of output allowed, the length of that match goes one byte past them. */
  method OneMatchOverruns(dst: array<byte>) returns (op: nat)
    requires dst.Length >= 1303
    modifies dst
    ensures op == 1301
    ensures dst[..op] == Serialize(Sequence([0], 1, 0, 330499))
  {
    EqualHead();
    EqualSearch(seq(Cells(ByU32), _ => 0));
    EqualIsPeriodic(5);
    EqualIsPeriodic(330500);
    SerializedLength(Sequence([0], 1, 0, 330499));
    hide Equal, Serialize, Token, Extension, Searched, HashPosition, Below, Periodic;
    var src := Equal();
    var found, probe, ref, table := FirstSearch(src);
    var start := CatchUp(src, 0, probe, probe - ref);
    var ok, p := EmitLiterals(src, 0, start, dst, 0, 1300);
    ShortRun(1);
    assert p == |dst[..p]| == 2;
    assert dst[..p] == [] + [Token(|[0]|, 0)] + Extension(|[0]|) + [0];
    op := WriteMatch(src, 1, dst, 1300, [0], 330500);
  }

  lemma {:induction false} EqualHead()
    ensures Equal()[0..1] == [0]
  {
  }

  // ----- Two matches

  /** How often the estimate of the limit check loses a byte. */
  function Laps(n: nat): (c: nat)
    requires n >= FIRST_OVERRUN
    ensures c == Overrun(n) + 1 >= 2 && 4114 + 65280 * c <= n
  {
    (n - 4114) / 65280
  }

  /** Where the first match ends. */
  function Stop(n: nat): (stop: nat)
    requires n >= FIRST_OVERRUN
    ensures stop % 3 == 1 && 134662 <= stop <= n - 12
  {
    4102 + 65280 * Laps(n)
  }

  /** The output that is allowed. */
  function Limit(n: nat): nat
    requires n >= FIRST_OVERRUN
  {
    27 + 255 * Laps(n)
  }

  /** Period three up to Stop(n), then four bytes of period two, then more. */
  function Mixed(n: nat): (src: seq<byte>)
    requires n >= FIRST_OVERRUN
    ensures |src| == n && forall i :: 0 <= i < n ==> src[i] == MixedAt(Stop(n), i)
  {
    seq(n, i requires 0 <= i < n => MixedAt(Stop(n), i))
  }

  function MixedAt(stop: nat, i: nat): byte {
    if i < stop then i % 3 else if i == stop || i == stop + 2 then 2 else 0
  }

  lemma {:induction false} MixedPeriods(n: nat)
    requires n >= FIRST_OVERRUN
    ensures var src, stop := Mixed(n), Stop(n);
            Periodic(src, 3, 7, 3) && Periodic(src, 3, stop, 3) && src[stop] != src[stop - 3]
  {
    hide Stop, Mixed;
    var src, stop := Mixed(n), Stop(n);
    forall i | 3 <= i < stop
      ensures src[i] == src[i - 3]
    {
      assert src[i] == MixedAt(stop, i) && src[i - 3] == MixedAt(stop, i - 3);
    }
    assert src[stop - 3] == MixedAt(stop, stop - 3) == 1;
  }

  lemma {:induction false} MixedFollows(n: nat)
    requires n >= FIRST_OVERRUN
    ensures Periodic(Mixed(n), Stop(n), Stop(n) + 4, 2)
  {
    hide Stop, Mixed;
    var src, stop := Mixed(n), Stop(n);
    assert src[stop - 2] == MixedAt(stop, stop - 2) == 2 && src[stop - 1] == MixedAt(stop, stop - 1) == 0;
  }

  lemma {:induction false} MixedSlots(src: seq<byte>)
    requires |src| >= 7 && src[0] == src[3] == src[6] == 0 && src[1] == src[4] == 1 && src[2] == src[5] == 2
    ensures HashPosition(src, 0, ByU32) == HashPosition(src, 3, ByU32) == 685
    ensures HashPosition(src, 1, ByU32) != 685 && HashPosition(src, 2, ByU32) != 685
  {
  }

  /** Positions 1 and 2 find nothing, position 3 finds position 0. */
  lemma {:induction false} MixedSearch(src: seq<byte>, table: seq<nat>)
    requires |src| >= 100 && src[0] == src[3] == src[6] == 0 && src[1] == src[4] == 1 && src[2] == src[5] == 2
    requires table == seq(Cells(ByU32), _ => 0)
    ensures var r := Searched(src, table, ByU32, 1, 64 + 3); r.found && r.ip == 3 && r.ref == 0
  {
    MixedSlots(src);
    MixedWords(src);
    hide HashPosition, IsMatch;
    var h1, h2 := HashPosition(src, 1, ByU32), HashPosition(src, 2, ByU32);
    var t1 := table[h1 := 1];
    var t2 := t1[h2 := 2];
    assert Searched(src, table, ByU32, 1, 67) == Searched(src, t1, ByU32, 2, 68);
    assert Searched(src, t1, ByU32, 2, 68) == Searched(src, t2, ByU32, 3, 69);
  }

  lemma {:induction false} MixedWords(src: seq<byte>)
    requires |src| >= 7 && src[0] == src[3] == src[6] == 0 && src[1] == src[4] == 1 && src[2] == src[5] == 2
    ensures !IsMatch(src, 1, 0) && !IsMatch(src, 2, 0) && !IsMatch(src, 2, 1) && IsMatch(src, 3, 0)
  {
    hide SameWord;
  }

  /** What the first match takes, and what the check before it allows. */
  lemma {:induction false} Sizes(n: nat)
    requires n >= FIRST_OVERRUN
    ensures 4 + 2 + (1 + LAST_LITERALS) + (Stop(n) - 7) / 256 == Limit(n) >= 12
    ensures 1 + 3 + 2 + (Stop(n) - 7 - 15) / 255 + 1 == AfterFirst(n)
    ensures AfterFirst(n) + 3 == Limit(n) + Overrun(n) && Limit(n) < AfterFirst(n) + 3
  {
    var c := Laps(n);
    Quotients(c);
  }

  lemma {:induction false} Quotients(c: nat)
    ensures (4095 + 65280 * c) / 256 == 15 + 255 * c && (4080 + 65280 * c) / 255 == 16 + 256 * c
  {
  }

  /** Where the output stands after the first match. */
  function AfterFirst(n: nat): nat
    requires n >= FIRST_OVERRUN
  {
    23 + 256 * Laps(n)
  }

  /** The literals and the first match. */
  method FirstMatch(n: nat, src: seq<byte>, dst: array<byte>) returns (op: nat)
    requires n >= FIRST_OVERRUN && src == Mixed(n) && dst.Length >= Limit(n) + Overrun(n)
    modifies dst
    ensures op == AfterFirst(n)
  {
    hide Mixed, MixedAt, Serialize, Token, Extension, Stop, Limit, Overrun, AfterFirst, Periodic;
    var stop := Stop(n);
    Sizes(n);
    MixedPeriods(n);
    ShortRun(3);
    SerializedLength(Sequence(src[0..3], 3, 0, stop - 3));
    var ok, p := EmitLiterals(src, 0, 3, dst, 0, Limit(n));
    assert p == |dst[..p]| == 4;
    ghost var lits := src[0..3];
    op := WriteMatch(src, 3, dst, Limit(n), lits, stop);
  }

  /** A match that another one follows at once.  The length of the first stays close to the limit, but the token
      and offset of the second are written before anything is checked.  The last of these bytes lies Overrun(n)
      bytes past the limit, so that the bound of CompressLimitedOutput is reached for every length. */
  method TwoMatchesOverrun(n: nat, dst: array<byte>)
    requires FIRST_OVERRUN <= n <= MAX_INPUT_SIZE && dst.Length >= Limit(n) + Overrun(n)
             && dst[Limit(n) + Overrun(n) - 1] != 0
    modifies dst
    ensures dst[Limit(n) + Overrun(n) - 1] == 0 && Overrun(n) > 0
  {
    var src := Mixed(n);
    MixedSearch(src, seq(Cells(ByU32), _ => 0));
    hide Mixed, MixedAt, Searched, Stop, Limit, Overrun, Laps;
    var found, probe, ref, table := FirstSearch(src);
    assert probe == 3 && ref == 0;
    var start := CatchUp(src, 0, probe, probe - ref);
    var op := FirstMatch(n, src, dst);
    found, ref := SecondSearch(n, src, table);
    SecondMatch(n, src, dst, ref);
  }

  method SecondSearch(n: nat, src: seq<byte>, table: array<nat>) returns (found: bool, ref: nat)
    requires FIRST_OVERRUN <= n <= MAX_INPUT_SIZE && src == Mixed(n) && table.Length == Cells(ByU32) && Below(table, 4)
    modifies table
    ensures found && ref == Stop(n) - 2
  {
    var stop := Stop(n);
    MixedFollows(n);
    SameHash(src, stop, 2, ByU32);
    hide Mixed, MixedAt, HashPosition, Stop;
    found, ref := NextMatch(src, table, ByU32, stop);
  }

  /** The token and offset of a match that comes too close to the limit to be completed. */
  method WriteOffset(src: seq<byte>, start: nat, dst: array<byte>, op: nat, maxOut: nat)
    requires 2 <= start && start + 4 <= |src| - LAST_LITERALS && Periodic(src, start, start + 4, 2)
    requires maxOut < op + 9 && op + 3 <= maxOut + Overrun(|src|) <= dst.Length
    modifies dst
    ensures dst[op + 2] == 0
  {
    hide Serialize, Token, Extension, Surplus, Overrun;
    dst[op] := 0;
    ghost var pre, none: seq<byte> := dst[..op], [];
    assert dst[..op + 1] == pre + [0];
    NoLiterals(pre, dst[..op + 1]);
    var ok, op', end := EmitMatch(src, start, 2, dst, op + 1, maxOut, op, pre, none, start + 4);
  }

  method SecondMatch(n: nat, src: seq<byte>, dst: array<byte>, ref: nat)
    requires n >= FIRST_OVERRUN && src == Mixed(n) && dst.Length >= Limit(n) + Overrun(n) && ref == Stop(n) - 2
    modifies dst
    ensures dst[Limit(n) + Overrun(n) - 1] == 0
  {
    Sizes(n);
    MixedFollows(n);
    hide Mixed, MixedAt, Stop, Limit, Overrun, AfterFirst;
    WriteOffset(src, ref + 2, dst, AfterFirst(n), Limit(n));
  }
}
