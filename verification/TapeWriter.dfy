/** How writing cuts the tape into maps: a map is closed when it is full or when one more mark of a kind
    would not fit the four-bit count kept for it; writing in the middle of the tape first cuts off
    what follows. */
module TapeWriter {
  import opened TapeScan
  import opened TapeMaps

  const MAX_ENTRIES := 255
  const MAX_MARKS := 15

  /** The map `m` takes no more elements when the next one is `b`. */
  predicate Closed(m: Map, b: Block) {
    || |m| == MAX_ENTRIES
    || (b == Filemark && FilemarksIn(m) == MAX_MARKS)
    || (b == Setmark && SetmarksIn(m) == MAX_MARKS)
  }

  /** blk_entries_write_insert, for one element. */
  function Appended(ms: seq<Map>, b: Block): seq<Map> {
    if ms == [] || Closed(ms[|ms| - 1], b) then ms + [[b]]
    else ms[..|ms| - 1] + [ms[|ms| - 1] + [b]]
  }

  /** blk_map_write_eod at element c of map g: what is kept. */
  function Truncated(ms: seq<Map>, g: nat, c: nat): seq<Map>
    requires g < |ms| && c <= |ms[g]|
  {
    ms[..g] + [ms[g][..c]]
  }

  // ----- What writing keeps

  /** Map i begins with the element that closed the map before it. */
  predicate ClosedBefore(ms: seq<Map>, i: nat)
    requires 0 < i < |ms|
  {
    ms[i] != [] && ms[i - 1] != [] && Closed(ms[i - 1], ms[i][0])
  }

  /** Every map but the last was closed by the element that begins the next one. */
  ghost predicate WellCut(ms: seq<Map>) {
    && (forall i :: 0 <= i < |ms| ==>
                      |ms[i]| <= MAX_ENTRIES && FilemarksIn(ms[i]) <= MAX_MARKS && SetmarksIn(ms[i]) <= MAX_MARKS)
    && (forall i :: 0 < i < |ms| ==> ClosedBefore(ms, i))
  }

  /** Map g may be cut at c without leaving a map that nothing closed. */
  predicate CleanCut(g: nat, c: nat) {
    g == 0 || c > 0
  }

  lemma {:induction false} CountAppend(m: Map, hi: nat, b: Block, code: Code)
    requires hi <= |m|
    ensures Count(m + [b], 0, hi, code) == Count(m, 0, hi, code)
    decreases hi
  {
    if hi > 0 {
      CountAppend(m, hi - 1, b, code);
    }
  }

  lemma {:induction false} CountPrefix(m: Map, c: nat, code: Code)
    requires c <= |m|
    ensures Count(m[..c], 0, c, code) <= Count(m, 0, |m|, code)
    decreases |m|
  {
    if c == |m| {
      assert m[..c] == m;
    } else {
      assert m[..|m| - 1][..c] == m[..c] && m[..|m| - 1] + [m[|m| - 1]] == m;
      CountPrefix(m[..|m| - 1], c, code);
      CountAppend(m[..|m| - 1], |m| - 1, m[|m| - 1], code);
    }
  }

  lemma {:induction false} AppendKeepsCut(ms: seq<Map>, b: Block)
    requires WellCut(ms)
    ensures WellCut(Appended(ms, b))
  {
    hide Count;
    var ns, n := Appended(ms, b), |ms| - 1;
    if ms == [] || Closed(ms[n], b) {
      OneMore([], b);
      assert [] + [b] == [b];
      assert FilemarksIn([]) == SetmarksIn([]) == 0;
      forall i | 0 < i < |ns|
        ensures ClosedBefore(ns, i)
      {
        assert i < |ms| ==> ClosedBefore(ms, i) && ns[i] == ms[i];
        assert ns[i - 1] == ms[i - 1];
        ClosedNotEmpty(ms[i - 1], b);
      }
    } else {
      OneMore(ms[n], b);
      forall i | 0 < i < |ns|
        ensures ClosedBefore(ns, i)
      {
        assert ClosedBefore(ms, i);
        assert ns[i - 1] == ms[i - 1] && ns[i][0] == ms[i][0];
      }
    }
  }

  /** An empty map takes any element. */
  lemma {:induction false} ClosedNotEmpty(m: Map, b: Block)
    ensures Closed(m, b) ==> m != []
  {
  }

  lemma {:induction false} OneMore(m: Map, b: Block)
    ensures FilemarksIn(m + [b]) == FilemarksIn(m) + (if b == Filemark then 1 else 0)
    ensures SetmarksIn(m + [b]) == SetmarksIn(m) + (if b == Setmark then 1 else 0)
  {
    CountAppend(m, |m|, b, Code.Filemarks);
    CountAppend(m, |m|, b, Code.Setmarks);
  }

  lemma {:induction false} TruncateKeepsCut(ms: seq<Map>, g: nat, c: nat)
    requires WellCut(ms) && g < |ms| && c <= |ms[g]| && CleanCut(g, c)
    ensures WellCut(Truncated(ms, g, c))
  {
    hide Count;
    CountPrefix(ms[g], c, Code.Filemarks);
    CountPrefix(ms[g], c, Code.Setmarks);
    var ns := Truncated(ms, g, c);
    assert ns[g] == ms[g][..c] && |ns[g]| == c;
    forall i | 0 < i < |ns|
      ensures ClosedBefore(ns, i)
    {
      assert ClosedBefore(ms, i);
      assert ns[i - 1] == ms[i - 1] && ns[i][0] == ms[i][0];
    }
  }

  lemma {:induction false} AppendAddsElement(ms: seq<Map>, b: Block)
    ensures Flat(Appended(ms, b)) == Flat(ms) + [b]
  {
    var ns := Appended(ms, b);
    if ms == [] || Closed(ms[|ms| - 1], b) {
      FlatPrefix(ms, ns, |ms|);
    } else {
      FlatPrefix(ms, ns, |ms| - 1);
    }
  }

  lemma {:induction false} TruncateKeepsPrefix(ms: seq<Map>, g: nat, c: nat)
    requires g < |ms| && c <= |ms[g]|
    ensures Offset(ms, g) + c <= |Flat(ms)|
    ensures Flat(Truncated(ms, g, c)) == Flat(ms)[..Offset(ms, g) + c]
  {
    var ns := Truncated(ms, g, c);
    FlatPrefix(ms, ns, g);
    FlatIsPrefix(ms, g + 1, |ms|);
    assert FlatTo(ms, g + 1) == FlatTo(ms, g) + ms[g];
  }

  lemma {:induction false} FlatPrefix(ms: seq<Map>, ns: seq<Map>, g: nat)
    requires g <= |ms| && g <= |ns| && ms[..g] == ns[..g]
    ensures FlatTo(ms, g) == FlatTo(ns, g)
    decreases g
  {
    if g > 0 {
      assert ms[..g][g - 1] == ms[g - 1] && ns[..g][g - 1] == ns[g - 1];
      assert ms[..g - 1] == ms[..g][..g - 1] == ns[..g][..g - 1] == ns[..g - 1];
      FlatPrefix(ms, ns, g - 1);
    }
  }

  lemma {:induction false} FlatIsPrefix(ms: seq<Map>, g: nat, h: nat)
    requires g <= h <= |ms|
    ensures Offset(ms, g) <= Offset(ms, h) && FlatTo(ms, h)[..Offset(ms, g)] == FlatTo(ms, g)
    decreases h
  {
    if g < h {
      FlatIsPrefix(ms, g, h - 1);
    }
  }

  // ----- What that means for SPACE backward

  lemma {:induction false} FirstOfMarkFree(m: Map)
    requires m != [] && MarkFree(m)
    ensures m[0] == Data
  {
    CountBounds(m, |m|, Code.Filemarks);
    CountBounds(m, |m|, Code.Setmarks);
  }

  lemma {:induction false} WellCutIsEven(ms: seq<Map>)
    requires WellCut(ms)
    ensures NonEmpty(ms) && EvenlyCut(ms)
  {
    forall i | 0 < i < |ms| - 1 && MarkFree(ms[i])
      ensures |ms[i]| == |ms[i - 1]|
    {
      assert ClosedBefore(ms, i + 1) && ClosedBefore(ms, i);
      FirstOfMarkFree(ms[i]);
    }
    forall i | 0 <= i < |ms| - 1
      ensures ms[i] != []
    {
      assert ClosedBefore(ms, i + 1);
    }
  }

  // ----- Runs

  /** Write at the end of the tape, or at element c of map g. */
  datatype Op = Append(b: Block) | Overwrite(g: nat, c: nat, b: Block)

  predicate Enabled(ms: seq<Map>, op: Op) {
    op.Overwrite? ==> op.g < |ms| && op.c <= |ms[op.g]|
  }

  function Apply(ms: seq<Map>, op: Op): seq<Map>
    requires Enabled(ms, op)
  {
    match op
    case Append(b) => Appended(ms, b)
    case Overwrite(g, c, b) => Appended(Truncated(ms, g, c), b)
  }

  ghost predicate Reaches(from: seq<Map>, ops: seq<Op>, ms: seq<Map>)
    decreases |ops|
  {
    if ops == [] then ms == from else Enabled(from, ops[0]) && Reaches(Apply(from, ops[0]), ops[1..], ms)
  }

  ghost predicate Clean(ops: seq<Op>) {
    forall op :: op in ops && op.Overwrite? ==> CleanCut(op.g, op.c)
  }

  lemma {:induction false} RunKeepsCut(from: seq<Map>, ops: seq<Op>, ms: seq<Map>)
    requires WellCut(from) && Reaches(from, ops, ms) && Clean(ops)
    ensures WellCut(ms)
    decreases |ops|
  {
    hide WellCut;
    hide Appended;
    if ops != [] {
      var op := ops[0];
      assert op in ops;
      if op.Overwrite? {
        TruncateKeepsCut(from, op.g, op.c);
        AppendKeepsCut(Truncated(from, op.g, op.c), op.b);
      } else {
        AppendKeepsCut(from, op.b);
      }
      RunKeepsCut(Apply(from, op), ops[1..], ms);
    }
  }

  /** After every run in which no overwrite begins at the first element of a later map, SPACE backward
      agrees with the flat tape for every code, count and starting position. */
  lemma {:induction false} CleanRunsAgree(ops: seq<Op>, ms: seq<Map>, g: nat, c: nat, code: Code, todo: nat)
    requires Reaches([], ops, ms) && Clean(ops)
    requires g < |ms| && c <= |ms[g]| && todo > 0
    ensures BackwardAgrees(ms, g, c, code, todo)
  {
    hide BackwardAgrees;
    hide BackwardIsExact;
    RunKeepsCut([], ops, ms);
    if code == Blocks {
      WellCutIsEven(ms);
      EvenIsExact(ms, g, c, todo);
      BackwardBlocksExactly(ms, g, c, todo);
    } else {
      BackwardMarksAgree(ms, g, c, code, todo);
    }
  }

  // ----- A run after which SPACE backward goes wrong

  function Fill(b: Block, n: nat): (m: Map)
    ensures |m| == n && forall k :: 0 <= k < n ==> m[k] == b
  {
    seq(n, _ => b)
  }

  lemma {:induction false} FillCounts(b: Block, n: nat)
    ensures FilemarksIn(Fill(b, n)) == if b == Filemark then n else 0
    ensures SetmarksIn(Fill(b, n)) == if b == Setmark then n else 0
  {
    CountBounds(Fill(b, n), n, Code.Filemarks);
    CountBounds(Fill(b, n), n, Code.Setmarks);
  }

  lemma {:induction false} Compose(from: seq<Map>, ops: seq<Op>, mid: seq<Map>, more: seq<Op>, to: seq<Map>)
    requires Reaches(from, ops, mid) && Reaches(mid, more, to)
    ensures Reaches(from, ops + more, to)
    decreases |ops|
  {
    hide Appended, Truncated;
    if ops == [] {
      assert ops + more == more;
    } else {
      assert (ops + more)[1..] == ops[1..] + more;
      Compose(Apply(from, ops[0]), ops[1..], mid, more, to);
    }
  }

  lemma {:induction false} Grow(front: seq<Map>, b: Block, k: nat, n: nat) returns (ops: seq<Op>)
    requires k + n <= if b == Data then MAX_ENTRIES else MAX_MARKS
    ensures Reaches(front + [Fill(b, k)], ops, front + [Fill(b, k + n)])
    decreases n
  {
    hide Reaches;
    if n == 0 {
      ops := [];
      Stay(front + [Fill(b, k)]);
    } else {
      OneMoreFilled(front, b, k);
      var rest := Grow(front, b, k + 1, n - 1);
      ops := [Append(b)] + rest;
      Compose(front + [Fill(b, k)], [Append(b)], front + [Fill(b, k + 1)], rest, front + [Fill(b, k + n)]);
    }
  }

  lemma {:induction false} Stay(ms: seq<Map>)
    ensures Reaches(ms, [], ms)
  {
  }

  lemma {:induction false} OneMoreFilled(front: seq<Map>, b: Block, k: nat)
    requires k < if b == Data then MAX_ENTRIES else MAX_MARKS
    ensures Reaches(front + [Fill(b, k)], [Append(b)], front + [Fill(b, k + 1)])
  {
    hide Reaches;
    var ms := front + [Fill(b, k)];
    FillCounts(b, k);
    hide Fill;
    assert Fill(b, k) + [b] == Fill(b, k + 1);
    assert ms[..|ms| - 1] == front;
    assert Apply(ms, Append(b)) == front + [Fill(b, k + 1)];
    One(ms, Append(b));
  }

  lemma {:induction false} One(ms: seq<Map>, op: Op)
    requires Enabled(ms, op)
    ensures Reaches(ms, [op], Apply(ms, op))
  {
    assert [op][1..] == [];
  }

  /** Sixteen filemarks. */
  lemma {:induction false} SixteenMarks() returns (ops: seq<Op>)
    ensures Reaches([], ops, [Fill(Filemark, 15), [Filemark]])
  {
    var a := FifteenMarks();
    FillCounts(Filemark, 15);
    hide Reaches;
    var m1 := [Fill(Filemark, 15)];
    One(m1, Append(Filemark));
    assert Apply(m1, Append(Filemark)) == [Fill(Filemark, 15), [Filemark]];
    hide Fill, Apply;
    Compose([], a, m1, [Append(Filemark)], [Fill(Filemark, 15), [Filemark]]);
    ops := a + [Append(Filemark)];
  }

  lemma {:induction false} FifteenMarks() returns (ops: seq<Op>)
    ensures Reaches([], ops, [Fill(Filemark, 15)])
  {
    hide Reaches;
    One([], Append(Filemark));
    assert [Filemark] == Fill(Filemark, 1);
    assert Apply([], Append(Filemark)) == [] + [Fill(Filemark, 1)];
    hide Fill, Apply;
    var a := Grow([], Filemark, 1, 14);
    Compose([], [Append(Filemark)], [] + [Fill(Filemark, 1)], a, [] + [Fill(Filemark, 15)]);
    assert [] + [Fill(Filemark, 15)] == [Fill(Filemark, 15)];
    ops := [Append(Filemark)] + a;
  }

  /** The second map's only element overwritten by a block. */
  lemma {:induction false} OverwriteFirst(m: Map, b: Block)
    ensures Reaches([m, [b]], [Overwrite(1, 0, Data)], [m] + [Fill(Data, 1)])
  {
    hide Reaches;
    var ms, cut := [m, [b]], Overwrite(1, 0, Data);
    One(ms, cut);
    assert ms[..1] == [m] && ms[1][..0] == [];
    assert Truncated(ms, 1, 0) == [m] + [[]];
    assert ([m] + [[]])[..1] == [m] && [] + [Data] == Fill(Data, 1);
    assert Apply(ms, cut) == [m] + [Fill(Data, 1)];
  }

  /** Sixteen filemarks, the last one overwritten by 256 blocks. */
  lemma {:induction false} UncleanRun() returns (ops: seq<Op>, ms: seq<Map>)
    ensures Reaches([], ops, ms)
    ensures ms == [Fill(Filemark, 15), Fill(Data, 255), [Data]]
  {
    hide Reaches, Appended, Truncated;
    var m1 := [Fill(Filemark, 15)];
    var a := SixteenMarks();
    OverwriteFirst(Fill(Filemark, 15), Filemark);
    var cut := [Overwrite(1, 0, Data)];
    Compose([], a, [Fill(Filemark, 15), [Filemark]], cut, m1 + [Fill(Data, 1)]);
    var b := Grow(m1, Data, 1, 254);
    Compose([], a + cut, m1 + [Fill(Data, 1)], b, m1 + [Fill(Data, 255)]);
    OneMoreMap(m1);
    Compose([], a + cut + b, m1 + [Fill(Data, 255)], [Append(Data)], m1 + [Fill(Data, 255), [Data]]);
    ops, ms := a + cut + b + [Append(Data)], m1 + [Fill(Data, 255), [Data]];
  }

  /** A block behind a full map begins the next one. */
  lemma {:induction false} OneMoreMap(front: seq<Map>)
    ensures Reaches(front + [Fill(Data, 255)], [Append(Data)], front + [Fill(Data, 255), [Data]])
  {
    hide Reaches;
    One(front + [Fill(Data, 255)], Append(Data));
    assert front + [Fill(Data, 255)] + [[Data]] == front + [Fill(Data, 255), [Data]];
  }

  /** Without the condition the claim is false: after that run, spacing back over 100 blocks from the
      end of the tape ends in the wrong place. */
  lemma {:induction false} UncleanRunDisagrees() returns (ops: seq<Op>, ms: seq<Map>)
    ensures Reaches([], ops, ms) && |ms| == 3 && |ms[2]| == 1
    ensures !BackwardAgrees(ms, 2, 1, Blocks, 100)
  {
    hide Reaches;
    hide BackwardAgrees;
    ops, ms := UncleanRun();
    FillCounts(Data, 255);
    assert WalkBack(ms, 1, Blocks, 99) == (0, 84);
    assert Count(ms[2], 0, 1, Blocks) == 1;
    assert !BackwardIsExact(ms, 2, 1, 100);
    BackwardBlocksExactly(ms, 2, 1, 100);
  }

  // ----- Several elements at once

  function Appends(ms: seq<Map>, bs: seq<Block>): seq<Map>
    decreases |bs|
  {
    if bs == [] then ms else Appends(Appended(ms, bs[0]), bs[1..])
  }

  /** How many of the elements go into the map that is current, before a new one is begun. */
  function Kept(ms: seq<Map>, bs: seq<Block>): (k: nat)
    ensures k <= |bs|
    decreases |bs|
  {
    if bs == [] || ms == [] || Closed(ms[|ms| - 1], bs[0]) then 0 else 1 + Kept(Appended(ms, bs[0]), bs[1..])
  }

  lemma {:induction false} AppendsAll(ms: seq<Map>, bs: seq<Block>)
    ensures Flat(Appends(ms, bs)) == Flat(ms) + bs
    ensures NonEmpty(ms) ==> NonEmpty(Appends(ms, bs))
    ensures bs != [] ==> Appends(ms, bs) != [] && Last(Appends(ms, bs)) != []
    decreases |bs|
  {
    if bs != [] {
      AppendAddsElement(ms, bs[0]);
      AppendNonEmpty(ms, bs[0]);
      hide Flat, Appended, NonEmpty;
      AppendsAll(Appended(ms, bs[0]), bs[1..]);
      assert Flat(ms) + [bs[0]] + bs[1..] == Flat(ms) + bs;
    }
  }

  function Last(ms: seq<Map>): Map
    requires ms != []
  {
    ms[|ms| - 1]
  }

  lemma {:induction false} AppendNonEmpty(ms: seq<Map>, b: Block)
    ensures NonEmpty(ms) ==> NonEmpty(Appended(ms, b))
    ensures Appended(ms, b) != [] && Last(Appended(ms, b)) != []
  {
    if ms != [] {
      ClosedNotEmpty(ms[|ms| - 1], b);
    }
  }

  /** A cut leaves an empty last map that is not the first exactly when it is not a clean cut. */
  lemma {:induction false} EmptyAfterCut(ms: seq<Map>, g: nat, c: nat)
    requires g < |ms| && c <= |ms[g]| && NonEmpty(ms)
    ensures var ns := Truncated(ms, g, c);
            NonEmpty(ns) && (|ns| > 1 && Last(ns) == [] <==> !CleanCut(g, c))
  {
  }

  /** The elements that Kept counts end up in the map that was current. */
  lemma {:induction false} KeptInMap(ms: seq<Map>, bs: seq<Block>)
    requires ms != []
    ensures var k := Kept(ms, bs); Appends(ms, bs[..k]) == ms[..|ms| - 1] + [Last(ms) + bs[..k]]
    decreases |bs|
  {
    var k := Kept(ms, bs);
    if k == 0 {
      assert Last(ms) + bs[..0] == Last(ms);
    } else {
      KeptFirst(ms, bs);
      var ns := Appended(ms, bs[0]);
      hide Closed, Appended, Appends, Kept;
      KeptInMap(ns, bs[1..]);
      assert Last(ms) + [bs[0]] + bs[1..][..k - 1] == Last(ms) + bs[..k];
    }
  }

  /** The first element kept goes into the last map, and the others are kept behind it. */
  lemma {:induction false} KeptFirst(ms: seq<Map>, bs: seq<Block>)
    requires ms != [] && Kept(ms, bs) > 0
    ensures bs != [] && var ns, k := Appended(ms, bs[0]), Kept(ms, bs);
            && |ns| == |ms| && ns[..|ns| - 1] == ms[..|ms| - 1] && Last(ns) == Last(ms) + [bs[0]]
            && Kept(ns, bs[1..]) == k - 1 && Appends(ms, bs[..k]) == Appends(ns, bs[1..][..k - 1])
  {
    var k := Kept(ms, bs);
    assert bs[..k][1..] == bs[1..][..k - 1] && bs[..k][0] == bs[0];
    hide Count;
  }

  // ----- Writing in place

  /** The maps of a partition and the position, between elements or at an end of a map. */
  class Tape {
    var maps: seq<Map>
    var g: nat
    var c: nat

    ghost predicate Valid()
      reads this
    {
      if maps == [] then g == 0 && c == 0 else g < |maps| && c <= |maps[g]|
    }

    /** The number of elements before the position. */
    ghost function Position(): nat
      reads this
      requires Valid()
    {
      if maps == [] then 0 else Offset(maps, g) + c
    }

    predicate AtEnd()
      reads this
      requires Valid()
    {
      maps == [] || (g == |maps| - 1 && c == |maps[g]|)
    }

    constructor ()
      ensures Valid() && maps == [] && WellCut(maps)
    {
      maps, g, c := [], 0, 0;
    }

    /** blk_map_overwrite_check: cut the tape at the position unless it is at the end. */
    method Cut()
      requires Valid()
      modifies `maps
      ensures old(Position()) <= |Flat(old(maps))| && Flat(maps) == Flat(old(maps))[..old(Position())]
      ensures old(WellCut(maps) && (AtEnd() || CleanCut(g, c))) ==> WellCut(maps)
    {
      if maps == [] {
        return;
      }
      if AtEnd() {
        EndIsAll(maps, g, c);
        return;
      }
      TruncateKeepsPrefix(maps, g, c);
      if WellCut(maps) && CleanCut(g, c) {
        TruncateKeepsCut(maps, g, c);
      }
      hide WellCut, Truncated;
      maps := Truncated(maps, g, c);
    }

    /** blk_entries_write_insert: one element after another. */
    method AppendAll(bs: seq<Block>)
      modifies `maps
      ensures Flat(maps) == Flat(old(maps)) + bs
      ensures old(WellCut(maps)) ==> WellCut(maps)
    {
      hide WellCut, Appended, Flat;
      var i := 0;
      while i < |bs|
        invariant 0 <= i <= |bs|
        invariant Flat(maps) == Flat(old(maps)) + bs[..i]
        invariant old(WellCut(maps)) ==> WellCut(maps)
      {
        AppendAddsElement(maps, bs[i]);
        if WellCut(maps) {
          AppendKeepsCut(maps, bs[i]);
        }
        assert Flat(old(maps)) + bs[..i] + [bs[i]] == Flat(old(maps)) + bs[..i + 1];
        maps := Appended(maps, bs[i]);
        i := i + 1;
      }
      assert bs[..i] == bs;
    }

    /** A write at the position: what was before it stays, what was behind it is gone. */
    method Write(bs: seq<Block>)
      requires Valid()
      modifies this
      ensures Valid() && AtEnd()
      ensures old(Position()) <= |Flat(old(maps))|
      ensures Flat(maps) == Flat(old(maps))[..old(Position())] + bs
      ensures old(WellCut(maps) && (AtEnd() || CleanCut(g, c))) ==> WellCut(maps)
    {
      hide WellCut, Flat;
      Cut();
      AppendAll(bs);
      g := if maps == [] then 0 else |maps| - 1;
      c := if maps == [] then 0 else |maps[g]|;
    }
  }

  lemma {:induction false} EndIsAll(ms: seq<Map>, g: nat, c: nat)
    requires ms != [] && g == |ms| - 1 && c == |ms[g]|
    ensures Offset(ms, g) + c == |Flat(ms)| && Flat(ms)[..Offset(ms, g) + c] == Flat(ms)
  {
  }
}
