/** The tape cut into maps, and SPACE backward as the index performs it: the current map is scanned,
    whole maps are skipped by the counts kept for them, and the map where that stops is scanned.

    The walk takes for the length of a map the length of the map before it, so for SPACE over blocks
    it is not always right; `BackwardIsExact` gives the exact condition. */
module TapeMaps {
  import opened TapeScan

  type Map = seq<Block>

  /** Elements before map `g`. */
  function Offset(ms: seq<Map>, g: nat): nat
    requires g <= |ms|
  {
    if g == 0 then 0 else Offset(ms, g - 1) + |ms[g - 1]|
  }

  function FlatTo(ms: seq<Map>, g: nat): (s: seq<Block>)
    requires g <= |ms|
    ensures |s| == Offset(ms, g)
  {
    if g == 0 then [] else FlatTo(ms, g - 1) + ms[g - 1]
  }

  /** The whole tape. */
  function Flat(ms: seq<Map>): (s: seq<Block>)
    ensures |s| == Offset(ms, |ms|)
  {
    FlatTo(ms, |ms|)
  }

  lemma {:induction false} OffsetMonotone(ms: seq<Map>, g: nat, h: nat)
    requires g <= h <= |ms|
    ensures Offset(ms, g) <= Offset(ms, h)
    decreases h
  {
    if g < h {
      OffsetMonotone(ms, g, h - 1);
    }
  }

  lemma {:induction false} MapIsStretch(ms: seq<Map>, g: nat, h: nat)
    requires g < h <= |ms|
    ensures Stretch(FlatTo(ms, h), Offset(ms, g), ms[g])
    decreases h
  {
    if g < h - 1 {
      MapIsStretch(ms, g, h - 1);
    }
  }

  // ----- SPACE backward by the index

  function FilemarksIn(m: Map): nat { Count(m, 0, |m|, Code.Filemarks) }

  function SetmarksIn(m: Map): nat { Count(m, 0, |m|, Code.Setmarks) }

  /** map_lookup_space_backward: the map where skipping stops, and the count left there. */
  function WalkBack(ms: seq<Map>, g: nat, code: Code, todo: nat): (r: (nat, nat))
    requires g < |ms| && todo > 0
    ensures r.0 <= g && 0 < r.1 <= todo
  {
    if g == 0 then (g, todo)
    else
      var length, f, s := |ms[g - 1]|, FilemarksIn(ms[g]), SetmarksIn(ms[g]);
      if !IndexRunsThrough(length, f, s, code, todo) then (g, todo)
      else WalkBack(ms, g - 1, code, todo - IndexCount(length, f, s, code))
  }

  /** A position: element c of map g; c = |ms[g]| is behind its last element. */
  datatype Place = Place(g: nat, c: nat, todo: nat, error: Error)

  function BackwardByIndex(ms: seq<Map>, g: nat, c: nat, code: Code, todo: nat): (r: Place)
    requires g < |ms| && c <= |ms[g]| && todo > 0
    ensures r.g <= g && r.c <= |ms[r.g]|
  {
    var here := ScanBackward(ms[g], c, code, todo);
    if here.error != NoError || here.todo == 0 then Place(g, here.pos, here.todo, here.error)
    else if g == 0 then Place(g, here.pos, here.todo, BomReached)
    else
      var (j, left) := WalkBack(ms, g - 1, code, here.todo);
      var there := ScanBackward(ms[j], |ms[j]|, code, left);
      Place(j, there.pos, there.todo, there.error)
  }

  /** Same position, same residual and same error as the scan of the flat tape; running off the beginning is
      reported only when the command began in the first map. */
  ghost predicate BackwardAgrees(ms: seq<Map>, g: nat, c: nat, code: Code, todo: nat)
    requires g < |ms| && c <= |ms[g]| && todo > 0
  {
    OffsetMonotone(ms, g + 1, |ms|);
    var p, l := BackwardByIndex(ms, g, c, code, todo), ScanBackward(Flat(ms), Offset(ms, g) + c, code, todo);
    && Offset(ms, p.g) + p.c == l.pos && p.todo == l.todo
    && p.error == if g == 0 && l.error == NoError && l.todo > 0 then BomReached else l.error
  }

  lemma {:induction false} StretchOfMap(ms: seq<Map>, g: nat)
    requires g < |ms|
    ensures Stretch(ms[g], 0, ms[g]) && Stretch(Flat(ms), Offset(ms, g), ms[g])
    ensures Offset(ms, g) + |ms[g]| == Offset(ms, g + 1) <= |Flat(ms)|
  {
    OffsetMonotone(ms, g + 1, |ms|);
    MapIsStretch(ms, g, |ms|);
  }

  lemma {:induction false} RunsBelowCount(m: Map, lo: nat, hi: nat, code: Code, todo: nat)
    requires lo <= hi <= |m|
    ensures RunsThrough(m, lo, hi, code, todo) ==> Count(m, lo, hi, code) < todo
  {
  }

  /** The scan of map g, seen on the flat tape. */
  lemma {:induction false} BackwardInMap(ms: seq<Map>, g: nat, c: nat, code: Code, todo: nat)
    requires g < |ms| && c <= |ms[g]| && todo > 0
    ensures Offset(ms, g) + c <= |Flat(ms)|
    ensures var here, flat := ScanBackward(ms[g], c, code, todo), ScanBackward(Flat(ms), Offset(ms, g) + c, code, todo);
            if RunsThrough(ms[g], 0, c, code, todo)
            then Count(ms[g], 0, c, code) < todo && here == Landing(0, todo - Count(ms[g], 0, c, code), NoError)
                 && flat == ScanBackward(Flat(ms), Offset(ms, g), code, todo - Count(ms[g], 0, c, code))
            else flat == Shift(here, Offset(ms, g)) && (here.error != NoError || here.todo == 0)
  {
    hide *;
    StretchOfMap(ms, g);
    RunsBelowCount(ms[g], 0, c, code, todo);
    if RunsThrough(ms[g], 0, c, code, todo) {
      BackwardThrough(Flat(ms), Offset(ms, g), ms[g], c, code, todo);
      BackwardThrough(ms[g], 0, ms[g], c, code, todo);
      ScanFromEnds(ms[g], code, todo - Count(ms[g], 0, c, code));
    } else {
      BackwardInside(Flat(ms), Offset(ms, g), ms[g], c, code, todo);
    }
  }

  /** The same for a forward scan. */
  lemma {:induction false} ForwardInMap(ms: seq<Map>, g: nat, c: nat, code: Code, todo: nat)
    requires g < |ms| && c <= |ms[g]| && todo > 0
    ensures Offset(ms, g) + c <= |Flat(ms)| && Offset(ms, g + 1) <= |Flat(ms)|
    ensures var here, flat := ScanForward(ms[g], c, code, todo), ScanForward(Flat(ms), Offset(ms, g) + c, code, todo);
            var n := Count(ms[g], c, |ms[g]|, code);
            if RunsThrough(ms[g], c, |ms[g]|, code, todo)
            then n < todo && here == Landing(|ms[g]|, todo - n, NoError)
                 && flat == ScanForward(Flat(ms), Offset(ms, g + 1), code, todo - n)
            else flat == Shift(here, Offset(ms, g)) && (here.error != NoError || here.todo == 0)
  {
    hide *;
    StretchOfMap(ms, g);
    RunsBelowCount(ms[g], c, |ms[g]|, code, todo);
    if RunsThrough(ms[g], c, |ms[g]|, code, todo) {
      ForwardThrough(Flat(ms), Offset(ms, g), ms[g], c, code, todo);
      ForwardThrough(ms[g], 0, ms[g], c, code, todo);
      ScanFromEnds(ms[g], code, todo - Count(ms[g], c, |ms[g]|, code));
    } else {
      ForwardInside(Flat(ms), Offset(ms, g), ms[g], c, code, todo);
    }
  }

  /** From the end of map g - 1 on, skipping maps comes to what the flat scan comes to. */
  ghost predicate WalkAgrees(ms: seq<Map>, g: nat, code: Code, todo: nat)
    requires 0 < g < |ms| && todo > 0
  {
    OffsetMonotone(ms, g, |ms|);
    var (j, left) := WalkBack(ms, g - 1, code, todo);
    var there, flat := ScanBackward(ms[j], |ms[j]|, code, left), ScanBackward(Flat(ms), Offset(ms, g), code, todo);
    Offset(ms, j) + there.pos == flat.pos && there.todo == flat.todo && there.error == flat.error
  }

  /** A command that ends in the map where it began agrees; one that goes on agrees as far as the walk does. */
  lemma {:induction false} AgreesIff(ms: seq<Map>, g: nat, c: nat, code: Code, todo: nat)
    requires g < |ms| && c <= |ms[g]| && todo > 0
    ensures RunsThrough(ms[g], 0, c, code, todo) ==> Count(ms[g], 0, c, code) < todo
    ensures BackwardAgrees(ms, g, c, code, todo)
            <==> (g > 0 && RunsThrough(ms[g], 0, c, code, todo) ==>
                    WalkAgrees(ms, g, code, todo - Count(ms[g], 0, c, code)))
  {
    RunsBelowCount(ms[g], 0, c, code, todo);
    hide *;
    if !RunsThrough(ms[g], 0, c, code, todo) {
      AgreesHere(ms, g, c, code, todo);
    } else if g == 0 {
      AgreesAtStart(ms, c, code, todo);
    } else {
      AgreesBeyond(ms, g, c, code, todo);
    }
  }

  lemma {:induction false} AgreesHere(ms: seq<Map>, g: nat, c: nat, code: Code, todo: nat)
    requires g < |ms| && c <= |ms[g]| && todo > 0 && !RunsThrough(ms[g], 0, c, code, todo)
    ensures BackwardAgrees(ms, g, c, code, todo)
  {
    BackwardInMap(ms, g, c, code, todo);
    hide ScanBackward, RunsThrough, Flat, WalkBack, Offset;
  }

  lemma {:induction false} AgreesAtStart(ms: seq<Map>, c: nat, code: Code, todo: nat)
    requires ms != [] && c <= |ms[0]| && todo > 0 && RunsThrough(ms[0], 0, c, code, todo)
    ensures BackwardAgrees(ms, 0, c, code, todo)
  {
    BackwardInMap(ms, 0, c, code, todo);
    assert Offset(ms, 0) == 0;
    hide ScanBackward, RunsThrough, Count, Flat, WalkBack, Offset;
    ScanFromEnds(Flat(ms), code, todo - Count(ms[0], 0, c, code));
  }

  lemma {:induction false} AgreesBeyond(ms: seq<Map>, g: nat, c: nat, code: Code, todo: nat)
    requires 0 < g < |ms| && c <= |ms[g]| && todo > 0 && RunsThrough(ms[g], 0, c, code, todo)
             && Count(ms[g], 0, c, code) < todo
    ensures BackwardAgrees(ms, g, c, code, todo) <==> WalkAgrees(ms, g, code, todo - Count(ms[g], 0, c, code))
  {
    BackwardInMap(ms, g, c, code, todo);
    hide ScanBackward, RunsThrough, Count, Flat, WalkBack, Offset;
  }

  // ----- Filemarks and setmarks: always exact

  /** Over marks, the walk skips a map exactly when the scan runs through it. */
  lemma {:induction false} SkipMarks(ms: seq<Map>, g: nat, code: Code, todo: nat)
    requires 0 < g < |ms| && todo > 0 && code != Blocks
    ensures RunsThrough(ms[g], 0, |ms[g]|, code, todo) ==> Count(ms[g], 0, |ms[g]|, code) < todo
    ensures WalkBack(ms, g, code, todo)
         == if RunsThrough(ms[g], 0, |ms[g]|, code, todo)
            then WalkBack(ms, g - 1, code, todo - Count(ms[g], 0, |ms[g]|, code)) else (g, todo)
  {
    IndexTellsRun(ms[g], code, todo);
    RunsBelowCount(ms[g], 0, |ms[g]|, code, todo);
    hide RunsThrough, Count;
  }

  /** The scan of the flat tape from the end of map g. */
  ghost function ScanFromMap(ms: seq<Map>, g: nat, code: Code, todo: nat): Landing
    requires g < |ms| && todo > 0
  {
    OffsetMonotone(ms, g + 1, |ms|);
    ScanBackward(Flat(ms), Offset(ms, g + 1), code, todo)
  }

  /** It goes on from the map before, or ends in map g. */
  lemma {:induction false} ScanThroughMap(ms: seq<Map>, g: nat, code: Code, todo: nat)
    requires g < |ms| && todo > 0
    ensures var m, here := ms[g], ScanBackward(ms[g], |ms[g]|, code, todo);
            if RunsThrough(m, 0, |m|, code, todo)
            then Count(m, 0, |m|, code) < todo && here == Landing(0, todo - Count(m, 0, |m|, code), NoError)
                 && ScanFromMap(ms, g, code, todo) == if g > 0 then ScanFromMap(ms, g - 1, code, here.todo) else here
            else ScanFromMap(ms, g, code, todo) == Shift(here, Offset(ms, g))
  {
    StretchOfMap(ms, g);
    assert Offset(ms, 0) == 0;
    hide ScanBackward, RunsThrough, Count, Flat, Offset;
    BackwardInMap(ms, g, |ms[g]|, code, todo);
    if RunsThrough(ms[g], 0, |ms[g]|, code, todo) {
      ScanFromEnds(Flat(ms), code, todo - Count(ms[g], 0, |ms[g]|, code));
    }
  }

  lemma {:induction false} WalkBackMarks(ms: seq<Map>, g: nat, code: Code, todo: nat)
    requires g < |ms| && todo > 0 && code != Blocks
    ensures var r := WalkBack(ms, g, code, todo);
            && ScanFromMap(ms, g, code, todo) == ScanFromMap(ms, r.0, code, r.1)
            && (r.0 > 0 ==> !RunsThrough(ms[r.0], 0, |ms[r.0]|, code, r.1))
    decreases g
  {
    if g > 0 {
      SkipMarks(ms, g, code, todo);
      hide *;
      if RunsThrough(ms[g], 0, |ms[g]|, code, todo) {
        ScanThroughMap(ms, g, code, todo);
        WalkBackMarks(ms, g - 1, code, todo - Count(ms[g], 0, |ms[g]|, code));
      }
    }
  }

  lemma {:induction false} MarksWalk(ms: seq<Map>, g: nat, code: Code, todo: nat)
    requires 0 < g < |ms| && todo > 0 && code != Blocks
    ensures WalkAgrees(ms, g, code, todo)
  {
    WalkIsScan(ms, g, code, todo);
    assert Offset(ms, 0) == 0;
    hide *;
    WalkBackMarks(ms, g - 1, code, todo);
    var r := WalkBack(ms, g - 1, code, todo);
    ScanThroughMap(ms, r.0, code, r.1);
    ShiftBy(ScanBackward(ms[r.0], |ms[r.0]|, code, r.1), Offset(ms, r.0));
  }

  lemma {:induction false} ShiftBy(l: Landing, n: nat)
    ensures Shift(l, n).pos == n + l.pos && Shift(l, n).todo == l.todo && Shift(l, n).error == l.error
  {
  }

  lemma {:induction false} WalkIsScan(ms: seq<Map>, g: nat, code: Code, todo: nat)
    requires 0 < g < |ms| && todo > 0
    ensures var r := WalkBack(ms, g - 1, code, todo);
            var there, flat := ScanBackward(ms[r.0], |ms[r.0]|, code, r.1), ScanFromMap(ms, g - 1, code, todo);
            WalkAgrees(ms, g, code, todo)
            <==> Offset(ms, r.0) + there.pos == flat.pos && there.todo == flat.todo && there.error == flat.error
  {
    hide ScanBackward, Flat, WalkBack, Offset;
  }

  lemma {:induction false} BackwardMarksAgree(ms: seq<Map>, g: nat, c: nat, code: Code, todo: nat)
    requires g < |ms| && c <= |ms[g]| && todo > 0 && code != Blocks
    ensures BackwardAgrees(ms, g, c, code, todo)
  {
    hide BackwardAgrees, RunsThrough, Count, WalkAgrees;
    AgreesIff(ms, g, c, code, todo);
    if g > 0 && RunsThrough(ms[g], 0, c, code, todo) {
      MarksWalk(ms, g, code, todo - Count(ms[g], 0, c, code));
    }
  }

  // ----- Blocks: exact if and only if the lengths used were right

  predicate MarkFree(m: Map) {
    FilemarksIn(m) == 0 && SetmarksIn(m) == 0
  }

  /** Only the last map can be empty. */
  predicate NonEmpty(ms: seq<Map>) {
    forall i :: 0 <= i < |ms| - 1 ==> ms[i] != []
  }

  /** The condition, in terms of the lengths and mark counts of the maps alone: the map where skipping
      stops is as long as the first one skipped, and either has marks, or is the first map of the
      tape, or holds what is left of the count. */
  predicate BackwardIsExact(ms: seq<Map>, g: nat, c: nat, todo: nat)
    requires g < |ms| && c <= |ms[g]|
  {
    g == 0 || c >= todo || Count(ms[g], 0, c, Blocks) < c || (
      var (j, left) := WalkBack(ms, g - 1, Blocks, todo - c);
      |ms[j]| == |ms[g - 1]| && (!MarkFree(ms[j]) || j == 0 || |ms[j]| >= left))
  }

  lemma {:induction false} WalkBackBlocks(ms: seq<Map>, g: nat, todo: nat)
    requires g < |ms| && todo > 0
    ensures var (j, left) := WalkBack(ms, g, Blocks, todo);
            && left == todo - (Offset(ms, g) - Offset(ms, j))
            && forall i :: j < i <= g ==> MarkFree(ms[i])
    decreases g
  {
    if g > 0 && IndexRunsThrough(|ms[g - 1]|, FilemarksIn(ms[g]), SetmarksIn(ms[g]), Blocks, todo) {
      WalkBackBlocks(ms, g - 1, todo - |ms[g - 1]|);
    }
  }

  /** A scan over blocks runs through a map without marks that is shorter than the count. */
  lemma {:induction false} MarkFreeMap(ms: seq<Map>, g: nat, todo: nat)
    requires g < |ms| && MarkFree(ms[g]) && |ms[g]| < todo
    ensures Offset(ms, g + 1) <= |Flat(ms)|
    ensures ScanBackward(ms[g], |ms[g]|, Blocks, todo) == Landing(0, todo - |ms[g]|, NoError)
    ensures ScanBackward(Flat(ms), Offset(ms, g + 1), Blocks, todo)
              == ScanBackward(Flat(ms), Offset(ms, g), Blocks, todo - |ms[g]|)
  {
    hide ScanBackward;
    hide Flat;
    IndexTellsRun(ms[g], Blocks, todo);
    BackwardInMap(ms, g, |ms[g]|, Blocks, todo);
  }

  lemma {:induction false} SkipMarkFree(ms: seq<Map>, j: nat, g: nat, todo: nat)
    requires j <= g < |ms| && forall i :: j < i <= g ==> MarkFree(ms[i])
    requires Offset(ms, g + 1) - Offset(ms, j + 1) < todo
    ensures Offset(ms, j + 1) <= Offset(ms, g + 1) <= |Flat(ms)|
    ensures ScanBackward(Flat(ms), Offset(ms, g + 1), Blocks, todo)
         == ScanBackward(Flat(ms), Offset(ms, j + 1), Blocks, todo - (Offset(ms, g + 1) - Offset(ms, j + 1)))
    decreases g
  {
    hide ScanBackward;
    hide Flat;
    hide MarkFree;
    OffsetMonotone(ms, g + 1, |ms|);
    OffsetMonotone(ms, j + 1, g + 1);
    if j < g {
      OffsetMonotone(ms, j + 1, g);
      MarkFreeMap(ms, g, todo);
      SkipMarkFree(ms, j, g - 1, todo - |ms[g]|);
    }
  }

  /** On a scan over blocks, position and residual determine each other. */
  lemma {:induction false} BlocksResidual(s: seq<Block>, pos: nat, todo: nat)
    requires pos <= |s| && todo > 0
    ensures var l := ScanBackward(s, pos, Blocks, todo);
            && (pos > 0 ==> l.pos < pos && l.error == Barrier(s[l.pos], Blocks))
            && l.todo == todo - (pos - l.pos) + (if l.error == NoError then 0 else 1)
    decreases pos
  {
    if pos > 1 && s[pos - 1] == Data && todo > 1 {
      BlocksResidual(s, pos - 1, todo - 1);
    }
  }

  /** The two ways of counting what is left at the map where skipping stops. */
  lemma {:induction false} SameCount(ms: seq<Map>, j: nat, g: nat, todo: nat)
    requires j < g <= |ms|
    ensures Offset(ms, g) - Offset(ms, j + 1) == Offset(ms, g - 1) - Offset(ms, j) + |ms[g - 1]| - |ms[j]|
  {
  }

  /** From the end of map g - 1 on. */
  lemma {:induction false} WalkIsExact(ms: seq<Map>, g: nat, todo: nat)
    requires 0 < g < |ms| && todo > 0 && NonEmpty(ms)
    ensures var (j, left) := WalkBack(ms, g - 1, Blocks, todo);
            WalkAgrees(ms, g, Blocks, todo)
            <==> (|ms[j]| == |ms[g - 1]| && (!MarkFree(ms[j]) || j == 0 || |ms[j]| >= left))
  {
    hide ScanBackward;
    hide Flat;
    hide MarkFree;
    hide WalkBack;
    var (j, left) := WalkBack(ms, g - 1, Blocks, todo);
    WalkBackBlocks(ms, g - 1, todo);
    SameCount(ms, j, g, todo);
    OffsetMonotone(ms, g, |ms|);
    if |ms[j]| == |ms[g - 1]| {
      SkipMarkFree(ms, j, g - 1, todo);
      StopIsExact(ms, j, left);
    } else {
      WrongLength(ms, j, g, todo, left);
    }
  }

  /** With the right count at the end of map j, scanning map j alone is enough exactly when the scan
      does not have to go on before it. */
  lemma {:induction false} StopIsExact(ms: seq<Map>, j: nat, left: nat)
    requires j < |ms| && left > 0 && NonEmpty(ms)
    ensures Offset(ms, j + 1) <= |Flat(ms)|
    ensures var there, flat := ScanBackward(ms[j], |ms[j]|, Blocks, left),
            ScanBackward(Flat(ms), Offset(ms, j + 1), Blocks, left);
            (Offset(ms, j) + there.pos == flat.pos && there.todo == flat.todo && there.error == flat.error)
            <==> (!MarkFree(ms[j]) || j == 0 || |ms[j]| >= left)
  {
    IndexTellsRun(ms[j], Blocks, left);
    BackwardInMap(ms, j, |ms[j]|, Blocks, left);
    hide ScanBackward, RunsThrough, Flat;
    if MarkFree(ms[j]) && |ms[j]| < left {
      BlocksResidual(Flat(ms), Offset(ms, j), left - |ms[j]|);
      if j > 0 {
        assert ms[j - 1] != [];
      }
    }
  }

  /** With a wrong count, position and residual cannot both come out right. */
  lemma {:induction false} WrongLength(ms: seq<Map>, j: nat, g: nat, todo: nat, left: nat)
    requires j < g < |ms| && todo > 0 && left > 0 && NonEmpty(ms)
    requires left != todo - (Offset(ms, g) - Offset(ms, j + 1))
    ensures Offset(ms, g) <= |Flat(ms)|
    ensures var there, flat := ScanBackward(ms[j], |ms[j]|, Blocks, left),
            ScanBackward(Flat(ms), Offset(ms, g), Blocks, todo);
            !(Offset(ms, j) + there.pos == flat.pos && there.todo == flat.todo)
  {
    hide ScanBackward;
    OffsetMonotone(ms, g, |ms|);
    OffsetMonotone(ms, 1, g);
    MapIsStretch(ms, j, |ms|);
    BlocksResidual(ms[j], |ms[j]|, left);
    BlocksResidual(Flat(ms), Offset(ms, g), todo);
    assert ms[0] != [] && ms[j] != [];
  }

  /** SPACE backward over blocks agrees with the flat tape if and only if `BackwardIsExact`. */
  lemma {:induction false} BackwardBlocksExactly(ms: seq<Map>, g: nat, c: nat, todo: nat)
    requires g < |ms| && c <= |ms[g]| && todo > 0 && NonEmpty(ms)
    ensures BackwardAgrees(ms, g, c, Blocks, todo) <==> BackwardIsExact(ms, g, c, todo)
  {
    hide BackwardAgrees, WalkAgrees, WalkBack;
    AgreesIff(ms, g, c, Blocks, todo);
    AllBlocks(ms[g], c, todo);
    if RunsThrough(ms[g], 0, c, Blocks, todo) && g > 0 {
      WalkIsExact(ms, g, todo - c);
    }
  }

  /** A scan over blocks runs through as many elements as it counts, all of them blocks. */
  lemma {:induction false} AllBlocks(m: Map, c: nat, todo: nat)
    requires c <= |m|
    ensures RunsThrough(m, 0, c, Blocks, todo) <==> c < todo && Count(m, 0, c, Blocks) >= c
    ensures Count(m, 0, c, Blocks) <= c
    decreases c
  {
    if c > 0 && todo > 0 {
      RunsLast(m, c, Blocks, todo);
      AllBlocks(m, c - 1, todo - Counted(m[c - 1], Blocks));
    } else if c > 0 {
      AllBlocks(m, c - 1, 0);
    }
  }

  // ----- Blocks, for a whole tape

  /** Every interior map without marks is as long as the one before it. */
  ghost predicate EvenlyCut(ms: seq<Map>) {
    forall i :: 0 < i < |ms| - 1 && MarkFree(ms[i]) ==> |ms[i]| == |ms[i - 1]|
  }

  lemma {:induction false} EvenWalk(ms: seq<Map>, g: nat, todo: nat)
    requires g < |ms| - 1 && todo > 0 && EvenlyCut(ms)
    ensures var (j, left) := WalkBack(ms, g, Blocks, todo);
            |ms[j]| == |ms[g]| && (!MarkFree(ms[j]) || j == 0 || |ms[j]| >= left)
    decreases g
  {
    if g > 0 && IndexRunsThrough(|ms[g - 1]|, FilemarksIn(ms[g]), SetmarksIn(ms[g]), Blocks, todo) {
      EvenWalk(ms, g - 1, todo - |ms[g - 1]|);
    }
  }

  lemma {:induction false} EvenIsExact(ms: seq<Map>, g: nat, c: nat, todo: nat)
    requires EvenlyCut(ms) && g < |ms| && c <= |ms[g]|
    ensures BackwardIsExact(ms, g, c, todo)
  {
    if g > 0 && c < todo {
      EvenWalk(ms, g - 1, todo - c);
    }
  }

  /** An interior map without marks that is not as long as the one before it makes some command go wrong. */
  lemma {:induction false} UnevenDisagrees(ms: seq<Map>, i: nat)
    requires NonEmpty(ms) && 0 < i < |ms| - 1 && MarkFree(ms[i]) && |ms[i]| != |ms[i - 1]|
    ensures !BackwardAgrees(ms, i + 1, 0, Blocks, |ms[i - 1]| + 1)
  {
    hide BackwardAgrees;
    var todo := |ms[i - 1]| + 1;
    BackwardBlocksExactly(ms, i + 1, 0, todo);
    assert WalkBack(ms, i - 1, Blocks, 1) == (i - 1, 1) by {
      assert i - 1 > 0 ==> ms[i - 2] != [];
    }
    assert WalkBack(ms, i, Blocks, todo) == (i - 1, 1);
  }

  /** SPACE backward over blocks agrees with the flat tape for every position and count if and only if every
      interior map without marks is as long as the one before it. */
  lemma {:induction false} BackwardBlocksOnTape(ms: seq<Map>)
    requires NonEmpty(ms)
    ensures (forall g: nat, c: nat, todo: nat :: g < |ms| && c <= |ms[g]| && todo > 0 ==>
                                                   BackwardAgrees(ms, g, c, Blocks, todo))
       <==> EvenlyCut(ms)
  {
    hide BackwardAgrees;
    if EvenlyCut(ms) {
      forall g: nat, c: nat, todo: nat | g < |ms| && c <= |ms[g]| && todo > 0
        ensures BackwardAgrees(ms, g, c, Blocks, todo)
      {
        EvenIsExact(ms, g, c, todo);
        BackwardBlocksExactly(ms, g, c, todo);
      }
    } else {
      var i :| 0 < i < |ms| - 1 && MarkFree(ms[i]) && |ms[i]| != |ms[i - 1]|;
      UnevenDisagrees(ms, i);
    }
  }

  /** When SPACE backward by the index agrees with the flat tape: for marks always, for blocks on an evenly
      cut tape. */
  lemma {:induction false} BackwardOnTape(ms: seq<Map>, g: nat, c: nat, code: Code, todo: nat)
    requires g < |ms| && c <= |ms[g]| && todo > 0
    ensures code != Blocks || (NonEmpty(ms) && EvenlyCut(ms)) ==> BackwardAgrees(ms, g, c, code, todo)
  {
    hide BackwardAgrees;
    if code != Blocks {
      BackwardMarksAgree(ms, g, c, code, todo);
    } else if NonEmpty(ms) && EvenlyCut(ms) {
      EvenIsExact(ms, g, c, todo);
      BackwardBlocksExactly(ms, g, c, todo);
    }
  }
}
