/** What a wrong filemark total does: lookups that are entered with too many filemarks before them, and LOCATE by
    file on them. */
module TapeMiscount {
  import opened TapeScan
  import opened TapeMaps
  import opened TapeWriter
  import opened TapeIndex
  import opened TapeLayout
  import opened TapeIndexWriter

  // ----- LOCATE by file on lookups that count k filemarks too many

  function Moved(look: Lookup, k: nat): Lookup {
    look.(fileStart := look.fileStart + k)
  }

  /** The lookups from b on count k filemarks too many before them. */
  function Shifted(chain: seq<Lookup>, b: nat, k: nat): (r: seq<Lookup>)
    ensures |r| == |chain|
  {
    seq(|chain|, i requires 0 <= i < |chain| => if i < b then chain[i] else Moved(chain[i], k))
  }

  lemma {:induction false} SameMaps(chain: seq<Lookup>, b: nat, k: nat, l: nat)
    requires l <= |chain|
    ensures MapsTo(Shifted(chain, b, k), l) == MapsTo(chain, l)
  {
    if l > 0 {
      SameMaps(chain, b, k, l - 1);
    }
  }

  lemma {:induction false} ShiftedIsShaped(chain: seq<Lookup>, b: nat, k: nat)
    requires Shaped(chain)
    ensures Shaped(Shifted(chain, b, k)) && Maps(Shifted(chain, b, k)) == Maps(chain)
  {
    SameMaps(chain, b, k, |chain|);
  }

  lemma {:induction false} FilesMonotone(ms: seq<Map>, g: nat, h: nat)
    requires g <= h <= |ms|
    ensures FilemarksBefore(ms, g) <= FilemarksBefore(ms, h)
    decreases h
  {
    if g < h {
      FilesMonotone(ms, g, h - 1);
    }
  }

  /** Later lookups begin at later maps. */
  lemma {:induction false} GlobalMonotone(chain: seq<Lookup>, l: nat, m: nat)
    requires l <= m <= |chain|
    ensures Global(chain, l, 0) <= Global(chain, m, 0) <= |Maps(chain)|
    decreases |chain| - l
  {
    if l < m {
      GlobalMonotone(chain, l + 1, m);
    } else if l < |chain| {
      GlobalMonotone(chain, l + 1, |chain|);
    }
  }

  lemma {:induction false} StartsMonotone(chain: seq<Lookup>, l: nat, m: nat)
    requires WellFormed(chain) && l <= m < |chain|
    ensures chain[l].fileStart <= chain[m].fileStart
  {
    hide EntryRight, FilemarksBefore;
    assert LookupRight(chain, l) && LookupRight(chain, m);
    GlobalMonotone(chain, l, m);
    FilesMonotone(Maps(chain), Global(chain, l, 0), Global(chain, m, 0));
  }

  /** Below the first wrong lookup nothing changes. */
  lemma {:induction false} LookupBelow(chain: seq<Lookup>, b: nat, k: nat, l: nat, addr: nat)
    requires l < b < |chain| && addr < chain[b].fileStart
    ensures LookupFor(Shifted(chain, b, k), l, addr) == LookupFor(chain, l, addr) < b
    decreases b - l
  {
    var sh := Shifted(chain, b, k);
    assert l + 1 < b ==> sh[l + 1] == chain[l + 1];
    if l + 1 < b && chain[l + 1].fileStart <= addr {
      LookupBelow(chain, b, k, l + 1, addr);
    }
  }

  /** The filemarks that the first wrong lookup should begin with are looked for before it. */
  lemma {:induction false} LookupBetween(chain: seq<Lookup>, b: nat, k: nat, l: nat, addr: nat)
    requires WellFormed(chain) && l < b < |chain| && chain[b].fileStart <= addr < chain[b].fileStart + k
    ensures LookupFor(Shifted(chain, b, k), l, addr) == b - 1
    decreases b - l
  {
    hide WellFormed;
    var sh := Shifted(chain, b, k);
    assert l + 1 < b ==> sh[l + 1] == chain[l + 1];
    StartsMonotone(chain, l + 1, b);
    if l + 1 < b {
      LookupBetween(chain, b, k, l + 1, addr);
    }
  }

  /** From there on, k filemarks off. */
  lemma {:induction false} LookupAbove(chain: seq<Lookup>, b: nat, k: nat, l: nat, addr: nat)
    requires WellFormed(chain) && l < |chain| && 0 < b < |chain| && chain[b].fileStart + k <= addr
    ensures LookupFor(Shifted(chain, b, k), l, addr) == LookupFor(chain, l, addr - k) >= Min(b, |chain| - 1)
    decreases |chain| - l
  {
    hide WellFormed;
    var sh := Shifted(chain, b, k);
    if l + 1 < |chain| {
      if l + 1 <= b {
        StartsMonotone(chain, l + 1, b);
      }
      if chain[l + 1].fileStart <= addr - k {
        LookupAbove(chain, b, k, l + 1, addr);
      }
    }
  }

  lemma {:induction false} MovedFiles(look: Lookup, k: nat, e: nat)
    requires e <= |look.entries|
    ensures FilesTo(Moved(look, k), e) == FilesTo(look, e) + k
  {
    if e > 0 {
      MovedFiles(look, k, e - 1);
    }
  }

  lemma {:induction false} MovedEntry(look: Lookup, k: nat, e: nat, addr: nat)
    requires e < |look.entries| && k <= addr
    ensures EntryFor(Moved(look, k), e, addr) == EntryFor(look, e, addr - k)
    decreases |look.entries| - e
  {
    hide FilesTo;
    if e + 1 < |look.entries| {
      MovedFiles(look, k, e + 1);
      if FilesTo(look, e + 1) <= addr - k {
        MovedEntry(look, k, e + 1, addr);
      }
    }
  }

  lemma {:induction false} MovedMark(m: Map, c: nat, before: nat, k: nat, addr: nat)
    requires c <= |m| && k <= addr
    ensures MarkFor(m, c, before + k, addr) == MarkFor(m, c, before, addr - k)
    decreases |m| - c
  {
    if c < |m| {
      MovedMark(m, c + 1, before, k, addr);
      MovedMark(m, c + 1, before + 1, k, addr);
    }
  }

  lemma {:induction false} SpotBelow(chain: seq<Lookup>, b: nat, k: nat, addr: nat)
    requires Shaped(chain) && 0 < b < |chain| && addr < chain[b].fileStart && Shaped(Shifted(chain, b, k))
    ensures FileSpot(Shifted(chain, b, k), addr) == FileSpot(chain, addr)
  {
    hide LookupFor, EntryFor, MarkFor, FilesTo;
    LookupBelow(chain, b, k, 0, addr);
  }

  lemma {:induction false} SpotBetween(chain: seq<Lookup>, b: nat, k: nat, addr: nat)
    requires WellFormed(chain) && Shaped(chain) && 0 < b < |chain| && Shaped(Shifted(chain, b, k))
    requires chain[b].fileStart <= addr < chain[b].fileStart + k
    ensures var p := FileSpot(Shifted(chain, b, k), addr);
            && p.error == EodReached && Global(chain, p.l, p.e) + 1 == Global(chain, b, 0) <= |Maps(chain)|
            && Maps(chain)[Global(chain, p.l, p.e)] == chain[p.l].maps[p.e] && p.c == |chain[p.l].maps[p.e]|
  {
    hide LookupFor, EntryFor, MarkFor;
    LookupBetween(chain, b, k, 0, addr);
    var look := chain[b - 1];
    assert LookupRight(chain, b - 1) && LookupRight(chain, b);
    GlobalStep(chain, b - 1);
    var n := |look.entries|;
    FilesToRight(chain, b - 1, n);
    LastEntry(look, 0, addr);
    MarkForIs(look.maps[n - 1], 0, FilesTo(look, n - 1), addr);
    assert EntryRight(chain, b - 1, n - 1);
    hide WellFormed, LookupRight, Maps, MapsTo, Offset, LidStart, EntrySetmarks;
  }

  lemma {:induction false} LastEntry(look: Lookup, e: nat, addr: nat)
    requires e < |look.entries| && FilesTo(look, |look.entries|) <= addr
    ensures EntryFor(look, e, addr) == |look.entries| - 1
    decreases |look.entries| - e
  {
    hide FilesTo;
    if e + 1 < |look.entries| {
      FilesGrow(look, e + 1, |look.entries|);
      LastEntry(look, e + 1, addr);
    }
  }

  lemma {:induction false} FilesGrow(look: Lookup, e: nat, f: nat)
    requires e <= f <= |look.entries|
    ensures FilesTo(look, e) <= FilesTo(look, f)
    decreases f
  {
    if e < f {
      FilesGrow(look, e, f - 1);
    }
  }

  lemma {:induction false} SpotAbove(chain: seq<Lookup>, b: nat, k: nat, addr: nat)
    requires WellFormed(chain) && Shaped(chain) && 0 < b < |chain| && Shaped(Shifted(chain, b, k))
             && chain[b].fileStart + k <= addr
    ensures FileSpot(Shifted(chain, b, k), addr) == FileSpot(chain, addr - k)
  {
    hide LookupFor, EntryFor, MarkFor, FilesTo, WellFormed;
    LookupAbove(chain, b, k, 0, addr);
    var l := LookupFor(chain, 0, addr - k);
    MovedEntry(chain[l], k, 0, addr);
    var e := EntryFor(chain[l], 0, addr - k);
    MovedFiles(chain[l], k, e);
    MovedMark(chain[l].maps[e], 0, FilesTo(chain[l], e), k, addr);
  }

  ghost function FilesOnTape(ms: seq<Map>): nat {
    Count(Flat(ms), 0, |Flat(ms)|, Code.Filemarks)
  }

  /** What LOCATE by file does on such an index, for every address: it is right about the filemarks before the
      first wrong lookup and about addresses too large even for the wrong counts, and about no others.  The first k
      filemarks of that lookup are reported missing; for the others it ends k filemarks too early. */
  lemma {:induction false} LocateShifted(chain: seq<Lookup>, b: nat, k: nat, addr: nat)
    requires WellFormed(chain) && Shaped(chain) && 0 < b < |chain| && k > 0
    requires Offset(Maps(chain), Min(Global(chain, b, 0), |Maps(chain)|)) < |Flat(Maps(chain))|
    ensures Shaped(Shifted(chain, b, k))
    ensures FileSpotRight(Shifted(chain, b, k), addr)
            <==> addr < chain[b].fileStart || addr >= FilesOnTape(Maps(chain)) + k
    ensures chain[b].fileStart <= addr < chain[b].fileStart + k ==>
              FileSpot(Shifted(chain, b, k), addr).error == EodReached
    ensures chain[b].fileStart + k <= addr ==> FileSpot(Shifted(chain, b, k), addr) == FileSpot(chain, addr - k)
  {
    hide WellFormed, Shifted, FileSpot, Maps, MapsTo, Flat, Count, AtFile;
    ShiftedIsShaped(chain, b, k);
    StartOnTape(chain, b);
    var p := FileSpot(Shifted(chain, b, k), addr);
    SameMaps(chain, b, k, p.l);
    var ms, g := Maps(chain), Global(chain, p.l, p.e);
    if addr < chain[b].fileStart {
      SpotBelow(chain, b, k, addr);
      RightIndexLocates(chain, addr);
    } else if addr < chain[b].fileStart + k {
      SpotBetween(chain, b, k, addr);
      EndOfMap(ms, g, p.c, addr);
    } else {
      SpotAbove(chain, b, k, addr);
      RightIndexLocates(chain, addr - k);
      TooEarly(ms, g, p.c, p.error, addr, k);
    }
  }

  /** The end of a map with something behind it is not the end of the tape. */
  lemma {:induction false} EndOfMap(ms: seq<Map>, g: nat, c: nat, addr: nat)
    requires g < |ms| && c == |ms[g]| && Offset(ms, Min(g + 1, |ms|)) < |Flat(ms)|
    ensures !AtFile(ms, g, c, EodReached, addr)
  {
    hide Flat, Count;
    StretchOfMap(ms, g);
  }

  /** No filemark has two numbers. */
  lemma {:induction false} TooEarly(ms: seq<Map>, g: nat, c: nat, error: Error, addr: nat, k: nat)
    requires 0 < k <= addr && AtFile(ms, g, c, error, addr - k)
    ensures AtFile(ms, g, c, error, addr) <==> addr >= FilesOnTape(ms) + k
  {
    hide Flat, Count;
  }

  lemma {:induction false} LookupStart(chain: seq<Lookup>, b: nat)
    requires WellFormed(chain) && b < |chain|
    ensures Global(chain, b, 0) < |Maps(chain)|
            && chain[b].fileStart == FilemarksBefore(Maps(chain), Global(chain, b, 0))
  {
    hide EntryRight, FilemarksBefore, Maps, MapsTo;
    assert LookupRight(chain, b);
  }

  lemma {:induction false} FilesCounted(ms: seq<Map>)
    requires ms != []
    ensures FilesOnTape(ms) == FilemarksBefore(ms, |ms|)
  {
    hide Flat, Count;
    FilemarksOfFlat(ms, |ms| - 1, |ms[|ms| - 1]|);
    StretchOfMap(ms, |ms| - 1);
  }

  lemma {:induction false} StartOnTape(chain: seq<Lookup>, b: nat)
    requires WellFormed(chain) && b < |chain|
    ensures chain[b].fileStart <= FilesOnTape(Maps(chain)) && Global(chain, b, 0) < |Maps(chain)|
  {
    hide *;
    LookupStart(chain, b);
    FilesCounted(Maps(chain));
    FilesMonotone(Maps(chain), Global(chain, b, 0), |Maps(chain)|);
  }

  // ----- A careless overwrite

  /** SPACE over filemarks, where there is nothing else. */
  lemma {:induction false} MarksSpaced(m: Map, pos: nat, todo: nat)
    requires todo > 0 && pos + todo <= |m| && forall k :: 0 <= k < |m| ==> m[k] == Filemark
    ensures ScanForward(m, pos, Filemarks, todo) == Landing(pos + todo, 0, NoError)
    decreases todo
  {
    if todo > 1 {
      MarksSpaced(m, pos + 1, todo - 1);
    }
  }

  lemma {:induction false} SixteenMarkMaps(ms: seq<Map>) returns (ops: seq<Op>)
    requires ms == [Fill(Filemark, 15), [Filemark]]
    ensures Reaches([], ops, ms) && ScanForward(ms[0], 0, Filemarks, 15) == Landing(15, 0, NoError)
    ensures Indexable(ms) && |ms[0]| == 15 && FilemarksBefore(ms, 1) == 15 && FilemarksBefore(ms, 2) == 16
  {
    ops := SixteenMarks();
    RunKeepsBounds([], ops, ms);
    FillCounts(Filemark, 15);
    MarksSpaced(ms[0], 0, 15);
    OneMore([], Filemark);
    assert [] + [Filemark] == [Filemark] && FilemarksIn([]) == 0;
    hide Fill, Bounded, FilemarksIn, Reaches;
    MarksBefore(ms);
  }

  /** A careless overwrite: sixteen filemarks fill a map and begin a second; SPACE over fifteen ends behind the
      first map; a write there drops the second, and its filemark is still counted. */
  lemma {:induction false} CountedTwice(ms: seq<Map>) returns (ops: seq<Op>)
    requires ms == [Fill(Filemark, 15), [Filemark]]
    ensures Reaches([], ops, ms) && ScanForward(ms[0], 0, Filemarks, 15) == Landing(15, 0, NoError)
    ensures Indexable(ms) && TotalRight(LayoutFrom(ms, 0), 16)
    ensures Indexable(Truncated(ms, 0, 15)) && CutPossible(LayoutFrom(ms, 0), 0, 0, 15)
    ensures !TotalRight(LayoutFrom(Truncated(ms, 0, 15), 0), Cut(Index(LayoutFrom(ms, 0), 16), 0, 0, 15).total)
  {
    hide *;
    ops := SixteenMarkMaps(ms);
    SixteenCounted(ms);
    FifteenLeft(ms);
  }

  lemma {:induction false} SixteenCounted(ms: seq<Map>)
    requires Indexable(ms) && |ms| == 2 && FilemarksBefore(ms, 2) == 16
    ensures TotalRight(LayoutFrom(ms, 0), 16)
  {
    hide LayoutFrom, Files, FilemarksIn, FilemarksBefore, NextLid, Bounded, LookupOf;
    LastFiles(ms);
    NoMarksBefore(ms);
  }

  lemma {:induction false} FifteenLeft(ms: seq<Map>)
    requires Indexable(ms) && |ms| == 2 && |ms[0]| == 15 && FilemarksBefore(ms, 1) == 15 && FilemarksBefore(ms, 2) == 16
    ensures Indexable(Truncated(ms, 0, 15)) && CutPossible(LayoutFrom(ms, 0), 0, 0, 15)
    ensures !TotalRight(LayoutFrom(Truncated(ms, 0, 15), 0), Cut(Index(LayoutFrom(ms, 0), 16), 0, 0, 15).total)
  {
    hide LayoutFrom, Truncated, Bounded, Files, CutIndex, Cut, FilemarksIn, FilemarksBefore, CutPossible, TotalRight;
    TruncateKeepsBounds(ms, 0, 15);
    NotLonger(ms, 0, 15);
    CutTotal(ms, 16, 0, 0, 15);
  }

  lemma {:induction false} NoMarksBefore(ms: seq<Map>)
    ensures FilemarksBefore(ms, 0) == 0
  {
  }

  lemma {:induction false} MarksBefore(ms: seq<Map>)
    requires |ms| == 2
    ensures FilemarksBefore(ms, 1) == FilemarksIn(ms[0])
            && FilemarksBefore(ms, 2) == FilemarksIn(ms[0]) + FilemarksIn(ms[1])
    ensures Offset(ms, 2) == |ms[0]| + |ms[1]|
  {
    assert FilemarksBefore(ms, 0) == 0 && Offset(ms, 0) == 0;
    assert FilemarksBefore(ms, 1) == FilemarksBefore(ms, 0) + FilemarksIn(ms[0]) && Offset(ms, 1) == |ms[0]|;
  }

  // ----- What follows a careless overwrite

  /** The index with k filemarks too many: in the total, while lookup b - 1 is the last, and then in every lookup
      begun since. */
  ghost predicate Off(ms: seq<Map>, b: nat, k: nat, ix: Index)
    requires Indexable(ms)
  {
    var right := LayoutFrom(ms, 0);
    && 0 < b <= |right| && ix.chain == Shifted(right, b, k)
    && ix.total == Files(right[|right| - 1].entries) + if |right| == b then k else 0
  }

  /** Lookup n as it stands in shifted lookups. */
  function AsShifted(look: Lookup, n: nat, b: nat, k: nat): Lookup {
    if n < b then look else Moved(look, k)
  }

  lemma {:induction false} ShiftedSnoc(chain: seq<Lookup>, look: Lookup, b: nat, k: nat)
    ensures Shifted(chain + [look], b, k) == Shifted(chain, b, k) + [AsShifted(look, |chain|, b, k)]
  {
  }

  /** The last lookup with an element more, or the lookup begun for it, shifted or not. */
  /** What AddElement does with a single lookup. */
  lemma {:induction false} OneLookup(look: Lookup, total: nat, block: Block)
    requires AddPossible([look])
    ensures |look.entries| == |look.maps| > 0
    ensures BeginsLookup([look], block) <==> Closed(look.maps[|look.maps| - 1], block) && |look.maps| >= MAPS_PER_LOOKUP
    ensures AddElement([look], total, block)
            == if !Closed(look.maps[|look.maps| - 1], block) then [Rewritten(look, block)]
               else if |look.maps| < MAPS_PER_LOOKUP then
                 [look.(entries := look.entries + [EntryWord(NextLid(look), [block])], maps := look.maps + [[block]])]
               else [look, Lookup(NextLid(look), look.fileStart
                                    + total, [EntryWord(NextLid(look), [block])], [[block]])]
  {
    hide Closed, EntryWord, NextLid, Rewritten;
    assert [look][0] == look && [look][..0] == [];
  }

  lemma {:induction false} MovedSame(look: Lookup, k: nat, block: Block)
    requires |look.entries| == |look.maps| > 0
    ensures Rewritten(Moved(look, k), block) == Moved(Rewritten(look, block), k)
            && NextLid(Moved(look, k)) == NextLid(look)
  {
    hide EntryWord, LidStart;
  }

  lemma {:induction false} LastAdd(look: Lookup, n: nat, b: nat, k: nat, total: nat, block: Block)
    requires AddPossible([look]) && b <= n + 1
    ensures var sh := AsShifted(look, n, b, k);
            AddPossible([sh]) && (BeginsLookup([sh], block) <==> BeginsLookup([look], block)) &&
            var more, less := AddElement([look], total, block),
            AddElement([sh], total + (if n + 1 == b then k else 0), block);
            && |more| == |less| == (if BeginsLookup([look], block) then 2 else 1)
            && (BeginsLookup([look], block) ==> more[0] == look && less == [sh, Moved(more[1], k)])
            && (!BeginsLookup([look], block) ==> less == [AsShifted(more[0], n, b, k)])
  {
    hide Closed, EntryWord, NextLid, Rewritten, AddElement, BeginsLookup;
    var sh := AsShifted(look, n, b, k);
    OneLookup(look, total, block);
    MovedSame(look, k, block);
    OneLookup(sh, total + (if n + 1 == b then k else 0), block);
  }

  /** Adding an element concerns the last lookup alone. */
  lemma {:induction false} AddAtEnd(front: seq<Lookup>, look: Lookup, total: nat, block: Block)
    requires AddPossible([look])
    ensures AddPossible(front + [look]) && (BeginsLookup(front + [look], block) <==> BeginsLookup([look], block))
    ensures AddElement(front + [look], total, block) == front + AddElement([look], total, block)
  {
    hide Closed, EntryWord, LidStart, Rewritten, NextLid;
    var chain := front + [look];
    assert chain[|front|] == look && chain[..|front|] == front && [look][..0] == [];
  }

  /** Adding an element does the same to shifted lookups as to right ones. */
  lemma {:induction false} ShiftedAdd(chain: seq<Lookup>, b: nat, k: nat, total: nat, block: Block)
    requires AddPossible(chain) && 0 < b <= |chain|
    ensures var sh := Shifted(chain, b, k);
            && AddPossible(sh) && (BeginsLookup(sh, block) <==> BeginsLookup(chain, block))
            && AddElement(sh, total + (if |chain| == b then k else 0), block)
                 == Shifted(AddElement(chain, total, block), b, k)
            && |AddElement(chain, total, block)| == |chain| + if BeginsLookup(chain, block) then 1 else 0
  {
    hide AddElement, BeginsLookup, Shifted, AsShifted, AddPossible;
    var n := |chain| - 1;
    var front, look := chain[..n], chain[n];
    assert chain == front + [look];
    LastPossible(chain);
    LastAdd(look, n, b, k, total, block);
    AddAtEnd(front, look, total, block);
    ShiftedSnoc(front, look, b, k);
    AddAtEnd(Shifted(front, b, k), AsShifted(look, n, b, k), total + (if |chain| == b then k else 0), block);
    var more := AddElement([look], total, block);
    if BeginsLookup([look], block) {
      assert front + more == chain + [more[1]];
      ShiftedSnoc(chain, more[1], b, k);
      MovedBehind(more[1], |chain|, b, k);
    } else {
      assert more == [more[0]];
      ShiftedSnoc(front, more[0], b, k);
    }
  }

  lemma {:induction false} MovedBehind(look: Lookup, n: nat, b: nat, k: nat)
    requires b <= n
    ensures AsShifted(look, n, b, k) == Moved(look, k)
  {
  }

  lemma {:induction false} LastPossible(chain: seq<Lookup>)
    requires AddPossible(chain) && chain != []
    ensures AddPossible([chain[|chain| - 1]])
  {
  }

  lemma {:induction false} OffStep(ms: seq<Map>, b: nat, k: nat, ix: Index, block: Block)
    requires ms != [] && Indexable(ms) && Indexable(Appended(ms, block)) && Off(ms, b, k, ix)
    ensures AddPossible(ix.chain) && Off(Appended(ms, block), b, k, Add(ix, block))
  {
    hide LayoutFrom, Shifted, Files, Appended, AddElement, BeginsLookup, Bounded, Offset, AddPossible;
    var right := LayoutFrom(ms, 0);
    var total := Files(right[|right| - 1].entries);
    RightTotal(right, total);
    AddElementKeepsLayout(ms, total, block);
    TotalAdded(ms, block);
    ShiftedAdd(right, b, k, total, block);
  }

  lemma {:induction false} RightTotal(chain: seq<Lookup>, total: nat)
    requires chain != [] && total == Files(chain[|chain| - 1].entries)
    ensures TotalRight(chain, total)
  {
  }

  /** The index after several elements have been added. */
  function AddAll(ix: Index, bs: seq<Block>): Index
    decreases |bs|
  {
    if bs == [] || !AddPossible(ix.chain) then ix else AddAll(Add(ix, bs[0]), bs[1..])
  }

  /** Whatever is appended, the index stays wrong by as much. */
  lemma {:induction false} OffRun(ms: seq<Map>, b: nat, k: nat, ix: Index, bs: seq<Block>)
    requires ms != [] && Bounded(ms) && Offset(ms, |ms|) + |bs| < ID_LIMIT && Off(ms, b, k, ix)
    ensures Indexable(Appends(ms, bs)) && Appends(ms, bs) != [] && Off(Appends(ms, bs), b, k, AddAll(ix, bs))
    decreases |bs|
  {
    hide Off, Appended, Bounded, Offset, Add, AddPossible;
    if bs != [] {
      AppendKeepsBounds(ms, bs[0]);
      OneLonger(ms, bs[0]);
      AppendedSome(ms, bs[0]);
      OffStep(ms, b, k, ix, bs[0]);
      OffRun(Appended(ms, bs[0]), b, k, Add(ix, bs[0]), bs[1..]);
    }
  }

  lemma {:induction false} AppendedSome(ms: seq<Map>, block: Block)
    ensures Appended(ms, block) != []
  {
  }

  lemma {:induction false} LayoutIsRight(ms: seq<Map>)
    requires Indexable(ms) && ms != []
    ensures var chain := LayoutFrom(ms, 0); WellFormed(chain) && Shaped(chain) && Maps(chain) == ms
  {
    hide LookupRight, LookupOf;
    var chain := LayoutFrom(ms, 0);
    assert chain[0..] == chain && MapsTo(chain, 0) == ms[..0];
    LayoutMaps(ms, 0, chain, 0);
    LayoutRight(ms, 0, chain, 0);
    WellFormedIsShaped(chain);
  }

  lemma {:induction false} NotShifted(chain: seq<Lookup>, b: nat, k: nat)
    requires |chain| <= b
    ensures Shifted(chain, b, k) == chain
  {
  }

  /** An index that is off is right about every filemark as long as no lookup has been begun since, and wrong about
      the first of that lookup from then on. */
  lemma {:induction false} OffLocates(ms: seq<Map>, b: nat, k: nat, ix: Index)
    requires Indexable(ms) && ms != [] && NonEmpty(ms) && Last(ms) != [] && Off(ms, b, k, ix) && k > 0
    ensures Shaped(ix.chain)
    ensures (forall addr: nat :: FileSpotRight(ix.chain, addr)) <==> |LayoutFrom(ms, 0)| == b
    ensures |LayoutFrom(ms, 0)| > b ==> FileSpot(ix.chain, LayoutFrom(ms, 0)[b].fileStart).error == EodReached
  {
    hide LayoutFrom, Shifted, FileSpotRight, Files, Bounded, FileSpot, Shaped, WellFormed, Maps, MapsTo, Flat;
    LayoutIsRight(ms);
    var right := LayoutFrom(ms, 0);
    if |right| == b {
      NotShifted(right, b, k);
      forall addr: nat
        ensures FileSpotRight(ix.chain, addr)
      {
        RightIndexLocates(right, addr);
      }
    } else {
      StartOnTape(right, b);
      SomethingBehind(ms, Global(right, b, 0));
      var addr := right[b].fileStart;
      LocateShifted(right, b, k, addr);
      assert !FileSpotRight(ix.chain, addr);
    }
  }

  lemma {:induction false} SomethingBehind(ms: seq<Map>, g: nat)
    requires g < |ms| && NonEmpty(ms) && Last(ms) != []
    ensures Offset(ms, Min(g, |ms|)) < |Flat(ms)|
  {
    StretchOfMap(ms, g);
    assert ms[g] != [];
  }

  /** A careless overwrite at the end of map g, and anything appended after it: LOCATE by file is right about every
      address if and only if the lookup of map g is still the last one. */
  lemma {:induction false} AfterCarelessCut(ms: seq<Map>, total: nat, g: nat, bs: seq<Block>)
    requires Indexable(ms) && NonEmpty(ms) && g < |ms| && !TotalKept(ms, g, |ms[g]|) && bs != []
             && Offset(ms, |ms|) + |bs| < ID_LIMIT
    ensures CutPossible(LayoutFrom(ms, 0), LookupNo(g), EntryNo(g), |ms[g]|)
    ensures var ns := Appends(Truncated(ms, g, |ms[g]|), bs);
            var ix := AddAll(Cut(Index(LayoutFrom(ms, 0), total), LookupNo(g), EntryNo(g), |ms[g]|), bs);
            && Indexable(ns) && Shaped(ix.chain)
            && ((forall addr: nat :: FileSpotRight(ix.chain, addr)) <==> |LayoutFrom(ns, 0)| == LookupNo(g) + 1)
            && (|LayoutFrom(ns, 0)| > LookupNo(g) + 1 ==>
                  FileSpot(ix.chain, LayoutFrom(ns, 0)[LookupNo(g) + 1].fileStart).error == EodReached)
  {
    hide *;
    var b, k, cut := CarelessCutIsOff(ms, total, g);
    var left := Truncated(ms, g, |ms[g]|);
    NotLonger(ms, g, |ms[g]|);
    OffRun(left, b, k, cut, bs);
    EmptyAfterCut(ms, g, |ms[g]|);
    AppendsAll(left, bs);
    OffLocates(Appends(left, bs), b, k, AddAll(cut, bs));
  }

  lemma {:induction false} CarelessCutIsOff(ms: seq<Map>, total: nat, g: nat) returns (b: nat, k: nat, ix: Index)
    requires Indexable(ms) && g < |ms| && !TotalKept(ms, g, |ms[g]|)
    ensures CutPossible(LayoutFrom(ms, 0), LookupNo(g), EntryNo(g), |ms[g]|)
    ensures ix == Cut(Index(LayoutFrom(ms, 0), total), LookupNo(g), EntryNo(g), |ms[g]|) && b == LookupNo(g) + 1
            && k > 0
    ensures var left := Truncated(ms, g, |ms[g]|); Bounded(left) && Indexable(left) && left != [] && Off(left, b, k, ix)
  {
    CutPlace(ms, g);
    hide LayoutFrom, Bounded, Files, Cut, CutPossible, Truncated, FilemarksBefore, LookupNo, EntryNo, Offset,
         TotalKept, Off;
    var c, l, e := |ms[g]|, LookupNo(g), EntryNo(g);
    TruncateKeepsBounds(ms, g, c);
    NotLonger(ms, g, c);
    CutTotal(ms, total, l, e, c);
    ix, b := Cut(Index(LayoutFrom(ms, 0), total), l, e, c), l + 1;
    k := CutSurplus(ms, total, l, e);
  }

  lemma {:induction false} CutPlace(ms: seq<Map>, g: nat)
    requires g < |ms|
    ensures MAPS_PER_LOOKUP * LookupNo(g) + EntryNo(g) == g && EntryNo(g) < MAPS_PER_LOOKUP
            && Truncated(ms, g, |ms[g]|) != []
    ensures TotalKept(ms, g, |ms[g]|)
            <==> FilemarksBefore(ms, g + 1)
                   == FilemarksBefore(ms, Min(MAPS_PER_LOOKUP * LookupNo(g) + MAPS_PER_LOOKUP, |ms|))
  {
    hide FilemarksBefore;
    assert g - g % MAPS_PER_LOOKUP == MAPS_PER_LOOKUP * LookupNo(g);
  }

  /** By how much the total is off after the cut. */
  lemma {:induction false} CutSurplus(ms: seq<Map>, total: nat, l: nat, e: nat) returns (k: nat)
    requires Indexable(ms) && e < MAPS_PER_LOOKUP && MAPS_PER_LOOKUP * l + e < |ms|
    requires var g := MAPS_PER_LOOKUP * l + e;
             && Indexable(Truncated(ms, g, |ms[g]|)) && CutPossible(LayoutFrom(ms, 0), l, e, |ms[g]|)
             && Cut(Index(LayoutFrom(ms, 0), total), l, e, |ms[g]|).chain == LayoutFrom(Truncated(ms, g, |ms[g]|), 0)
             && FilemarksBefore(ms, g + 1) != FilemarksBefore(ms, Min(MAPS_PER_LOOKUP * l + MAPS_PER_LOOKUP, |ms|))
    ensures var g := MAPS_PER_LOOKUP * l + e;
            k > 0 && Off(Truncated(ms, g, |ms[g]|), l + 1, k, Cut(Index(LayoutFrom(ms, 0), total), l, e, |ms[g]|))
  {
    hide LayoutFrom, Bounded, Files, CutIndex, Truncated, FilemarksBefore, Offset;
    var g := MAPS_PER_LOOKUP * l + e;
    var upTo := Min(MAPS_PER_LOOKUP * l + MAPS_PER_LOOKUP, |ms|);
    CutFiles(ms, l, e, |ms[g]|);
    SameEntry(ms, l, e);
    FilesMonotone(ms, g + 1, upTo);
    k := FilemarksBefore(ms, upTo) - FilemarksBefore(ms, g + 1);
    NotShifted(LayoutFrom(Truncated(ms, g, |ms[g]|), 0), l + 1, k);
  }

  lemma {:induction false} SameEntry(ms: seq<Map>, l: nat, e: nat)
    requires Indexable(ms) && e < MAPS_PER_LOOKUP && MAPS_PER_LOOKUP * l + e < |ms|
    ensures var chain := LayoutFrom(ms, 0);
            l < |chain| && e < |chain[l].maps| && chain[l].maps[e] == ms[MAPS_PER_LOOKUP * l + e]
  {
    hide LayoutFrom, LookupOf, Bounded, Lookups;
    LayoutIs(ms);
    var lo := MAPS_PER_LOOKUP * l;
    LookupAt(ms, LayoutFrom(ms, 0), |LayoutFrom(ms, 0)|, l);
    LookupPart(ms, lo, lo + e, Min(lo + MAPS_PER_LOOKUP, |ms|));
  }

  // ----- The whole run

  lemma {:induction false} ManyMaps(ms: seq<Map>, g: nat)
    requires Bounded(ms) && g <= |ms|
    ensures Offset(ms, g) <= MAX_ENTRIES * g
  {
    hide FilemarksIn, SetmarksIn;
    if g > 0 {
      ManyMaps(ms, g - 1);
    }
  }

  lemma {:induction false} ManyLookups(ms: seq<Map>)
    requires Indexable(ms) && |Flat(ms)| > MAX_ENTRIES * MAPS_PER_LOOKUP
    ensures |LayoutFrom(ms, 0)| > 1
  {
    hide LayoutFrom, Bounded, Offset;
    ManyMaps(ms, |ms|);
    LayoutIs(ms);
  }

  /** Write sixteen filemarks, SPACE to behind the fifteenth, write more blocks than the maps of one lookup hold:
      LOCATE by file is wrong about some address. */
  lemma {:induction false} LocateGoesWrong(ms: seq<Map>, total: nat, bs: seq<Block>) returns (ops: seq<Op>)
    requires ms == [Fill(Filemark, 15), [Filemark]] && MAX_ENTRIES * MAPS_PER_LOOKUP < |bs| < ID_LIMIT - 16
    ensures Reaches([], ops, ms) && ScanForward(ms[0], 0, Filemarks, 15) == Landing(15, 0, NoError)
    ensures Indexable(ms) && CutPossible(LayoutFrom(ms, 0), 0, 0, 15)
    ensures var ix := AddAll(Cut(Index(LayoutFrom(ms, 0), total), 0, 0, 15), bs);
            Shaped(ix.chain) && !(forall addr: nat :: FileSpotRight(ix.chain, addr))
  {
    ops := SixteenMarkMaps(ms);
    CarelessHere(ms);
    assert LookupNo(0) == 0 && EntryNo(0) == 0;
    hide *;
    AfterCarelessCut(ms, total, 0, bs);
    var left := Truncated(ms, 0, 15);
    AppendsAll(left, bs);
    ManyLookups(Appends(left, bs));
  }

  lemma {:induction false} CarelessHere(ms: seq<Map>)
    requires ms == [Fill(Filemark, 15), [Filemark]] && FilemarksBefore(ms, 1) == 15 && FilemarksBefore(ms, 2) == 16
    ensures |ms[0]| == 15 && !TotalKept(ms, 0, 15) && NonEmpty(ms) && Offset(ms, |ms|) == 16
  {
    hide FilemarksBefore;
    MarksBefore(ms);
  }
}
