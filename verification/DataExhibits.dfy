/** Two runs of the data cursor that end badly, and the exact conditions behind them. */
module DataExhibits {
  import opened Units
  import opened EntryBits
  import opened TapeScan
  import opened TapeMaps
  import opened TapeWriter
  import opened DataArea
  import opened DataCursor

  /** The first write after a load or rewind, anywhere on the tape: with units to be had, it fails if and only
      if the position is the first element of a map other than the first. */
  method WriteAfterLoad(a: Area, g: nat, c: nat, items: seq<Item>, grants: seq<Grant>) returns (r: Outcome)
    requires a.Sane() && g < |a.maps| && c <= |a.maps[g]| && |a.segments| + |items| <= SEGMENT_LIMIT
    requires |grants| == |items| && Fresh(a.segments, grants, 0) && forall i :: 0 <= i < |items| ==> Writable(items[i])
    requires forall i :: 0 <= i < |grants| ==> grants[i].Granted?
    modifies a
    ensures r == Failed <==> g > 0 && c == 0
    ensures r == Written ==> a.Valid()
  {
    a.Rewind();
    a.Reposition(g, c);
    r := a.Write(items, grants, true);
  }

  /** Two blocks that begin at one place overlap. */
  lemma {:induction false} SamePlace(segments: seq<Segment>, later: seq<Segment>, c: Cursor, e: Element, f: Element)
    requires segments <= later && FirstAt(segments, e, c) && FirstAt(later, f, c) && Len(e) > 0 && Len(f) > 0
    ensures Overlap(e, f)
  {
    hide Len, Seg;
  }

  /** A write that is not flushed and keeps a block, then the same block again: the two share sectors. */
  method WriteAgain(a: Area, items: seq<Item>, grants: seq<Grant>, grant: Grant) returns (r: Outcome, s: Outcome)
    requires a.Valid() && a.AtEnd() && !a.lookup && |a.segments| + |items| < SEGMENT_LIMIT
    requires items != [] && items[0].Record? && 0 < Kept(a.maps, KindsOf(items)) < |items|
    requires |grants| == |items| && Fresh(a.segments, grants, 0) && forall i :: 0 <= i < |items| ==> Writable(items[i])
    requires forall i :: 0 <= i < |grants| ==> grants[i].Granted?
    requires grant.Granted? && grant.segment.Valid() && grant.segment !in a.segments && grant !in grants
    modifies a
    ensures r == Unflushed && s == Written
    ensures exists i, j :: 0 <= i < j < |a.live| && Overlap(a.live[i], a.live[j])
  {
    hide Seg, Len, Kind, Need, PackedBehind, EndsAt, Resumed, PastNext, Flat, NonEmpty, Ordered;
    ghost var n, before, at := |a.live|, a.segments, a.cursor;
    EndIsAllLive(a);
    r := a.Write(items, grants, false);
    assert !a.Valid();
    ghost var m, after := |a.live|, a.segments;
    ghost var e := a.live[n];
    EndIsAllLive(a);
    StillFresh(before, grants, after, grant);
    s := a.Write([items[0]], [grant], true);
    StillNext(after, a.segments, at, items[0]);
    SamePlace(after, a.segments, NextPlace(after, at, items[0], Refused), e, a.live[m]);
    assert a.live[..m][n] == e;
    assert Overlap(a.live[n], a.live[m]);
  }

  lemma {:induction false} StillFresh(before: seq<Segment>, grants: seq<Grant>, segments: seq<Segment>, grant: Grant)
    requires Obtained(before, grants, segments) && grant.Granted? && grant.segment.Valid()
    requires grant.segment !in before && grant !in grants
    ensures Fresh(segments, [grant], 0)
  {
  }

  lemma {:induction false} EndIsAllLive(a: Area)
    requires a.Mapped() && a.AtEnd()
    ensures a.Position() == |a.live| && a.live[..a.Position()] == a.live && CutAt(a.maps, a.g, a.c) == a.maps
  {
    PositionInTape(a.maps, a.live, a.g, a.c);
  }

  // ----- The runs

  /** n units of one disk, from unit `first` on. */
  function Grants(first: nat, n: nat): seq<Grant> {
    seq(n, i requires 0 <= i < n => Granted(Unit(first + i)))
  }

  function Unit(u: nat): Segment {
    Segment(Device(0, 9), u * 131072)
  }

  /** The segments are units before `first`. */
  ghost predicate Below(segments: seq<Segment>, first: nat) {
    forall i :: 0 <= i < |segments| ==> segments[i].base < first * 131072
  }

  lemma {:induction false} GrantsAreFresh(segments: seq<Segment>, first: nat, n: nat)
    requires Below(segments, first)
    ensures |Grants(first, n)| == n && Fresh(segments, Grants(first, n), 0)
    ensures forall i :: 0 <= i < n ==> Grants(first, n)[i].Granted?
  {
    var grants := Grants(first, n);
    assert SectorsPerUnit(9) == 131072;
    forall i | 0 <= i < n
      ensures grants[i].segment.Valid() && grants[i].segment !in segments
    {
      assert grants[i].segment.base == (first + i) * 131072;
    }
    forall i, j | 0 <= i < j < n
      ensures grants[i] != grants[j]
    {
      assert grants[i] == Granted(Unit(first + i)) && grants[j] == Granted(Unit(first + j));
    }
  }

  lemma {:induction false} ObtainedBelow(before: seq<Segment>, first: nat, n: nat, segments: seq<Segment>)
    requires Below(before, first) && Obtained(before, Grants(first, n), segments)
    ensures Below(segments, first + n)
  {
    forall i | 0 <= i < |segments|
      ensures segments[i].base < (first + n) * 131072
    {
      if segments[i] in before {
        var j :| 0 <= j < |before| && before[j] == segments[i];
      } else {
        assert Granted(segments[i]) in Grants(first, n);
        var j :| 0 <= j < |Grants(first, n)| && Grants(first, n)[j] == Granted(segments[i]);
        assert segments[i] == Unit(first + j);
      }
    }
  }

  /** n blocks of 512 bytes. */
  function Blocks(n: nat): seq<Item> {
    seq(n, _ => Record(512, 0))
  }

  lemma {:induction false} BlocksAre(n: nat)
    ensures |Blocks(n)| == n && KindsOf(Blocks(n)) == Fill(Data, n)
    ensures forall i :: 0 <= i < n ==> Blocks(n)[i].Record? && Writable(Blocks(n)[i])
  {
  }

  lemma {:induction false} AppendsKeepCut(ms: seq<Map>, bs: seq<Block>)
    requires WellCut(ms)
    ensures WellCut(Appends(ms, bs))
    decreases |bs|
  {
    hide WellCut, Appended;
    if bs != [] {
      AppendKeepsCut(ms, bs[0]);
      AppendsKeepCut(Appended(ms, bs[0]), bs[1..]);
    }
  }

  /** A tape of 256 blocks has a second map. */
  lemma {:induction false} EmptyTape()
    ensures Flat([]) == [] && WellCut([])
  {
  }

  lemma {:induction false} OneMapHolds(ms: seq<Map>)
    requires WellCut(ms)
    ensures |ms| <= 1 ==> |Flat(ms)| <= MAX_ENTRIES == 255
  {
    hide FilemarksIn, SetmarksIn;
  }

  lemma {:induction false} SecondMap()
    ensures |Appends([], Fill(Data, 256))| > 1
  {
    hide *;
    EmptyTape();
    AppendsKeepCut([], Fill(Data, 256));
    AppendsAll([], Fill(Data, 256));
    OneMapHolds(Appends([], Fill(Data, 256)));
  }

  /** What the code says can never happen: write 256 blocks, rewind, LOCATE to the first block of the second
      map, write.  The tape is cut there and the write fails. */
  method CanHappen() returns (a: Area, r: Outcome)
    ensures fresh(a) && a.Valid() && r == Failed && |a.maps| == 2 && a.maps[0] != [] && a.maps[1] == []
  {
    hide Seg, Len, Kind, Appends, Fill, Kept, Blocks, Grants, PackedBehind, EndsAt, Resumed, FirstGoes, PastNext,
         Past, Laid, Flat, Obtained, Fresh;
    BlocksAre(256);
    GrantsAreFresh([], 4, 256);
    SecondMap();
    a := new Area();
    r := a.Write(Blocks(256), Grants(4, 256), true);
    assert KindsOf(Blocks(256))[..256] == Fill(Data, 256);
    BlocksAre(1);
    ObtainedBelow([], 4, 256, a.segments);
    GrantsAreFresh(a.segments, 260, 1);
    assert a.maps[0] != [];
    a.Rewind();
    a.Reposition(1, 0);
    r := a.Write(Blocks(1), Grants(260, 1), true);
  }

  lemma {:induction false} OneMoreBlock(k: nat)
    requires k < MAX_ENTRIES
    ensures !Closed(Fill(Data, k), Data) && Appended([Fill(Data, k)], Data) == [Fill(Data, k + 1)]
  {
    FillCounts(Data, k);
    hide Fill;
    assert Fill(Data, k) + [Data] == Fill(Data, k + 1);
    assert [Fill(Data, k)][..0] == [];
  }

  lemma {:induction false} FillMap(k: nat, n: nat)
    requires 0 < k && k + n <= MAX_ENTRIES
    ensures Appends([Fill(Data, k)], Fill(Data, n)) == [Fill(Data, k + n)]
    decreases n
  {
    hide Fill, Appended;
    if n > 0 {
      OneMoreBlock(k);
      assert Fill(Data, n)[1..] == Fill(Data, n - 1);
      FillMap(k + 1, n - 1);
    } else {
      assert Fill(Data, n) == [];
    }
  }

  lemma {:induction false} FirstBlock()
    ensures Appended([], Data) == [Fill(Data, 1)]
  {
    assert [Data] == Fill(Data, 1);
  }

  lemma {:induction false} BeginMap(n: nat)
    requires 0 < n <= MAX_ENTRIES
    ensures Appends([], Fill(Data, n)) == [Fill(Data, n)]
  {
    hide Fill, Appended;
    FirstBlock();
    assert Fill(Data, n)[1..] == Fill(Data, n - 1);
    FillMap(1, n - 1);
  }

  lemma {:induction false} FullMap(bs: seq<Block>)
    ensures Kept([Fill(Data, MAX_ENTRIES)], bs) == 0
  {
  }

  /** A map of 254 blocks takes one of two more. */
  lemma {:induction false} OneOfTwo()
    ensures Kept([Fill(Data, 254)], Fill(Data, 2)) == 1
  {
    hide Fill, Appended, Closed;
    OneMoreBlock(254);
    FullMap(Fill(Data, 2)[1..]);
  }

  /** Two live blocks share a sector: write 254 blocks; write two more, which begins a second map, and have the
      first map not written; write one more. */
  method SharedSectors() returns (a: Area)
    ensures fresh(a) && exists i, j :: 0 <= i < j < |a.live| && Overlap(a.live[i], a.live[j])
  {
    hide Seg, Len, Kind, Appends, Fill, Kept, Blocks, Grants, Overlap, PackedBehind, EndsAt, Resumed, FirstGoes,
         PastNext;
    BlocksAre(254);
    BlocksAre(2);
    GrantsAreFresh([], 4, 254);
    BeginMap(254);
    OneOfTwo();
    a := new Area();
    var r := a.Write(Blocks(254), Grants(4, 254), true);
    assert KindsOf(Blocks(254))[..254] == Fill(Data, 254);
    ObtainedBelow([], 4, 254, a.segments);
    GrantsAreFresh(a.segments, 258, 3);
    var grants := Grants(258, 3);
    var s;
    r, s := WriteAgain(a, Blocks(2), grants[..2], grants[2]);
  }
}
