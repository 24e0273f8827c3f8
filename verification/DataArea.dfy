/** Where the data of a partition lies: the segments it holds, the elements that are live, each known by its
    stored word, and what it takes to place one more behind them. */
module DataArea {
  import opened Units
  import opened EntryBits
  import TapeScan

  /** A disk, and the size of its sectors. */
  datatype Device = Device(bid: nat, shift: nat)

  /** A unit of a disk, held as a segment. */
  datatype Segment = Segment(device: Device, base: nat) {
    ghost predicate Valid() {
      9 <= device.shift <= 12 && base % SectorsPerUnit(device.shift) == 0
    }

    function End(): nat
      requires 9 <= device.shift <= 12
    {
      base + SectorsPerUnit(device.shift)
    }
  }

  /** A live element as it is stored: the word of blk_entry.h, the disk and the first sector. */
  datatype Element = Element(bits: nat, device: Device, start: nat)

  /** The segment that the stored word names. */
  function Seg(e: Element): nat { SegmentId(e.bits) }

  /** The sectors that the element takes, from the size in the stored word. */
  function Len(e: Element): nat {
    if 9 <= e.device.shift <= 12 then Sectors(e.device.shift, DiskSize(e.bits)) else 0
  }

  function Kind(e: Element): TapeScan.Block {
    if IsData(e.bits) then TapeScan.Data else if IsSetmark(e.bits) then TapeScan.Setmark else TapeScan.Filemark
  }

  function Kinds(live: seq<Element>): seq<TapeScan.Block> {
    seq(|live|, i requires 0 <= i < |live| => Kind(live[i]))
  }

  /** dsegment: not set, or a sector of a segment. */
  datatype Cursor = Unset | At(segment: nat, cur: nat)

  /** The segments are different units. */
  ghost predicate Distinct(segments: seq<Segment>) {
    && (forall i :: 0 <= i < |segments| ==> segments[i].Valid())
    && (forall i, j :: 0 <= i < j < |segments| ==> segments[i] != segments[j])
  }

  ghost predicate Inside(segments: seq<Segment>, e: Element)
    requires Distinct(segments)
  {
    && Seg(e) < |segments|
    && segments[Seg(e)].device == e.device
    && segments[Seg(e)].base <= e.start
    && e.start + Len(e) <= segments[Seg(e)].End()
  }

  /** Element e ends at or before a place. */
  predicate EndsBy(e: Element, segment: nat, sector: nat) {
    Seg(e) < segment || (Seg(e) == segment && e.start + Len(e) <= sector)
  }

  ghost predicate Ordered(live: seq<Element>) {
    forall i, j :: 0 <= i < j < |live| ==> EndsBy(live[i], Seg(live[j]), live[j].start)
  }

  ghost predicate CursorInside(segments: seq<Segment>, c: Cursor)
    requires Distinct(segments)
  {
    c.At? ==> c.segment < |segments| && segments[c.segment].base <= c.cur <= segments[c.segment].End()
  }

  /** No live element reaches past the cursor. */
  ghost predicate Past(live: seq<Element>, c: Cursor) {
    match c
    case Unset => live == []
    case At(segment, cur) => forall i :: 0 <= i < |live| ==> EndsBy(live[i], segment, cur)
  }

  ghost predicate Laid(segments: seq<Segment>, live: seq<Element>) {
    && Distinct(segments)
    && (forall i :: 0 <= i < |live| ==> Inside(segments, live[i]))
    && Ordered(live)
  }

  // ----- What the layout is for

  ghost predicate Overlap(a: Element, b: Element) {
    && a.device == b.device
    && a.start < b.start + Len(b)
    && b.start < a.start + Len(a)
  }

  /** Two different units of a disk have no sector in common. */
  lemma {:induction false} UnitsApart(a: Segment, b: Segment)
    requires a.Valid() && b.Valid() && a != b && a.device == b.device
    ensures a.End() <= b.base || b.End() <= a.base
  {
    StartsApart(a.device.shift, a.base, b.base);
  }

  /** No two live elements share a sector, and each lies inside a unit that the partition holds. */
  lemma {:induction false} NoOverlap(segments: seq<Segment>, live: seq<Element>, i: nat, j: nat)
    requires Laid(segments, live) && i < j < |live|
    ensures Inside(segments, live[i]) && Inside(segments, live[j]) && !Overlap(live[i], live[j])
  {
    hide Seg, Len;
    var a, b := live[i], live[j];
    assert EndsBy(a, Seg(b), b.start);
    if Seg(a) != Seg(b) && a.device == b.device {
      UnitsApart(segments[Seg(a)], segments[Seg(b)]);
    }
  }

  // ----- What a write appends

  datatype Item = Record(size: nat, compressed: nat) | Mark(setmark: bool)

  /** The answer of the allocator, should it be asked. */
  datatype Grant = Refused | Granted(segment: Segment)

  predicate Writable(item: Item) {
    item.Record? ==> Accepted(item.size, item.compressed)
  }

  function KindOf(item: Item): TapeScan.Block {
    if item.Record? then TapeScan.Data else if item.setmark then TapeScan.Setmark else TapeScan.Filemark
  }

  function KindsOf(items: seq<Item>): seq<TapeScan.Block> {
    seq(|items|, i requires 0 <= i < |items| => KindOf(items[i]))
  }

  /** Sectors to write for an item. */
  function Need(shift: nat, item: Item): nat
    requires 9 <= shift <= 12
  {
    if item.Record? then Sectors(shift, Stored(item.size, item.compressed)) else 0
  }

  /** The word stored for an item. */
  function Word(item: Item, segment: nat): nat {
    if item.Record? then PackData(segment, item.size, item.compressed) else PackMark(segment, item.setmark)
  }

  /** What is stored for an item says where it lies, how far it reaches and what it is. */
  lemma {:induction false} WordReadsBack(item: Item, segment: nat, device: Device, start: nat)
    requires Writable(item) && segment < SEGMENT_LIMIT && 9 <= device.shift <= 12
    ensures var e := Element(Word(item, segment), device, start);
            Seg(e) == segment && Len(e) == Need(device.shift, item) && Kind(e) == KindOf(item)
            && (Len(e) > 0 <==> item.Record?)
  {
    if item.Record? {
      AcceptedReadsBack(device.shift, segment, item.size, item.compressed);
    } else {
      MarkReadsBack(segment, item.setmark);
    }
    hide PackData, PackMark, SegmentId, IsData, CompressedUnits;
  }

  /** A block fits into one unit. */
  lemma {:induction false} FitsUnit(shift: nat, item: Item)
    requires 9 <= shift <= 12 && Writable(item)
    ensures Need(shift, item) <= SectorsPerUnit(shift)
  {
    if shift == 9 {
    } else if shift == 10 {
    } else if shift == 11 {
    } else {
    }
  }

  /** The allocator hands out units that nobody holds. */
  ghost predicate Fresh(segments: seq<Segment>, grants: seq<Grant>, k: nat) {
    && (forall i :: k <= i < |grants| && grants[i].Granted? ==>
                      grants[i].segment.Valid() && grants[i].segment !in segments)
    && (forall i, j :: k <= i < j < |grants| && grants[i].Granted? ==> grants[i] != grants[j])
  }

  /** The item goes at the cursor: it is a mark, or its sectors fit before the end of the segment. */
  predicate FitsHere(segments: seq<Segment>, c: Cursor, item: Item)
    requires c.At? ==> c.segment < |segments| && 9 <= segments[c.segment].device.shift <= 12
  {
    c.At? && (item.Mark? || c.cur + Need(segments[c.segment].device.shift, item) <= segments[c.segment].End())
  }

  function NextId(c: Cursor): nat {
    if c.At? then c.segment + 1 else 0
  }

  /** Where the next item goes: at the cursor, or at the start of the next segment of the table, which may be
      the unit that the allocator grants.  Unset when there is none. */
  function NextPlace(segments: seq<Segment>, c: Cursor, item: Item, grant: Grant): Cursor
    requires c.At? ==> c.segment < |segments| && 9 <= segments[c.segment].device.shift <= 12
  {
    if FitsHere(segments, c, item) then c
    else if NextId(c) < |segments| then At(NextId(c), segments[NextId(c)].base)
    else if grant.Granted? then At(NextId(c), grant.segment.base)
    else Unset
  }

  /** Where placing stands: the segments, the cursor, and whether every item so far has found a place. */
  datatype Standing = Standing(segments: seq<Segment>, cursor: Cursor, ok: bool)

  /** The cursor is on a segment whose sectors have a size. */
  predicate OnSegment(segments: seq<Segment>, c: Cursor) {
    c.At? ==> c.segment < |segments| && 9 <= segments[c.segment].device.shift <= 12
  }

  /** The item goes into a unit that the partition does not hold yet. */
  predicate NeedsUnit(segments: seq<Segment>, c: Cursor, item: Item)
    requires OnSegment(segments, c)
  {
    !FitsHere(segments, c, item) && NextId(c) >= |segments|
  }

  /** The segments once the item has a place. */
  function Supplied(segments: seq<Segment>, c: Cursor, item: Item, grant: Grant): seq<Segment>
    requires OnSegment(segments, c)
  {
    if NeedsUnit(segments, c, item) && grant.Granted? then segments + [grant.segment] else segments
  }

  /** One item placed. */
  function Step(s: Standing, item: Item, grant: Grant): Standing
    requires OnSegment(s.segments, s.cursor)
  {
    var place := NextPlace(s.segments, s.cursor, item, grant);
    if place.Unset? then s.(ok := false)
    else
      var segments := Supplied(s.segments, s.cursor, item, grant);
      if !OnSegment(segments, place) then s.(ok := false)
      else Standing(segments, At(place.segment, place.cur + Need(segments[place.segment].device.shift, item)), true)
  }

  /** The items placed one after the other, until one finds no place. */
  function Placing(segments: seq<Segment>, c: Cursor, items: seq<Item>, grants: seq<Grant>): Standing
    requires |items| == |grants|
    decreases |items|
  {
    if items == [] then Standing(segments, c, true)
    else
      var n := |items| - 1;
      var s := Placing(segments, c, items[..n], grants[..n]);
      if !s.ok || !OnSegment(s.segments, s.cursor) then s.(ok := false) else Step(s, items[n], grants[n])
  }

  lemma {:induction false} PlacingStep(segments: seq<Segment>, c: Cursor, items: seq<Item>, grants: seq<Grant>, k: nat)
    requires k < |items| == |grants|
    ensures var s := Placing(segments, c, items[..k], grants[..k]);
            s.ok && OnSegment(s.segments, s.cursor) ==>
              Placing(segments, c, items[..k + 1], grants[..k + 1]) == Step(s, items[k], grants[k])
    ensures var s := Placing(segments, c, items[..k], grants[..k]);
            !s.ok ==> Placing(segments, c, items[..k + 1], grants[..k + 1]) == s
  {
    hide Step, OnSegment;
    assert items[..k + 1][..k] == items[..k] && grants[..k + 1][..k] == grants[..k];
  }

  /** An item without a place is the last that is tried. */
  lemma {:induction false} PlacingStops(segments: seq<Segment>, c: Cursor, items: seq<Item>, grants: seq<Grant>, k: nat)
    requires k <= |items| == |grants| && !Placing(segments, c, items[..k], grants[..k]).ok
    ensures Placing(segments, c, items, grants) == Placing(segments, c, items[..k], grants[..k])
    decreases |items| - k
  {
    hide Placing;
    if k == |items| {
      assert items[..k] == items && grants[..k] == grants;
    } else {
      PlacingStep(segments, c, items, grants, k);
      PlacingStops(segments, c, items, grants, k + 1);
    }
  }

  // ----- What placing comes to

  /** The place behind an element. */
  function EndOf(e: Element): Cursor { At(Seg(e), e.start + Len(e)) }

  /** An element placed from a cursor: at the cursor if it is a mark or its sectors end inside the segment, at the
      start of the next segment otherwise.  It takes the sectors of what is stored. */
  ghost predicate Follows(segments: seq<Segment>, c: Cursor, item: Item, e: Element) {
    && 9 <= e.device.shift <= 12
    && Len(e) == (if item.Record? then Sectors(e.device.shift, Stored(item.size, item.compressed)) else 0)
    && if && c.At? && c.segment < |segments| && 9 <= segments[c.segment].device.shift <= 12
          && (item.Record? ==>
                c.cur + Sectors(segments[c.segment].device.shift, Stored(item.size, item.compressed))
                <= segments[c.segment].base + SectorsPerUnit(segments[c.segment].device.shift))
       then Seg(e) == c.segment && e.start == c.cur
       else Seg(e) == (if c.At? then c.segment + 1 else 0) < |segments| && e.start == segments[Seg(e)].base
  }

  /** Where the cursor stands after i elements. */
  function Reached(c: Cursor, placed: seq<Element>, i: nat): Cursor
    requires i <= |placed|
  {
    if i == 0 then c else EndOf(placed[i - 1])
  }

  /** Elements placed from a cursor, each behind the one before. */
  ghost predicate Packed(segments: seq<Segment>, c: Cursor, items: seq<Item>, placed: seq<Element>) {
    && |placed| <= |items|
    && forall i :: 0 <= i < |placed| ==>
                     Follows(segments, Reached(c, placed, i), items[i], placed[i])
  }

  lemma {:induction false} NextFollows(segments: seq<Segment>, more: seq<Segment>, c: Cursor, item: Item,
                                       grant: Grant, e: Element)
    requires OnSegment(segments, c) && Distinct(more) && more == Supplied(segments, c, item, grant) && Inside(more, e)
    requires NextPlace(segments, c, item, grant).At? && Len(e) == Need(e.device.shift, item)
    requires At(Seg(e), e.start) == NextPlace(segments, c, item, grant)
    ensures Follows(more, c, item, e)
  {
    hide Seg, Len, Sectors, Stored, SectorsPerUnit;
  }

  /** What has its place keeps it as segments are added. */
  lemma {:induction false} PackedGrown(segments: seq<Segment>, more: seq<Segment>, c: Cursor, items: seq<Item>,
                                       placed: seq<Element>)
    requires Packed(segments, c, items, placed) && segments <= more && OnSegment(segments, c)
    requires Distinct(segments) && forall i :: 0 <= i < |placed| ==> Inside(segments, placed[i])
    ensures Packed(more, c, items, placed)
  {
    hide Seg, Len, Sectors, Stored, SectorsPerUnit;
    forall i | 0 <= i < |placed|
      ensures Follows(more, Reached(c, placed, i), items[i], placed[i])
    {
      assert Follows(segments, Reached(c, placed, i), items[i], placed[i]);
      assert i > 0 ==> Inside(segments, placed[i - 1]);
    }
  }

  lemma {:induction false} PackedStep(segments: seq<Segment>, c: Cursor, items: seq<Item>, placed: seq<Element>,
                                      e: Element)
    requires Packed(segments, c, items, placed) && |placed| < |items|
    requires Follows(segments, Reached(c, placed, |placed|), items[|placed|], e)
    ensures Packed(segments, c, items, placed + [e])
  {
    hide Follows;
    var all := placed + [e];
    forall i | 0 <= i < |all|
      ensures Follows(segments, Reached(c, all, i), items[i], all[i])
    {
      if i < |placed| {
        assert Follows(segments, Reached(c, placed, i), items[i], placed[i]);
      }
    }
  }

  lemma {:induction false} PackedPrefix(segments: seq<Segment>, c: Cursor, items: seq<Item>, placed: seq<Element>,
                                        k: nat)
    requires Packed(segments, c, items, placed) && k <= |placed|
    ensures Packed(segments, c, items, placed[..k])
  {
    hide Follows;
    forall i | 0 <= i < k
      ensures Follows(segments, Reached(c, placed[..k], i), items[i], placed[..k][i])
    {
      assert Follows(segments, Reached(c, placed, i), items[i], placed[i]);
    }
  }

  /** What is packed behind what is packed. */
  lemma {:induction false} PackedOn(segments: seq<Segment>, c: Cursor, items: seq<Item>, placed: seq<Element>,
                                    items': seq<Item>, placed': seq<Element>)
    requires Packed(segments, c, items, placed) && |placed| == |items|
    requires Packed(segments, Reached(c, placed, |placed|), items', placed')
    ensures Packed(segments, c, items + items', placed + placed')
  {
    hide Follows, Seg, Len;
    var n, all := |placed|, placed + placed';
    forall i | 0 <= i < |all|
      ensures Follows(segments, Reached(c, all, i), (items + items')[i], all[i])
    {
      ReachedOn(c, placed, placed', i);
      hide Reached;
      if i < n {
        assert Follows(segments, Reached(c, placed, i), items[i], placed[i]);
      } else {
        assert Follows(segments, Reached(Reached(c, placed, n), placed', i - n), items'[i - n], placed'[i - n]);
      }
    }
  }

  lemma {:induction false} ReachedOn(c: Cursor, placed: seq<Element>, placed': seq<Element>, i: nat)
    requires i <= |placed| + |placed'|
    ensures Reached(c, placed + placed', i)
            == if i < |placed| then Reached(c, placed, i)
               else Reached(Reached(c, placed, |placed|), placed', i - |placed|)
  {
    hide Seg, Len;
  }

  /** The end of the last element is the least place past all of them. */
  lemma {:induction false} LastIsLeast(live: seq<Element>, segment: nat, cur: nat)
    requires live != [] && Past(live, At(segment, cur))
    ensures var e := live[|live| - 1]; Seg(e) < segment || (Seg(e) == segment && e.start + Len(e) <= cur)
  {
    assert EndsBy(live[|live| - 1], segment, cur);
    hide Seg, Len;
  }

  // ----- Steps

  /** Elements laid out from a place on, behind elements laid out already: all of them are laid out exactly
      when none of the old ones reaches past that place. */
  lemma {:induction false} Join(segments: seq<Segment>, live: seq<Element>, placed: seq<Element>)
    requires Laid(segments, live) && Laid(segments, placed) && placed != []
    ensures Laid(segments, live + placed) <==> Past(live, At(Seg(placed[0]), placed[0].start))
  {
    hide Seg, Len;
    var all := live + placed;
    var n := |live|;
    assert forall i :: 0 <= i < |placed| ==> all[n + i] == placed[i];
    if Ordered(all) {
      forall i | 0 <= i < n
        ensures EndsBy(live[i], Seg(placed[0]), placed[0].start)
      {
        assert EndsBy(all[i], Seg(all[n]), all[n].start);
      }
    }
    if Past(live, At(Seg(placed[0]), placed[0].start)) {
      forall i, j | 0 <= i < j < |all|
        ensures EndsBy(all[i], Seg(all[j]), all[j].start)
      {
        if i < n <= j {
          assert EndsBy(live[i], Seg(placed[0]), placed[0].start);
          assert j > n ==> EndsBy(placed[0], Seg(placed[j - n]), placed[j - n].start);
        } else if i >= n {
          assert EndsBy(placed[i - n], Seg(placed[j - n]), placed[j - n].start);
        }
      }
    }
  }

  /** Element e begins at or behind the cursor. */
  predicate From(e: Element, c: Cursor) {
    c.At? ==> Seg(e) > c.segment || (Seg(e) == c.segment && e.start >= c.cur)
  }

  /** One more element, from a cursor on that is past all others. */
  lemma {:induction false} Snoc(segments: seq<Segment>, placed: seq<Element>, c: Cursor, e: Element)
    requires Laid(segments, placed) && Past(placed, c) && Inside(segments, e) && From(e, c)
    ensures Laid(segments, placed + [e]) && Past(placed + [e], At(Seg(e), e.start + Len(e)))
  {
    hide Seg, Len;
    var all := placed + [e];
    assert forall i :: 0 <= i < |placed| ==> all[i] == placed[i];
    forall i | 0 <= i < |placed|
      ensures EndsBy(placed[i], Seg(e), e.start)
    {
      assert c.At? ==> EndsBy(placed[i], c.segment, c.cur);
    }
  }

  lemma {:induction false} NextIsFrom(segments: seq<Segment>, c: Cursor, item: Item, grant: Grant, e: Element)
    requires c.At? ==> c.segment < |segments| && 9 <= segments[c.segment].device.shift <= 12
    requires At(Seg(e), e.start) == NextPlace(segments, c, item, grant)
    ensures From(e, c)
    ensures item.Mark? && c.At? ==> At(Seg(e), e.start) == c
  {
  }

  predicate OnlyMarks(items: seq<Item>, k: nat)
    requires k <= |items|
  {
    forall i :: 0 <= i < k ==> items[i].Mark?
  }

  /** Of elements placed from a cursor on, the first k do not reach past it exactly when they are marks. */
  lemma {:induction false} MarksStayBehind(items: seq<Item>, placed: seq<Element>, k: nat, c: Cursor)
    requires k <= |placed| <= |items| && c.At?
    requires forall i :: 0 <= i < |placed| ==> From(placed[i], c) && (Len(placed[i]) > 0 <==> items[i].Record?)
    requires forall i :: 0 <= i < |placed| && OnlyMarks(items, i + 1) ==> At(Seg(placed[i]), placed[i].start) == c
    ensures Past(placed[..k], c) <==> OnlyMarks(items, k)
  {
    hide Seg, Len;
    if Past(placed[..k], c) {
      forall i | 0 <= i < k
        ensures items[i].Mark?
      {
        assert EndsBy(placed[..k][i], c.segment, c.cur) && From(placed[i], c);
      }
    }
    if OnlyMarks(items, k) {
      forall i | 0 <= i < k
        ensures EndsBy(placed[..k][i], c.segment, c.cur)
      {
        assert OnlyMarks(items, i + 1);
        assert items[i].Mark?;
      }
    }
  }

  lemma {:induction false} PastAppend(live: seq<Element>, more: seq<Element>, c: Cursor)
    ensures Past(live + more, c) <==> Past(live, c) && Past(more, c)
  {
    hide Seg, Len;
    if c.At? && Past(live + more, c) {
      forall i | 0 <= i < |live|
        ensures EndsBy(live[i], c.segment, c.cur)
      {
        assert (live + more)[i] == live[i];
      }
      forall i | 0 <= i < |more|
        ensures EndsBy(more[i], c.segment, c.cur)
      {
        assert (live + more)[|live| + i] == more[i];
      }
    }
  }

  /** The end of the last element is past every element. */
  lemma {:induction false} LastIsPast(segments: seq<Segment>, live: seq<Element>)
    requires Laid(segments, live) && live != []
    ensures var e := live[|live| - 1];
            Past(live, At(Seg(e), e.start + Len(e))) && CursorInside(segments, At(Seg(e), e.start + Len(e)))
  {
    hide Seg, Len;
  }

  lemma {:induction false} Prefix(segments: seq<Segment>, live: seq<Element>, k: nat)
    requires Laid(segments, live) && k <= |live|
    ensures Laid(segments, live[..k])
  {
    hide Seg, Len;
  }

  lemma {:induction false} PastPrefix(live: seq<Element>, k: nat, c: Cursor)
    requires Past(live, c) && k <= |live|
    ensures Past(live[..k], c)
  {
  }

  /** More segments behind the ones there are change nothing for what lies in those. */
  lemma {:induction false} Grown(segments: seq<Segment>, segments': seq<Segment>, live: seq<Element>)
    requires Laid(segments, live) && segments <= segments' && Distinct(segments')
    ensures Laid(segments', live)
  {
    hide Seg, Len;
  }

  /** Releasing the segments from n on is safe exactly when no live element lies in them. */
  lemma {:induction false} Released(segments: seq<Segment>, live: seq<Element>, n: nat)
    requires Laid(segments, live) && n <= |segments|
    ensures Laid(segments[..n], live) <==> forall i :: 0 <= i < |live| ==> Seg(live[i]) < n
  {
    hide Seg, Len;
    if Laid(segments[..n], live) {
      forall i | 0 <= i < |live|
        ensures Seg(live[i]) < n
      {
        assert Inside(segments[..n], live[i]);
      }
    }
  }

  lemma {:induction false} PastIsHeld(live: seq<Element>, c: Cursor)
    requires Past(live, c) && c.At?
    ensures forall i :: 0 <= i < |live| ==> Seg(live[i]) < c.segment + 1
  {
    hide Seg, Len;
    forall i | 0 <= i < |live|
      ensures Seg(live[i]) < c.segment + 1
    {
      assert EndsBy(live[i], c.segment, c.cur);
    }
  }

  /** Every segment held was held before or has been granted. */
  ghost predicate Obtained(before: seq<Segment>, grants: seq<Grant>, segments: seq<Segment>) {
    forall i :: 0 <= i < |segments| ==> segments[i] in before || Granted(segments[i]) in grants
  }

  lemma {:induction false} FreshStep(segments: seq<Segment>, grants: seq<Grant>, k: nat)
    requires Fresh(segments, grants, k) && k < |grants|
    ensures Fresh(segments, [grants[k]], 0) && Fresh(segments, grants, k + 1)
    ensures grants[k].Granted? ==> Fresh(segments + [grants[k].segment], grants, k + 1)
  {
  }

  /** Units for a later write are fresh still when the earlier one has taken its own. */
  lemma {:induction false} FreshLater(segments: seq<Segment>, grants: seq<Grant>, more: seq<Segment>,
                                      later: seq<Grant>)
    requires Fresh(segments, grants + later, 0) && Obtained(segments, grants, more)
    ensures Fresh(segments, grants, 0) && Fresh(more, later, 0)
  {
    var all, n := grants + later, |grants|;
    assert forall i :: 0 <= i < n ==> all[i] == grants[i];
    assert forall i :: 0 <= i < |later| ==> all[n + i] == later[i];
    forall i | 0 <= i < |later| && later[i].Granted?
      ensures later[i].segment.Valid() && later[i].segment !in more
    {
      assert all[n + i] == later[i];
    }
    forall i, j | 0 <= i < j < |later| && later[i].Granted?
      ensures later[i] != later[j]
    {
      assert all[n + i] == later[i] && all[n + j] == later[j];
    }
  }

  lemma {:induction false} FreshPrefix(segments: seq<Segment>, segments': seq<Segment>, grants: seq<Grant>)
    requires Fresh(segments, grants, 0) && segments' <= segments
    ensures Fresh(segments', grants, 0)
  {
  }
}
