/** The data cursor of a partition in motion: SPACE and LOCATE move the position, a rewind or load has the
    cursor recomputed, a write cuts the tape at the position and places what it appends behind the cursor. */
module DataCursor {
  import opened EntryBits
  import TapeScan
  import opened TapeMaps
  import opened TapeWriter
  import opened DataArea

  datatype Outcome = Written | Failed | Unflushed

  class Area {
    var segments: seq<Segment>
    var maps: seq<Map>
    var live: seq<Element>
    var g: nat
    var c: nat
    var cursor: Cursor
    /** The cursor is to be recomputed before it is used. */
    var lookup: bool

    /** The maps describe the live elements and the position is one of theirs. */
    ghost predicate Mapped()
      reads this
    {
      && NonEmpty(maps) && Flat(maps) == Kinds(live)
      && (if maps == [] then g == 0 && c == 0 else g < |maps| && c <= |maps[g]|)
    }

    /** What holds even when the cursor is behind live data. */
    ghost predicate Sane()
      reads this
    {
      && Laid(segments, live) && |segments| <= SEGMENT_LIMIT
      && Mapped() && (maps != [] ==> segments != [])
      && (!lookup ==> CursorInside(segments, cursor) && (maps != [] ==> cursor.At?))
    }

    /** The cursor, when it is used as it is, is past every live element. */
    ghost predicate Valid()
      reads this
    {
      Sane() && (!lookup ==> Past(live, cursor))
    }

    /** Elements before the position. */
    ghost function Position(): nat
      requires Mapped()
      reads this
    {
      if maps == [] then 0 else Offset(maps, g) + c
    }

    /** The elements before the position, which a write keeps. */
    ghost function Before(): seq<Element>
      requires Mapped()
      reads this
    {
      PositionInTape(maps, live, g, c);
      live[..Position()]
    }

    /** Their maps. */
    ghost function MapsBefore(): seq<Map>
      requires Mapped()
      reads this
    {
      CutAt(maps, g, c)
    }

    /** The cursor that a write starts from: the least place past those elements, when it is to be recomputed. */
    ghost function Start(): Cursor
      requires Mapped()
      reads this
    {
      if lookup then Resumed(segments, MapsBefore(), Before()) else cursor
    }

    predicate AtEnd()
      reads this
    {
      maps == [] || (g == |maps| - 1 && g < |maps| && c == |maps[g]|)
    }

    /** The position is the first of a map other than the first. */
    predicate AtLaterMap()
      reads this
    {
      maps != [] && g > 0 && c == 0
    }

    constructor ()
      ensures Valid() && live == [] && maps == [] && segments == [] && lookup
    {
      segments, maps, live, g, c, cursor, lookup := [], [], [], 0, 0, Unset, true;
    }

    /** SPACE, LOCATE and READ move the position and leave the cursor. */
    method Reposition(g': nat, c': nat)
      requires Sane() && g' < |maps| && c' <= |maps[g']|
      modifies `g, `c
      ensures Sane() && g == g' && c == c' && (old(Valid()) ==> Valid())
    {
      g, c := g', c';
    }

    /** Rewinding, like loading, has the cursor recomputed; no trust is put in its value. */
    method Rewind()
      requires Laid(segments, live) && |segments| <= SEGMENT_LIMIT && Mapped() && (maps != [] ==> segments != [])
      modifies `g, `c, `lookup
      ensures Valid() && g == 0 && c == 0 && lookup
    {
      g, c, lookup := 0, 0, true;
    }

    /** tape_partition_lookup_segments, at the end of the tape: the cursor from the stored word of the last
        element of the current map, which makes it the least place past the live data.  It fails when that map
        is empty and not the first. */
    method LookupSegments() returns (ok: bool)
      requires Sane() && AtEnd()
      modifies `cursor, `lookup
      ensures old(lookup) && ok ==> cursor == Resumed(segments, maps, live)
      ensures old(lookup) && ok && live != [] ==>
                cursor.At? && forall s: nat, x: nat :: Past(live, At(s, x)) ==>
                                s > cursor.segment || (s == cursor.segment && x >= cursor.cur)
      ensures Sane() && (old(Valid()) ==> Valid()) && (old(lookup) ==> Valid())
      ensures ok <==> !old(lookup) || !AtLaterMap()
      ensures ok ==> !lookup
      ensures !ok || !old(lookup) ==> cursor == old(cursor) && lookup == old(lookup)
    {
      hide Seg, Len, Flat, Kinds, NonEmpty, EndsBy, Ordered, Inside;
      if !lookup {
        return true;
      }
      EndOfMaps(maps, live);
      if maps == [] {
        cursor := Unset;
      } else if maps[g] != [] {
        var e := live[|live| - 1];
        LastIsPast(segments, live);
        cursor := At(Seg(e), e.start + Len(e));
        forall s: nat, x: nat | Past(live, At(s, x))
          ensures s > cursor.segment || (s == cursor.segment && x >= cursor.cur)
        {
          LastIsLeast(live, s, x);
        }
      } else if g > 0 {
        return false;
      } else {
        cursor := At(0, segments[0].base);
      }
      lookup := false;
      return true;
    }

    /** blk_map_write_eod, the maps: what is behind the position is gone. */
    method Cut()
      requires Sane() && maps != []
      modifies `live, `maps
      ensures Sane() && AtEnd() && (old(Valid()) ==> Valid())
      ensures live == old(Before()) && maps == Truncated(old(maps), g, c) != []
    {
      var n := Offset(maps, g) + c;
      CutMaps(maps, live, g, c);
      Prefix(segments, live, n);
      if Past(live, cursor) {
        PastPrefix(live, n, cursor);
      }
      hide Flat, Kinds, Truncated, Laid, Past, NonEmpty;
      maps, live := Truncated(maps, g, c), live[..n];
    }

    /** eod_segments behind the cursor: safe exactly when no live element lies in what is released. */
    method ReleaseRest()
      requires Sane() && !lookup && cursor.At?
      modifies `segments
      ensures segments == old(segments)[..old(cursor).segment + 1]
      ensures Sane() <==> forall i :: 0 <= i < |live| ==> Seg(live[i]) <= cursor.segment
      ensures old(Valid()) ==> Valid()
    {
      Released(segments, live, cursor.segment + 1);
      if Past(live, cursor) {
        PastIsHeld(live, cursor);
      }
      hide Past, Seg, Flat, Kinds;
      segments := segments[..cursor.segment + 1];
    }

    /** blk_map_overwrite_check: cut the tape at the position, release the segments past the cursor. */
    method Overwrite() returns (ok: bool)
      requires Sane()
      modifies `live, `maps, `segments, `cursor, `lookup
      ensures AtEnd()
      ensures live == old(Before()) && maps == old(MapsBefore())
      ensures segments <= old(segments)
      ensures ok <==> old(AtEnd()) || !old(lookup) || !AtLaterMap()
      ensures old(AtEnd()) ==> Sane() && segments == old(segments) && cursor == old(cursor) && lookup == old(lookup)
      ensures !old(AtEnd()) && ok ==> !lookup && cursor.At? && |segments| == cursor.segment + 1
      ensures !ok ==> segments == old(segments) && Sane()
      ensures old(Valid()) ==> Valid()
      ensures !old(AtEnd()) && ok ==> (Sane() <==> forall i :: 0 <= i < |live| ==> Seg(live[i]) <= cursor.segment)
      ensures !old(AtEnd()) && ok ==>
                cursor == (if old(lookup) then Resumed(old(segments), maps, live) else old(cursor))
    {
      PositionInTape(maps, live, g, c);
      hide Flat, Kinds, Truncated, Laid, Past, NonEmpty, Seg;
      if AtEnd() {
        return true;
      }
      ok := WriteEod();
    }

    /** blk_map_write_eod, where there is something behind the position. */
    method WriteEod() returns (ok: bool)
      requires Sane() && !AtEnd()
      modifies `live, `maps, `segments, `cursor, `lookup
      ensures AtEnd() && live == old(Before()) && maps == Truncated(old(maps), g, c)
      ensures ok <==> !old(lookup) || !AtLaterMap()
      ensures if ok then !lookup && cursor.At? && |segments| == cursor.segment + 1 && segments <= old(segments)
                         && (Sane() <==> forall i :: 0 <= i < |live| ==> Seg(live[i]) <= cursor.segment)
              else segments == old(segments) && Sane()
      ensures ok ==> cursor == (if old(lookup) then Resumed(old(segments), maps, live) else old(cursor))
      ensures old(Valid()) ==> Valid()
    {
      hide Flat, Kinds, Truncated, Laid, Past, NonEmpty, Seg;
      Cut();
      ok := LookupSegments();
      if ok {
        ReleaseRest();
      }
    }

    /** There is a cursor to place elements at, wherever the live ones are. */
    ghost predicate Ready()
      reads this
    {
      Distinct(segments) && CursorInside(segments, cursor)
    }

    /** tape_partition_alloc_segment: the next segment of the table, or a new unit behind the last. */
    method NextSegment(grant: Grant) returns (ok: bool)
      requires Ready() && Fresh(segments, [grant], 0)
      modifies `segments, `cursor
      ensures Ready()
      ensures !ok ==> segments == old(segments) && cursor == old(cursor)
      ensures ok <==> grant.Granted? || NextId(old(cursor)) < |old(segments)|
      ensures ok ==> NextId(old(cursor)) < |segments|
                     && cursor == At(NextId(old(cursor)), segments[NextId(old(cursor))].base)
      ensures segments == if NextId(old(cursor)) < |old(segments)| || grant.Refused? then old(segments)
                          else old(segments) + [grant.segment]
    {
      var id := NextId(cursor);
      if id == |segments| {
        if grant.Refused? {
          return false;
        }
        assert [grant][0] == grant;
        segments := segments + [grant.segment];
      }
      cursor := At(id, segments[id].base);
      return true;
    }

    /** tape_partition_check_data_segment: where the next element goes, and what is stored for it. */
    method Place(item: Item, grant: Grant) returns (ok: bool, e: Element)
      requires Ready() && |segments| < SEGMENT_LIMIT && Fresh(segments, [grant], 0) && Writable(item)
      modifies `segments, `cursor
      ensures Ready() && OnSegment(old(segments), old(cursor))
      ensures Standing(segments, cursor, ok) == Step(Standing(old(segments), old(cursor), true), item, grant)
      ensures segments == old(segments) || (grant.Granted? && segments == old(segments) + [grant.segment])
      ensures ok <==> NextPlace(old(segments), old(cursor), item, grant).At?
      ensures grant.Granted? ==> ok
      ensures !ok ==> segments == old(segments) && cursor == old(cursor)
      ensures ok ==> NextPlace(old(segments), old(cursor), item, grant)
                       == NextPlace(segments, old(cursor), item, Refused)
      ensures ok ==> && Inside(segments, e) && Kind(e) == KindOf(item) && (Len(e) > 0 <==> item.Record?)
                     && At(Seg(e), e.start) == NextPlace(old(segments), old(cursor), item, grant)
                     && cursor == At(Seg(e), e.start + Len(e))
      ensures ok ==> Follows(segments, old(cursor), item, e)
    {
      hide Seg, Len, Kind, Word, Need, Inside, Fresh, FitsHere, Follows;
      e := Element(0, Device(0, 0), 0);
      ok := Seek(item, grant);
      if ok {
        StillThere(old(segments), old(cursor), item, grant);
        e := Put(item);
        NextFollows(old(segments), segments, old(cursor), item, grant, e);
      }
    }

    /** Moving the cursor to where the item goes. */
    method Seek(item: Item, grant: Grant) returns (ok: bool)
      requires Ready() && |segments| < SEGMENT_LIMIT && Fresh(segments, [grant], 0) && Writable(item)
      modifies `segments, `cursor
      ensures Ready() && OnSegment(old(segments), old(cursor))
      ensures ok <==> NextPlace(old(segments), old(cursor), item, grant).At?
      ensures grant.Granted? ==> ok
      ensures !ok ==> segments == old(segments) && cursor == old(cursor)
      ensures ok ==> && cursor == NextPlace(old(segments), old(cursor), item, grant) && FitsHere(segments, cursor, item)
                     && segments == Supplied(old(segments), old(cursor), item, grant)
    {
      hide Need, Fresh;
      ok := true;
      if !FitsHere(segments, cursor, item) {
        ok := NextSegment(grant);
        if ok {
          FitsNext(segments, cursor, item);
        }
      }
    }

    /** The element that is stored at the cursor. */
    method Put(item: Item) returns (e: Element)
      requires Ready() && |segments| <= SEGMENT_LIMIT && cursor.At? && FitsHere(segments, cursor, item)
               && Writable(item)
      modifies `cursor
      ensures Ready() && Inside(segments, e) && Kind(e) == KindOf(item) && (Len(e) > 0 <==> item.Record?)
      ensures At(Seg(e), e.start) == old(cursor) && cursor == At(Seg(e), e.start + Len(e))
      ensures 9 <= e.device.shift <= 12 && Len(e) == Need(e.device.shift, item)
      ensures cursor == At(old(cursor).segment, old(cursor).cur
                             + Need(segments[old(cursor).segment].device.shift, item))
    {
      hide Seg, Len, Kind, Word, Need;
      var device := segments[cursor.segment].device;
      e := Element(Word(item, cursor.segment), device, cursor.cur);
      WordReadsBack(item, cursor.segment, device, cursor.cur);
      cursor := At(cursor.segment, cursor.cur + Need(device.shift, item));
    }

    /** The placing loop of blk_entries_write_insert. */
    method PlaceAll(items: seq<Item>, grants: seq<Grant>) returns (ok: bool, placed: seq<Element>)
      requires Ready() && |segments| + |items| <= SEGMENT_LIMIT
      requires |grants| == |items| && Fresh(segments, grants, 0) && forall i :: 0 <= i < |items| ==> Writable(items[i])
      modifies `segments, `cursor
      ensures Ready() && old(segments) <= segments && |segments| <= |old(segments)| + |items|
      ensures Laid(segments, placed) && |placed| <= |items| && (ok <==> |placed| == |items|)
      ensures Describes(placed, items) && PlacedFrom(placed, items, old(cursor)) && EndsAt(placed, cursor)
      ensures placed == [] ==> cursor == old(cursor)
      ensures placed != [] ==> FirstAt(segments, placed[0], NextPlace(old(segments), old(cursor), items[0], grants[0]))
      ensures (forall i :: 0 <= i < |grants| ==> grants[i].Granted?) ==> ok
      ensures Obtained(old(segments), grants, segments)
      ensures placed != [] ==>
                NextPlace(segments, old(cursor), items[0], Refused)
                  == NextPlace(old(segments), old(cursor), items[0], grants[0])
      ensures Standing(segments, cursor, ok) == Placing(old(segments), old(cursor), items, grants)
      ensures Packed(segments, old(cursor), items, placed)
    {
      hide Seg, Len, Kind, Fresh, Inside, Past, Ordered, FitsHere, From, Progress, Obtained, Writable, Need, Placing,
           Step, Packed, Follows;
      placed := [];
      PlacingNothing(segments, cursor, items, grants);
      ghost var start, held := cursor, segments;
      NoProgress(segments, items, cursor);
      NothingPacked(segments, cursor, items);
      ObtainedSelf(segments, grants);
      var k := 0;
      while k < |items|
        invariant 0 <= k == |placed| <= |items|
        invariant Ready() && held <= segments && |segments| <= |held| + k
        invariant Fresh(segments, grants, k) && Laid(segments, placed) && Obtained(held, grants, segments)
        invariant Progress(start, items, placed, cursor) && Packed(segments, start, items, placed)
        invariant Placing(held, start, items[..k], grants[..k]) == Standing(segments, cursor, true)
        invariant k == 0 ==> cursor == start && segments == held
        invariant k > 0 ==> At(Seg(placed[0]), placed[0].start) == NextPlace(held, start, items[0], grants[0])
        invariant k > 0 ==> NextPlace(segments, start, items[0], Refused) == NextPlace(held, start, items[0], grants[0])
      {
        ghost var before, at := segments, cursor;
        FreshStep(segments, grants, k);
        var e;
        ok, e := Place(items[k], grants[k]);
        PlacingStep(held, start, items, grants, k);
        if !ok {
          PlacingStops(held, start, items, grants, k + 1);
          ProgressMeans(start, items, placed, cursor);
          return;
        }
        Advance(before, segments, start, at, items, placed, e, grants[k]);
        ObtainedStep(held, grants, before, segments, k);
        if k > 0 {
          StillNext(before, segments, start, items[0]);
        }
        placed := placed + [e];
        k := k + 1;
      }
      ProgressMeans(start, items, placed, cursor);
      assert items[..k] == items && grants[..k] == grants;
      ok := true;
    }

    /** Adding placed elements to the tape: they are laid out behind the others exactly when none of those
        reaches past the first of them. */
    method Commit(items: seq<Item>, placed: seq<Element>, k: nat)
      requires Mapped() && AtEnd() && k <= |placed| && Describes(placed, items)
      modifies `live, `maps, `g, `c
      ensures Mapped() && AtEnd()
      ensures live == old(live) + placed[..k] && maps == Appends(old(maps), KindsOf(items)[..k])
      ensures maps == [] <==> old(maps) == [] && k == 0
    {
      MapsExtended(maps, live, items, placed, k);
      hide Flat, Kinds, KindsOf, Appends, NonEmpty;
      maps := Appends(maps, KindsOf(items)[..k]);
      live := live + placed[..k];
      g := if maps == [] then 0 else |maps| - 1;
      c := if maps == [] then 0 else |maps[g]|;
    }

    /** blk_entries_write_insert, with the cursor as it stands. */
    method Append(items: seq<Item>, grants: seq<Grant>, flushed: bool) returns (r: Outcome)
      requires Sane() && AtEnd() && !lookup && |segments| + |items| <= SEGMENT_LIMIT
      requires |grants| == |items| && Fresh(segments, grants, 0) && forall i :: 0 <= i < |items| ==> Writable(items[i])
      modifies this
      ensures (forall i :: 0 <= i < |grants| ==> grants[i].Granted?) ==> r != Failed
      ensures !lookup && old(segments) <= segments && Distinct(segments) && AtEnd()
              && Obtained(old(segments), grants, segments)
      ensures |segments| <= |old(segments)| + |items|
      ensures r == Failed ==> live == old(live) && maps == old(maps) && Sane() && (old(Valid()) ==> Valid())
      ensures r != Failed ==> (r == Unflushed <==> !flushed && Kept(old(maps), KindsOf(items)) < |items|)
      ensures var kept := Kept(old(maps), KindsOf(items));
              r != Failed ==> Extended(old(live), old(maps), items, if r == Written then |items| else kept, live, maps)
      ensures old(Valid()) && r == Written ==> Valid()
      ensures old(Valid()) && r == Unflushed ==>
                Sane() && (Valid() <==> OnlyMarks(items, Kept(old(maps), KindsOf(items))))
      ensures r == Unflushed ==> cursor == old(cursor)
      ensures r != Failed ==> PackedBehind(old(live), segments, old(cursor), items, live)
      ensures r == Written && items != [] ==> EndsAt(live, cursor)
      ensures segments == Placing(old(segments), old(cursor), items, grants).segments
      ensures r != Failed && |live| > |old(live)| ==>
                FirstGoes(old(segments), old(cursor), items[0], grants[0], segments, live[|old(live)|])
      ensures r == Written && items != [] ==>
                (Sane() <==> PastNext(old(live), old(segments), old(cursor), items[0], grants[0]))
    {
      hide Seg, Len, Kind, Fresh, Inside, Past, Ordered, FitsHere, Extended, Kept, Appends, Flat, Kinds, KindsOf,
           NextPlace, Follows, OnlyMarks, Describes, PlacedFrom, EndsAt, Obtained, Writable, Laid, NonEmpty, Placing,
           Packed;
      LaidDistinct(segments, live);
      var saved := cursor;
      var ok, placed := PlaceAll(items, grants);
      Grown(old(segments), segments, live);
      if !ok {
        GiveUp(saved);
        return Failed;
      }
      var kept := Kept(maps, KindsOf(items));
      if !flushed && kept < |items| {
        KeptSome(maps, KindsOf(items));
        PackedPrefix(segments, saved, items, placed, kept);
        PutBack(items, placed, kept, saved);
        return Unflushed;
      }
      FirstIsPast(live, placed, items, saved);
      Finish(items, placed);
      return Written;
    }

    /** No unit to be had: the cursor goes back to where it was; segments that were added stay. */
    method GiveUp(saved: Cursor)
      requires Mapped() && AtEnd() && !lookup && |segments| <= SEGMENT_LIMIT
               && (maps != [] ==> segments != [] && saved.At?)
      requires Laid(segments, live) && CursorInside(segments, saved)
      modifies `cursor
      ensures cursor == saved && Sane() && (Past(live, saved) ==> Valid())
    {
      cursor := saved;
    }

    /** The first half of a write: the tape is cut at the position and the cursor is where the write starts. */
    method Prepare() returns (ok: bool)
      requires Sane() && (Valid() || AtEnd())
      modifies `live, `maps, `segments, `cursor, `lookup
      ensures Sane() && AtEnd() && live == old(Before()) && maps == old(MapsBefore())
      ensures ok <==> !old(lookup && AtLaterMap())
      ensures ok ==> !lookup && cursor == old(Start())
      ensures segments <= old(segments) && (old(AtEnd()) ==> segments == old(segments))
      ensures old(Valid()) ==> Valid()
    {
      hide Flat, Kinds, Truncated, Laid, Past, NonEmpty, Seg, Resumed;
      PositionInTape(maps, live, g, c);
      ok := Overwrite();
      if ok {
        ok := LookupSegments();
      }
    }

    /** blk_map_write and blk_map_write_filemarks.  flushed: the maps that fill up could be written.  If not,
        the elements that went into the map that was current stay, and the cursor is put back. */
    method Write(items: seq<Item>, grants: seq<Grant>, flushed: bool) returns (r: Outcome)
      requires Sane() && (Valid() || AtEnd()) && |segments| + |items| <= SEGMENT_LIMIT
      requires |grants| == |items| && Fresh(segments, grants, 0) && forall i :: 0 <= i < |items| ==> Writable(items[i])
      modifies this
      ensures old(lookup && AtLaterMap()) ==> r == Failed
      ensures !old(lookup && AtLaterMap()) && (forall i :: 0 <= i < |grants| ==> grants[i].Granted?) ==> r != Failed
      ensures AtEnd()
      ensures r == Failed ==> live == old(Before()) && maps == old(MapsBefore())
      ensures r == Failed ==> Sane() && (old(Valid()) ==> Valid())
      ensures var ms := old(MapsBefore());
              var kept := Kept(ms, KindsOf(items));
              && (r != Failed ==> !lookup && (r == Unflushed <==> !flushed && kept < |items|))
              && (r != Failed ==>
                    Extended(old(Before()), ms, items, if r == Written then |items| else kept, live, maps))
              && (old(Valid()) && r == Unflushed ==> Sane() && (Valid() <==> OnlyMarks(items, kept)))
      ensures old(Valid()) && r == Written ==> Valid()
      ensures old(AtEnd()) && r != Failed ==> old(segments) <= segments
      ensures Obtained(old(segments), grants, segments) && |segments| <= |old(segments)| + |items|
      ensures old(AtEnd() && !lookup) && r == Unflushed ==> cursor == old(cursor)
      ensures old(AtEnd() && !lookup) && r != Failed && |live| > |old(live)| ==>
                FirstGoes(old(segments), old(cursor), items[0], grants[0], segments, live[|old(live)|])
      ensures old(AtEnd() && !lookup) && r == Written && items != [] ==>
                (Sane() <==> PastNext(old(live), old(segments), old(cursor), items[0], grants[0]))
      ensures r != Failed ==> PackedBehind(old(Before()), segments, old(Start()), items, live)
      ensures r == Written && items != [] ==> EndsAt(live, cursor)
      ensures r == Written && items != [] ==> maps != [] && Last(maps) != []
    {
      hide Seg, Len, Kind, Fresh, Inside, Past, Ordered, FitsHere, From, Extended, Kept, Appends, Flat, Kinds, KindsOf,
           OnlyMarks, Truncated, PackedBehind, EndsAt, Resumed, FirstGoes, PastNext, Writable, Laid;
      PositionInTape(maps, live, g, c);
      var ok := Prepare();
      if !ok {
        return Failed;
      }
      FreshPrefix(old(segments), segments, grants);
      assert old(AtEnd()) ==> live == old(live);
      r := Append(items, grants, flushed);
      WrittenMaps(live, maps, old(Before()), old(MapsBefore()), items);
    }

    /** Placed elements that have been written. */
    method Finish(items: seq<Item>, placed: seq<Element>)
      requires Mapped() && AtEnd() && !lookup && |segments| <= SEGMENT_LIMIT && (maps != [] ==> segments != [])
      requires Laid(segments, live) && Laid(segments, placed) && CursorInside(segments, cursor) && |placed| == |items|
      requires Describes(placed, items) && EndsAt(placed, cursor)
      requires placed == [] && maps != [] ==> cursor.At?
      modifies `live, `maps, `g, `c
      ensures AtEnd() && Extended(old(live), old(maps), items, |items|, live, maps)
      ensures placed != [] ==>
                (Sane() <==> Past(old(live), At(Seg(placed[0]), placed[0].start))) && (Sane() ==> Valid())
      ensures placed == [] && old(Past(live, cursor)) ==> Valid()
      ensures |live| == |old(live)| + |placed| && (placed != [] ==> live[|old(live)|] == placed[0])
      ensures live[|old(live)|..] == placed && (placed != [] ==> EndsAt(live, cursor))
    {
      ghost var was, ms := live, maps;
      hide Seg, Len, Kind, Past, Inside, Ordered, Extended, Appends, Flat, Kinds, KindsOf, From;
      Commit(items, placed, |items|);
      assert placed[..|items|] == placed;
      ExtendedBy(was, ms, items, placed, |items|, live, maps);
      FinishFacts(segments, was, placed);
      assert placed == [] ==> live == was;
    }

    /** Placed elements that have not: the first k stay, and the cursor goes back to where it was. */
    method PutBack(items: seq<Item>, placed: seq<Element>, k: nat, saved: Cursor)
      requires Mapped() && AtEnd() && !lookup && |segments| <= SEGMENT_LIMIT
               && (maps != [] ==> segments != [] && saved.At?)
      requires Laid(segments, live) && Laid(segments, placed) && CursorInside(segments, saved)
      requires k < |placed| == |items| && (maps == [] ==> k == 0)
      requires Describes(placed, items) && PlacedFrom(placed, items, saved)
      modifies `live, `maps, `g, `c, `cursor
      ensures AtEnd() && Extended(old(live), old(maps), items, k, live, maps) && cursor == saved
      ensures Past(old(live), saved) ==> Sane() && (Valid() <==> OnlyMarks(items, k))
      ensures |live| == |old(live)| + k && (k > 0 ==> live[|old(live)|] == placed[0])
      ensures live[|old(live)|..] == placed[..k]
    {
      hide Seg, Len, Kind, Inside, Ordered, Extended, Appends, Flat, Kinds, KindsOf, Past, OnlyMarks, Describes,
           PlacedFrom;
      ghost var was, ms := live, maps;
      PutBackFacts(segments, live, items, placed, k, saved);
      Commit(items, placed, k);
      ExtendedBy(was, ms, items, placed, k, live, maps);
      cursor := saved;
    }
  }

  lemma {:induction false} WrittenMaps(live: seq<Element>, ms: seq<Map>, was: seq<Element>, before: seq<Map>,
                                       items: seq<Item>)
    ensures Extended(was, before, items, |items|, live, ms) && items != [] ==> ms != [] && Last(ms) != []
  {
    hide Kind, Appends;
    assert KindsOf(items)[..|items|] == KindsOf(items);
    AppendsAll(before, KindsOf(items));
  }

  /** Rewinding the tape a write has left and coming back to its end: the cursor is the one the write left. */
  method ComeBack(a: Area) returns (ok: bool)
    requires a.Valid() && a.AtEnd() && !a.lookup && a.maps != [] && Last(a.maps) != [] && EndsAt(a.live, a.cursor)
    modifies a`g, a`c, a`cursor, a`lookup
    ensures ok && a.Valid() && !a.lookup && a.cursor == old(a.cursor) && a.g == old(a.g) && a.c == old(a.c)
  {
    EndOfMaps(a.maps, a.live);
    hide Flat, Kinds, Past, Laid, NonEmpty;
    a.Rewind();
    a.Reposition(|a.maps| - 1, |a.maps[|a.maps| - 1]|);
    ok := a.LookupSegments();
  }

  lemma {:induction false} BeforeAtEnd(a: Area)
    requires a.Mapped() && a.AtEnd()
    ensures a.Before() == a.live && a.MapsBefore() == a.maps
  {
    PositionInTape(a.maps, a.live, a.g, a.c);
    hide Flat, Kinds, NonEmpty, Offset, Truncated;
  }

  lemma {:induction false} SecondPacked(segments: seq<Segment>, more: seq<Segment>, c: Cursor, items: seq<Item>,
                                        items': seq<Item>, n: nat, first: seq<Element>, live: seq<Element>,
                                        c': Cursor)
    requires n < |first| <= |live| && live[..|first|] == first && segments <= more && |first| - n == |items|
    requires OnSegment(segments, c) && Laid(segments, first) && Packed(segments, c, items, first[n..])
    requires Packed(more, c', items', live[|first|..]) && EndsAt(first, c')
    ensures Packed(more, c, items + items', live[n..])
  {
    hide Packed, Inside, Ordered, OnSegment;
    var placed := first[n..];
    forall i | 0 <= i < |placed|
      ensures Inside(segments, placed[i])
    {
      assert placed[i] == first[n + i];
    }
    PackedGrown(segments, more, c, items, placed);
    PackedOn(more, c, items, placed, items', live[|first|..]);
    assert live[n..] == placed + live[|first|..];
  }

  /** A rewind, the way back to the end, and a write: it goes on where the write before has ended. */
  method WriteOn(a: Area, items: seq<Item>, grants: seq<Grant>) returns (r: Outcome)
    requires a.Valid() && a.AtEnd() && !a.lookup && a.maps != [] && Last(a.maps) != [] && EndsAt(a.live, a.cursor)
    requires |a.segments| + |items| <= SEGMENT_LIMIT && |grants| == |items| && Fresh(a.segments, grants, 0)
    requires forall i :: 0 <= i < |items| ==> Writable(items[i])
    modifies a
    ensures r != Failed ==> && old(a.segments) <= a.segments && PackedBehind(old(a.live), a.segments, old(a.cursor),
                                                                             items, a.live)
                            && |old(a.live)| <= |a.live| && a.live[..|old(a.live)|] == old(a.live)
  {
    hide Writable, Packed, Fresh, Flat, Kinds, KindsOf, Past, Laid, NonEmpty, Appends, Obtained, Kept, OnlyMarks,
         FirstGoes, PastNext, Truncated;
    EndOfMaps(a.maps, a.live);
    a.Rewind();
    a.Reposition(|a.maps| - 1, |a.maps[|a.maps| - 1]|);
    BeforeAtEnd(a);
    r := a.Write(items, grants, true);
  }

  /** Two writes with a rewind between them: the tape is laid out as if they had been one. */
  method WriteTwice(a: Area, items: seq<Item>, grants: seq<Grant>, items': seq<Item>, grants': seq<Grant>)
      returns (r: Outcome, r': Outcome)
    requires a.Valid() && a.AtEnd() && !a.lookup && items != []
    requires |a.segments| + |items| + |items'| <= SEGMENT_LIMIT && |grants| == |items| && |grants'| == |items'|
    requires Fresh(a.segments, grants + grants', 0)
    requires forall i :: 0 <= i < |items| ==> Writable(items[i])
    requires forall i :: 0 <= i < |items'| ==> Writable(items'[i])
    modifies a
    ensures r == Written && r' != Failed ==>
              && |old(a.live)| <= |a.live| && a.live[..|old(a.live)|] == old(a.live)
              && PackedBehind(old(a.live), a.segments, old(a.cursor), items + items', a.live)
  {
    hide Writable, Packed, Fresh, Flat, Kinds, KindsOf, Past, Laid, NonEmpty, Appends, EndsAt, Obtained, Kept,
         OnlyMarks, FirstGoes, PastNext, Truncated;
    BeforeAtEnd(a);
    FreshLater(a.segments, grants, a.segments, grants');
    LaidDistinct(a.segments, a.live);
    r := a.Write(items, grants, true);
    r' := Failed;
    if r == Written {
      FreshLater(old(a.segments), grants, a.segments, grants');
      ghost var first, segments, n, at := a.live, a.segments, |old(a.live)|, a.cursor;
      r' := WriteOn(a, items', grants');
      if r' != Failed {
        SecondPacked(segments, a.segments, old(a.cursor), items, items', n, first, a.live, at);
      }
    }
  }

  lemma {:induction false} PutBackFacts(segments: seq<Segment>, live: seq<Element>, items: seq<Item>,
                                        placed: seq<Element>, k: nat, c: Cursor)
    requires Laid(segments, live) && Laid(segments, placed) && k <= |placed| <= |items| && (c.Unset? ==> k == 0)
    requires Describes(placed, items) && PlacedFrom(placed, items, c)
    ensures Past(live, c) ==>
              Laid(segments, live + placed[..k]) && (Past(live + placed[..k], c) <==> OnlyMarks(items, k))
  {
    hide Seg, Len, Kind, KindOf;
    Joined(segments, live, placed, k, c);
    PastAppend(live, placed[..k], c);
    if c.At? {
      MarksStayBehind(items, placed, k, c);
    }
  }

  lemma {:induction false} StillThere(segments: seq<Segment>, c: Cursor, item: Item, grant: Grant)
    requires OnSegment(segments, c) && NextPlace(segments, c, item, grant).At?
    ensures var more := Supplied(segments, c, item, grant);
            OnSegment(more, c) && NextPlace(segments, c, item, grant) == NextPlace(more, c, item, Refused)
  {
    hide Need;
  }

  /** At the start of a segment every item fits. */
  lemma {:induction false} FitsNext(segments: seq<Segment>, c: Cursor, item: Item)
    requires Distinct(segments) && c.At? && c.segment < |segments| && c.cur == segments[c.segment].base
             && Writable(item)
    ensures FitsHere(segments, c, item)
  {
    FitsUnit(segments[c.segment].device.shift, item);
  }

  /** How far placing has come: what is placed, from where on, and the cursor behind it. */
  ghost predicate Progress(start: Cursor, items: seq<Item>, placed: seq<Element>, c: Cursor) {
    && Describes(placed, items) && PlacedFrom(placed, items, start) && EndsAt(placed, c)
    && Behind(start, c) && (placed != [] ==> Past(placed, c))
    && (start.At? && OnlyMarks(items, |placed|) ==> c == start)
  }

  lemma {:induction false} PlacingNothing(segments: seq<Segment>, c: Cursor, items: seq<Item>, grants: seq<Grant>)
    ensures Placing(segments, c, items[..0], grants[..0]) == Standing(segments, c, true)
  {
  }

  lemma {:induction false} NothingPacked(segments: seq<Segment>, c: Cursor, items: seq<Item>)
    ensures Packed(segments, c, items, [])
  {
  }

  /** One more element packed, on segments that may have grown for it. */
  lemma {:induction false} PackedMore(segments: seq<Segment>, more: seq<Segment>, start: Cursor, c: Cursor,
                                      items: seq<Item>, placed: seq<Element>, e: Element)
    requires Packed(segments, start, items, placed) && |placed| < |items| && Laid(segments, placed)
    requires segments <= more && (placed == [] ==> c == start)
    requires OnSegment(segments, start) && EndsAt(placed, c) && Follows(more, c, items[|placed|], e)
    ensures Packed(more, start, items, placed + [e])
  {
    hide Follows, Inside, Ordered, OnSegment;
    if placed != [] {
      PackedGrown(segments, more, start, items, placed);
    } else {
      NothingPacked(more, start, items);
    }
    PackedStep(more, start, items, placed, e);
  }

  lemma {:induction false} NoProgress(segments: seq<Segment>, items: seq<Item>, c: Cursor)
    requires Distinct(segments)
    ensures Laid(segments, []) && Progress(c, items, [], c)
  {
  }

  lemma {:induction false} ProgressMeans(start: Cursor, items: seq<Item>, placed: seq<Element>, c: Cursor)
    requires Progress(start, items, placed, c)
    ensures Describes(placed, items) && PlacedFrom(placed, items, start) && EndsAt(placed, c)
  {
  }

  lemma {:induction false} ProgressStep(segments: seq<Segment>, start: Cursor, items: seq<Item>, placed: seq<Element>,
                                        c: Cursor, e: Element)
    requires Progress(start, items, placed, c) && |placed| < |items| && (placed == [] ==> c == start)
    requires Laid(segments, placed) && Inside(segments, e) && From(e, c)
    requires items[|placed|].Mark? && c.At? ==> At(Seg(e), e.start) == c
    requires Kind(e) == KindOf(items[|placed|]) && (Len(e) > 0 <==> items[|placed|].Record?)
    ensures Laid(segments, placed + [e]) && Progress(start, items, placed + [e], At(Seg(e), e.start + Len(e)))
  {
    hide Seg, Len, Kind, KindOf, Inside, From, Past, Ordered, EndsBy, Describes, PlacedFrom;
    StepBehind(start, c, e);
    if placed == [] {
      NothingIsPast(segments, e);
    } else {
      Snoc(segments, placed, c, e);
    }
    DescribesStep(placed, items, e);
    PlacedFromStep(placed, items, start, e);
    assert OnlyMarks(items, |placed| + 1) ==> OnlyMarks(items, |placed|) && items[|placed|].Mark?;
  }

  /** The loop's invariants once one more element has its place. */
  lemma {:induction false} Advance(before: seq<Segment>, segments: seq<Segment>, start: Cursor, c: Cursor,
                                   items: seq<Item>, placed: seq<Element>, e: Element, grant: Grant)
    requires Progress(start, items, placed, c) && Packed(before, start, items, placed) && Laid(before, placed)
    requires before <= segments && Distinct(segments) && |placed| < |items| && (placed == [] ==> c == start)
    requires OnSegment(before, start) && OnSegment(before, c) && Inside(segments, e)
    requires At(Seg(e), e.start) == NextPlace(before, c, items[|placed|], grant)
    requires Kind(e) == KindOf(items[|placed|]) && (Len(e) > 0 <==> items[|placed|].Record?)
    requires Follows(segments, c, items[|placed|], e)
    ensures Laid(segments, placed) && Laid(segments, placed + [e])
    ensures Progress(start, items, placed + [e], At(Seg(e), e.start + Len(e)))
    ensures Packed(segments, start, items, placed + [e])
  {
    hide Seg, Len, Kind, KindOf, Inside, From, Past, Ordered, FitsHere, NextPlace, Progress, Packed, Follows, Laid;
    NextIsFrom(before, c, items[|placed|], grant, e);
    LaidDistinct(before, placed);
    Grown(before, segments, placed);
    ProgressMeans(start, items, placed, c);
    PackedMore(before, segments, start, c, items, placed, e);
    ProgressStep(segments, start, items, placed, c, e);
  }

  lemma {:induction false} DescribesStep(placed: seq<Element>, items: seq<Item>, e: Element)
    requires Describes(placed, items) && |placed| < |items|
    requires Kind(e) == KindOf(items[|placed|]) && (Len(e) > 0 <==> items[|placed|].Record?)
    ensures Describes(placed + [e], items)
  {
    hide Len, Kind, KindOf;
  }

  lemma {:induction false} PlacedFromStep(placed: seq<Element>, items: seq<Item>, start: Cursor, e: Element)
    requires PlacedFrom(placed, items, start) && |placed| < |items| && From(e, start)
    requires start.At? && OnlyMarks(items, |placed| + 1) ==> At(Seg(e), e.start) == start
    ensures PlacedFrom(placed + [e], items, start)
  {
    hide Seg, From, OnlyMarks;
  }

  lemma {:induction false} ObtainedSelf(segments: seq<Segment>, grants: seq<Grant>)
    ensures Obtained(segments, grants, segments)
  {
  }

  lemma {:induction false} ObtainedStep(held: seq<Segment>, grants: seq<Grant>, before: seq<Segment>,
                                        segments: seq<Segment>, k: nat)
    requires Obtained(held, grants, before) && k < |grants|
    requires segments == before || (grants[k].Granted? && segments == before + [grants[k].segment])
    ensures Obtained(held, grants, segments)
  {
    assert grants[k] in grants;
  }

  lemma {:induction false} FinishFacts(segments: seq<Segment>, live: seq<Element>, placed: seq<Element>)
    requires Laid(segments, live) && Laid(segments, placed)
    ensures placed != [] ==>
              segments != [] && (Laid(segments, live + placed) <==> Past(live, At(Seg(placed[0]), placed[0].start)))
    ensures placed != [] && Laid(segments, live + placed) ==>
              Past(live + placed, At(Seg(placed[|placed| - 1]), placed[|placed| - 1].start + Len(placed[|placed| - 1])))
  {
    if placed != [] {
      assert Inside(segments, placed[0]);
      Joined(segments, live, placed, |placed|, Unset);
      assert placed[..|placed|] == placed;
    }
  }

  lemma {:induction false} FirstIsPast(live: seq<Element>, placed: seq<Element>, items: seq<Item>, c: Cursor)
    requires PlacedFrom(placed, items, c)
    ensures placed != [] && Past(live, c) ==> Past(live, At(Seg(placed[0]), placed[0].start))
  {
    hide Seg, Len;
    if placed != [] && Past(live, c) {
      PastFrom(live, c, placed[0]);
    }
  }

  lemma {:induction false} LaidDistinct(segments: seq<Segment>, live: seq<Element>)
    requires Laid(segments, live)
    ensures Distinct(segments)
  {
  }

  lemma {:induction false} KeptSome(ms: seq<Map>, bs: seq<TapeScan.Block>)
    ensures ms == [] ==> Kept(ms, bs) == 0
  {
  }

  /** Each element is what is stored for its item. */
  ghost predicate Describes(placed: seq<Element>, items: seq<Item>) {
    && |placed| <= |items|
    && forall i :: 0 <= i < |placed| ==>
                     Kind(placed[i]) == KindOf(items[i]) && (Len(placed[i]) > 0 <==> items[i].Record?)
  }

  /** The elements lie from the cursor on, marks at its place until a block moves it. */
  ghost predicate PlacedFrom(placed: seq<Element>, items: seq<Item>, c: Cursor) {
    && |placed| <= |items|
    && (forall i :: 0 <= i < |placed| ==> From(placed[i], c))
    && (c.At? ==> forall i :: 0 <= i < |placed| && OnlyMarks(items, i + 1) ==> At(Seg(placed[i]), placed[i].start) == c)
  }

  /** What is behind the elements there were is packed from the cursor on. */
  ghost predicate PackedBehind(was: seq<Element>, segments: seq<Segment>, c: Cursor, items: seq<Item>,
                               live: seq<Element>) {
    |was| <= |live| && Packed(segments, c, items, live[|was|..])
  }

  /** The cursor stands behind the last element. */
  ghost predicate EndsAt(placed: seq<Element>, c: Cursor) {
    placed != [] ==> c == At(Seg(placed[|placed| - 1]), placed[|placed| - 1].start + Len(placed[|placed| - 1]))
  }

  /** The cursor that the tape itself gives: the end of the last element, or the start of the first segment. */
  ghost function Resumed(segments: seq<Segment>, ms: seq<Map>, live: seq<Element>): Cursor {
    if live != [] then EndOf(live[|live| - 1])
    else if ms == [] || segments == [] then Unset
    else At(0, segments[0].base)
  }

  /** The tape after k of the items have been added to it. */
  ghost predicate Extended(live: seq<Element>, ms: seq<Map>, items: seq<Item>, k: nat, live': seq<Element>,
                           ms': seq<Map>) {
    && k <= |items| && |live'| == |live| + k && live'[..|live|] == live && ms' == Appends(ms, KindsOf(items)[..k])
    && (forall i :: 0 <= i < k ==>
                      Kind(live'[|live| + i]) == KindOf(items[i]) && (Len(live'[|live| + i]) > 0 <==> items[i].Record?))
  }

  ghost predicate FirstAt(segments: seq<Segment>, e: Element, place: Cursor) {
    Distinct(segments) && Inside(segments, e) && At(Seg(e), e.start) == place
  }

  /** The element is where an item was to go, which is still so with the segments that have been added. */
  ghost predicate FirstGoes(segments: seq<Segment>, c: Cursor, item: Item, grant: Grant, more: seq<Segment>,
                            e: Element) {
    && OnSegment(segments, c) && OnSegment(more, c) && FirstAt(more, e, NextPlace(segments, c, item, grant))
    && NextPlace(more, c, item, Refused) == NextPlace(segments, c, item, grant)
  }

  /** No live element reaches past the place where an item goes. */
  ghost predicate PastNext(live: seq<Element>, segments: seq<Segment>, c: Cursor, item: Item, grant: Grant) {
    OnSegment(segments, c) && Past(live, NextPlace(segments, c, item, grant))
  }

  lemma {:induction false} ExtendedBy(live: seq<Element>, ms: seq<Map>, items: seq<Item>, placed: seq<Element>, k: nat,
                                      live': seq<Element>, ms': seq<Map>)
    requires Describes(placed, items) && k <= |placed| && live' == live + placed[..k]
             && ms' == Appends(ms, KindsOf(items)[..k])
    ensures Extended(live, ms, items, k, live', ms')
  {
    hide Kind, Len, Appends, KindsOf, KindOf;
    assert forall i :: 0 <= i < k ==> live'[|live| + i] == placed[i];
  }

  lemma {:induction false} MapsExtended(ms: seq<Map>, live: seq<Element>, items: seq<Item>, placed: seq<Element>,
                                        k: nat)
    requires NonEmpty(ms) && Flat(ms) == Kinds(live) && k <= |placed| && Describes(placed, items)
    ensures var ns := Appends(ms, KindsOf(items)[..k]);
            NonEmpty(ns) && Flat(ns) == Kinds(live + placed[..k]) && (ns == [] <==> ms == [] && k == 0)
  {
    var bs := KindsOf(items)[..k];
    AppendsAll(ms, bs);
    KindsExtended(live, items, placed, k);
    hide Kind, KindOf, Flat, Appends, NonEmpty, Kinds, KindsOf, Describes;
  }

  lemma {:induction false} KindsExtended(live: seq<Element>, items: seq<Item>, placed: seq<Element>, k: nat)
    requires k <= |placed| && Describes(placed, items)
    ensures Kinds(live) + KindsOf(items)[..k] == Kinds(live + placed[..k])
  {
    hide Kind, KindOf, Len;
  }

  /** What the first k placed elements do to the layout, from a cursor that they were placed from. */
  lemma {:induction false} Joined(segments: seq<Segment>, live: seq<Element>, placed: seq<Element>, k: nat, c: Cursor)
    requires Laid(segments, live) && Laid(segments, placed) && k <= |placed|
    requires forall i :: 0 <= i < |placed| ==> From(placed[i], c)
    ensures Past(live, c) ==> Laid(segments, live + placed[..k])
    ensures k == |placed| > 0 ==>
              (Laid(segments, live + placed[..k]) <==> Past(live, At(Seg(placed[0]), placed[0].start)))
    ensures k == |placed| > 0 && Laid(segments, live + placed[..k]) ==>
              Past(live + placed[..k], At(Seg(placed[k - 1]), placed[k - 1].start + Len(placed[k - 1])))
  {
    hide Seg, Len;
    Prefix(segments, placed, k);
    if k == 0 {
      assert live + placed[..k] == live;
    } else {
      Join(segments, live, placed[..k]);
      if Past(live, c) {
        PastFrom(live, c, placed[0]);
      }
      if Laid(segments, live + placed[..k]) {
        LastIsPast(segments, live + placed[..k]);
      }
    }
  }

  lemma {:induction false} PastFrom(live: seq<Element>, c: Cursor, e: Element)
    requires Past(live, c) && From(e, c)
    ensures Past(live, At(Seg(e), e.start))
  {
    hide Seg, Len;
    forall i | 0 <= i < |live|
      ensures EndsBy(live[i], Seg(e), e.start)
    {
      assert c.At? && EndsBy(live[i], c.segment, c.cur);
    }
  }

  /** The maps that a write at element c of map g starts from. */
  function CutAt(ms: seq<Map>, g: nat, c: nat): seq<Map>
    requires ms == [] || (g < |ms| && c <= |ms[g]|)
  {
    if ms == [] || (g == |ms| - 1 && c == |ms[g]|) then ms else Truncated(ms, g, c)
  }

  /** Cursor d is not before cursor c. */
  predicate Behind(c: Cursor, d: Cursor) {
    c.At? ==> d.At? && (d.segment > c.segment || (d.segment == c.segment && d.cur >= c.cur))
  }

  lemma {:induction false} StepBehind(c: Cursor, d: Cursor, e: Element)
    requires Behind(c, d) && From(e, d)
    ensures From(e, c) && Behind(c, At(Seg(e), e.start + Len(e)))
  {
    hide Seg, Len;
  }

  /** The next place, once it is there, stays the same as segments are added. */
  lemma {:induction false} StillNext(segments: seq<Segment>, more: seq<Segment>, c: Cursor, item: Item)
    requires c.At? ==> c.segment < |segments| && 9 <= segments[c.segment].device.shift <= 12
    requires segments <= more && NextPlace(segments, c, item, Refused).At?
    ensures NextPlace(segments, c, item, Refused) == NextPlace(more, c, item, Refused)
  {
    hide Need;
  }

  lemma {:induction false} NothingIsPast(segments: seq<Segment>, e: Element)
    requires Distinct(segments) && Inside(segments, e)
    ensures Laid(segments, [] + [e]) && Past([] + [e], At(Seg(e), e.start + Len(e)))
  {
    hide Seg, Len;
  }

  lemma {:induction false} EndOfMaps(ms: seq<Map>, live: seq<Element>)
    requires NonEmpty(ms) && Flat(ms) == Kinds(live)
    ensures ms == [] ==> live == []
    ensures ms != [] && Last(ms) != [] ==> live != []
    ensures |ms| == 1 && Last(ms) == [] ==> live == []
  {
    assert |live| == |Kinds(live)| == |Flat(ms)|;
    if ms != [] {
      assert Flat(ms) == FlatTo(ms, |ms| - 1) + Last(ms);
    }
  }

  lemma {:induction false} PositionInTape(ms: seq<Map>, live: seq<Element>, g: nat, c: nat)
    requires Flat(ms) == Kinds(live)
    requires if ms == [] then g == 0 && c == 0 else g < |ms| && c <= |ms[g]|
    ensures ms == [] ==> live == []
    ensures ms != [] ==> Offset(ms, g) + c <= |live|
    ensures ms != [] && g == |ms| - 1 && c == |ms[g]| ==> Offset(ms, g) + c == |live|
  {
    assert |live| == |Kinds(live)| == |Flat(ms)|;
    if ms != [] {
      StretchOfMap(ms, g);
    }
  }

  lemma {:induction false} CutMaps(ms: seq<Map>, live: seq<Element>, g: nat, c: nat)
    requires NonEmpty(ms) && Flat(ms) == Kinds(live) && g < |ms| && c <= |ms[g]|
    ensures Offset(ms, g) + c <= |live|
    ensures var ns := Truncated(ms, g, c);
            && NonEmpty(ns) && |ns| == g + 1 && |ns[g]| == c
            && Flat(ns) == Kinds(live[..Offset(ms, g) + c])
  {
    TruncateKeepsPrefix(ms, g, c);
    EmptyAfterCut(ms, g, c);
    var n := Offset(ms, g) + c;
    assert |live| == |Kinds(live)|;
    assert Kinds(live)[..n] == Kinds(live[..n]);
  }
}
