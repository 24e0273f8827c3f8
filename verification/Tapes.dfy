/** Tapes of one library: every partition writes its own data, into units that all of them draw from one pool. */
module Tapes {
  import opened Units
  import opened EntryBits
  import opened Allocator
  import opened Disks
  import opened Pools
  import opened TapeMaps
  import opened TapeWriter
  import opened DataArea
  import opened DataCursor
  import opened Libraries

  /** The segments of a partition are the units it holds, in order. */
  ghost predicate Backed(bids: map<Disk, nat>, segments: seq<Segment>, units: seq<Holding>) {
    && |segments| == |units|
    && forall i :: 0 <= i < |units| ==>
         units[i].disk in bids && 9 <= units[i].disk.shift <= 12 && segments[i] == SegmentOf(bids, units[i])
  }

  /** No unit twice. */
  ghost predicate Separate(units: seq<Holding>) {
    forall i, j :: 0 <= i < j < |units| ==> units[i] != units[j]
  }

  /** What a partition holds in the library is what its table lists. */
  ghost predicate Lists(held: set<Holding>, units: seq<Holding>) {
    Separate(units) && (forall h :: h in held ==> h in units) && (forall i :: 0 <= i < |units| ==> units[i] in held)
  }

  lemma {:induction false} ListsMore(held: set<Holding>, units: seq<Holding>, h: Holding)
    requires Lists(held, units) && h !in held
    ensures Lists(held + {h}, units + [h])
  {
  }

  lemma {:induction false} ListsFewer(held: set<Holding>, units: seq<Holding>)
    requires Lists(held, units) && units != []
    ensures Lists(held - {units[|units| - 1]}, units[..|units| - 1]) && units[|units| - 1] in held
  {
    var n := |units| - 1;
    forall h | h in units && h != units[n]
      ensures h in units[..n]
    {
      var i :| 0 <= i < |units| && units[i] == h;
      assert units[..n][i] == h;
    }
  }

  /** How the reads, writes and discards of one release turn out. */
  datatype Io = Io(readOk: bool, writeOk: bool, unmapOk: bool)

  /** The segments granted, in order. */
  function Segs(grants: seq<Grant>): seq<Segment> {
    if grants == [] then []
    else
      var n := |grants| - 1;
      Segs(grants[..n]) + if grants[n].Granted? then [grants[n].segment] else []
  }

  lemma {:induction false} InSegs(grants: seq<Grant>, i: nat)
    requires i < |grants| && grants[i].Granted?
    ensures grants[i].segment in Segs(grants)
    decreases |grants|
  {
    var n := |grants| - 1;
    if i < n {
      assert grants[..n][i] == grants[i];
      InSegs(grants[..n], i);
    }
  }

  /** Grants that make one table of different units are fresh. */
  lemma {:induction false} FreshGrants(segments: seq<Segment>, grants: seq<Grant>)
    requires Distinct(segments + Segs(grants))
    ensures Fresh(segments, grants, 0)
    decreases |grants|
  {
    if grants != [] {
      var n := |grants| - 1;
      var g := grants[n];
      assert grants == grants[..n] + [g];
      var front := segments + Segs(grants[..n]);
      assert segments + Segs(grants) == front + if g.Granted? then [g.segment] else [];
      hide Segs, Fresh;
      DistinctSnoc(front, if g.Granted? then [g.segment] else []);
      FreshGrants(segments, grants[..n]);
      if g.Granted? {
        NotGranted(segments, grants[..n], g.segment);
      }
      FreshSnoc(segments, grants[..n], g);
    }
  }

  lemma {:induction false} DistinctSnoc(front: seq<Segment>, more: seq<Segment>)
    requires Distinct(front + more) && |more| <= 1
    ensures Distinct(front) && (more != [] ==> more[0].Valid() && more[0] !in front)
  {
    var all := front + more;
    assert forall i :: 0 <= i < |front| ==> all[i] == front[i];
    assert more != [] ==> all[|front|] == more[0];
  }

  lemma {:induction false} NotGranted(segments: seq<Segment>, grants: seq<Grant>, segment: Segment)
    requires segment !in segments + Segs(grants)
    ensures segment !in segments && forall i :: 0 <= i < |grants| ==> grants[i] != Granted(segment)
  {
    forall i | 0 <= i < |grants| && grants[i].Granted?
      ensures grants[i].segment in segments + Segs(grants)
    {
      InSegs(grants, i);
    }
  }

  lemma {:induction false} FreshSnoc(segments: seq<Segment>, grants: seq<Grant>, g: Grant)
    requires Fresh(segments, grants, 0)
    requires g.Granted? ==> g.segment.Valid() && g.segment !in segments
                            && forall i :: 0 <= i < |grants| ==> grants[i] != g
    ensures Fresh(segments, grants + [g], 0)
  {
  }

  /** Different units make a table of different segments. */
  lemma {:induction false} BackedDistinct(library: Library, q: nat, segments: seq<Segment>, units: seq<Holding>)
    requires library.Valid() && q < |library.held| && Lists(library.held[q], units)
             && Backed(library.bids, segments, units)
    ensures Distinct(segments)
  {
    forall i | 0 <= i < |segments|
      ensures segments[i].Valid()
    {
      SegmentIsValid(library.bids, units[i]);
    }
    forall i, j | 0 <= i < j < |segments|
      ensures segments[i] != segments[j]
    {
      NeverShared(library, q, q, units[i], units[j]);
    }
  }

  /** The rows but one are as before. */
  ghost predicate OtherRows(before: seq<seq<Holding>>, q: nat, after: seq<seq<Holding>>) {
    q < |before| == |after| && forall r :: 0 <= r < |before| && r != q ==> after[r] == before[r]
  }

  /** What a write leaves live: the elements before it and the items, those that fit the current map if the maps
      could not be flushed, or none. */
  ghost predicate After(r: Outcome, before: seq<Element>, ms: seq<Map>, items: seq<Item>, flushed: bool,
                        live: seq<Element>, ms': seq<Map>) {
    var kept := Kept(ms, KindsOf(items));
    if r == Failed then live == before && ms' == ms
    else (r == Unflushed <==> !flushed && kept < |items|)
         && Extended(before, ms, items, if r == Written then |items| else kept, live, ms')
  }

  lemma {:induction false} NothingAfter(live: seq<Element>, ms: seq<Map>, items: seq<Item>, flushed: bool)
    ensures After(Failed, live, ms, items, flushed, live, ms)
  {
  }

  ghost predicate Blank(a: Area)
    reads a
  {
    a.Valid() && a.segments == [] && a.live == []
  }

  lemma {:induction false} BlankIsSane(a: Area)
    requires Blank(a)
    ensures a.Sane() && a.Valid()
  {
  }

  method BlankAreas(n: nat) returns (areas: seq<Area>)
    ensures |areas| == n && forall q :: 0 <= q < n ==> fresh(areas[q]) && Blank(areas[q])
    ensures forall q, r :: 0 <= q < r < n ==> areas[q] != areas[r]
  {
    hide Area.Valid, Area.Sane;
    areas := [];
    while |areas| < n
      invariant |areas| <= n && forall q :: 0 <= q < |areas| ==> fresh(areas[q]) && Blank(areas[q])
      invariant forall q, r :: 0 <= q < r < |areas| ==> areas[q] != areas[r]
    {
      var a := new Area();
      areas := areas + [a];
    }
  }

  class Tapes {
    const library: Library
    var areas: seq<Area>
    /** The units in the segment table of each partition. */
    var units: seq<seq<Holding>>

    /** The library holds for every partition what its table lists. */
    ghost predicate Listed()
      reads this, library
    {
      |units| == |library.held| && forall q :: 0 <= q < |units| ==> Lists(library.held[q], units[q])
    }

    ghost predicate Valid()
      reads this, library, library.pool, library.pool.disks, areas
    {
      && library.Valid() && Listed() && |areas| == |units|
      && (forall q, r :: 0 <= q < r < |areas| ==> areas[q] != areas[r])
      && (forall q :: 0 <= q < |areas| ==> areas[q].Sane() && Backed(library.bids, areas[q].segments, units[q]))
    }

    /** Blank tapes. */
    constructor (library: Library, partitions: nat)
      requires library.Valid() && |library.held| == partitions
      requires forall q :: 0 <= q < partitions ==> library.held[q] == {}
      ensures Valid() && this.library == library && |areas| == partitions
      ensures forall q :: 0 <= q < partitions ==> fresh(areas[q]) && areas[q].Valid() && areas[q].live == []
    {
      var areas := BlankAreas(partitions);
      this.library, this.areas := library, areas;
      units := seq(partitions, _ => []);
      new;
      hide Library.Valid, Area.Sane, Area.Valid;
      forall q | 0 <= q < |areas|
        ensures areas[q].Sane() && Backed(library.bids, areas[q].segments, []) && Lists({}, [])
      {
        BlankIsSane(areas[q]);
      }
    }

    /** Giving back the units of a partition from the n-th on. */
    method GiveBack(q: nat, n: nat, io: seq<Io>)
      requires library.Valid() && Listed() && q < |units| && n <= |units[q]| == |io|
      modifies `units, library, library.pool, library.pool.disks
      ensures library.Valid() && Listed() && library.pool.disks == old(library.pool.disks)
      ensures OtherRows(old(units), q, units) && units[q] == old(units)[q][..n]
    {
      hide Library.Valid, Lists;
      while |units[q]| > n
        invariant library.Valid() && Listed() && library.pool.disks == old(library.pool.disks)
        invariant OtherRows(old(units), q, units) && n <= |units[q]| && units[q] <= old(units)[q]
        decreases |units[q]|
      {
        GiveLast(q, io[|units[q]| - 1]);
      }
    }

    /** bdev_release_block for the last unit. */
    method GiveLast(q: nat, io: Io)
      requires library.Valid() && Listed() && q < |units| && units[q] != []
      modifies `units, library, library.pool, library.pool.disks
      ensures library.Valid() && Listed() && library.pool.disks == old(library.pool.disks)
      ensures OtherRows(old(units), q, units) && units[q] == old(units)[q][..|old(units)[q]| - 1]
    {
      hide Library.Valid, Lists;
      var h := units[q][|units[q]| - 1];
      ListsFewer(library.held[q], units[q]);
      Libraries.GiveBack(library, q, h, io.readOk, io.writeOk, io.unmapOk);
      units := units[q := units[q][..|units[q]| - 1]];
    }

    /** bdev_get_block, if the item needs a unit that the partition does not hold. */
    method DrawOne(q: nat, segments: seq<Segment>, c: Cursor, item: Item, canRead: map<Disk, seq<bool>>,
                   canWrite: map<Disk, seq<bool>>)
        returns (grant: Grant)
      requires library.Valid() && Listed() && q < |units| && Backed(library.bids, segments, units[q])
               && OnSegment(segments, c)
      requires IoFits(library.pool.disks, canRead, canWrite)
      modifies `units, library, library.pool, library.pool.disks
      ensures library.Valid() && Listed() && library.pool.disks == old(library.pool.disks)
              && OtherRows(old(units), q, units)
      ensures Backed(library.bids, Supplied(segments, c, item, grant), units[q])
      ensures grant.Granted? ==> NeedsUnit(segments, c, item)
    {
      hide Library.Valid, Listed, Backed, NeedsUnit, IoFits, BlockOf;
      if !NeedsUnit(segments, c, item) {
        return Refused;
      }
      var taken := Ask(q, canRead, canWrite);
      if taken == [] {
        assert units[q] == old(units)[q];
        return Refused;
      }
      assert taken == [taken[0]];
      BackedMore(library.bids, segments, old(units)[q], taken[0]);
      grant := Granted(SegmentOf(library.bids, taken[0]));
    }

    /** A unit from the pool, if there is one, entered in the table. */
    method Ask(q: nat, canRead: map<Disk, seq<bool>>, canWrite: map<Disk, seq<bool>>) returns (taken: seq<Holding>)
      requires library.Valid() && Listed() && q < |units| && IoFits(library.pool.disks, canRead, canWrite)
      modifies `units, library, library.pool, library.pool.disks
      ensures library.Valid() && Listed() && library.pool.disks == old(library.pool.disks)
      ensures |taken| <= 1 && units == old(units)[q := old(units)[q] + taken]
      ensures taken != [] ==> taken[0].disk in library.bids && 9 <= taken[0].disk.shift <= 12
    {
      SizesFit(library, canRead, canWrite);
      hide Library.Valid, Lists, PositionOf, BlockOf, IoFits;
      var block, d, p := library.Grow(q, canRead, canWrite);
      taken := [];
      if block != 0 {
        taken := [Holding(d, PositionOf(d.shift, block))];
        ListsMore(old(library.held)[q], units[q], taken[0]);
      }
      units := units[q := units[q] + taken];
    }

    /** The units for a write, each asked for when the item that needs it is placed. */
    method Draw(q: nat, segments: seq<Segment>, c: Cursor, items: seq<Item>, canRead: seq<map<Disk, seq<bool>>>,
                canWrite: seq<map<Disk, seq<bool>>>)
        returns (grants: seq<Grant>)
      requires library.Valid() && Listed() && q < |units| && Backed(library.bids, segments, units[q])
               && OnSegment(segments, c)
      requires |items| == |canRead| == |canWrite|
      requires forall k :: 0 <= k < |items| ==> IoFits(library.pool.disks, canRead[k], canWrite[k])
      modifies `units, library, library.pool, library.pool.disks
      ensures library.Valid() && Listed() && library.pool.disks == old(library.pool.disks)
              && OtherRows(old(units), q, units)
      ensures |grants| == |items| && Fresh(segments, grants, 0)
      ensures Backed(library.bids, Placing(segments, c, items, grants).segments, units[q])
    {
      hide Library.Valid, Lists, Step, Placing, Supplied, OnSegment, Segs, IoFits, Fresh;
      var at := Standing(segments, c, true);
      grants := [];
      var k := 0;
      NothingDrawn(segments, c, items, grants);
      while k < |items| && at.ok
        invariant 0 <= k == |grants| <= |items|
        invariant library.Valid() && Listed() && library.pool.disks == old(library.pool.disks)
                  && OtherRows(old(units), q, units)
        invariant Drawn(segments, c, items, grants, at) && Backed(library.bids, at.segments, units[q])
        invariant at.ok ==> OnSegment(at.segments, at.cursor)
      {
        var grant := DrawOne(q, at.segments, at.cursor, items[k], canRead[k], canWrite[k]);
        DrawnStep(library.bids, segments, c, items, grants, at, grant, units[q]);
        at := Step(at, items[k], grant);
        grants := grants + [grant];
        k := k + 1;
      }
      var rest := seq(|items| - k, _ => Refused);
      NoMoreDrawn(segments, c, items, grants, at, rest);
      grants := grants + rest;
      BackedDistinct(library, q, at.segments, units[q]);
      FreshGrants(segments, grants);
    }

    /** Rewinding or loading one tape, after which it can be written whatever its cursor was. */
    method Rewind(q: nat)
      requires Valid() && q < |areas|
      modifies areas[q]
      ensures Valid() && areas[q].Valid() && areas[q].live == old(areas[q].live)
    {
      hide Library.Valid, Listed, Backed, Laid, Past;
      areas[q].Rewind();
    }

    /** SPACE and LOCATE on one tape. */
    method Reposition(q: nat, g: nat, c: nat)
      requires Valid() && q < |areas| && g < |areas[q].maps| && c <= |areas[q].maps[g]|
      modifies areas[q]
      ensures Valid() && areas[q].live == old(areas[q].live) && (old(areas[q].Valid()) ==> areas[q].Valid())
    {
      hide Library.Valid, Listed, Backed, Laid, Past;
      areas[q].Reposition(g, c);
    }

    /** A write on one tape.  The units behind the place of the cut go back to the pool before new ones are taken
        from it.  Afterwards every tape is as it should be, and the others are untouched. */
    method Write(q: nat, items: seq<Item>, canRead: seq<map<Disk, seq<bool>>>, canWrite: seq<map<Disk, seq<bool>>>,
                 io: seq<Io>, flushed: bool)
        returns (r: Outcome)
      requires Valid() && q < |areas| && areas[q].Valid() && |areas[q].segments| + |items| <= SEGMENT_LIMIT
      requires forall i :: 0 <= i < |items| ==> Writable(items[i])
      requires |items| == |canRead| == |canWrite| && |io| == |units[q]|
      requires forall k :: 0 <= k < |items| ==> IoFits(library.pool.disks, canRead[k], canWrite[k])
      modifies `units, library, library.pool, library.pool.disks, areas[q]
      ensures Valid() && (r != Unflushed ==> areas[q].Valid())
      ensures After(r, old(areas[q].Before()), old(areas[q].MapsBefore()), items, flushed, areas[q].live, areas[q].maps)
    {
      hide Library.Valid, Listed, IoFits, Area.Sane, Area.Valid, Area.Mapped, Area.Before, Area.MapsBefore, After,
           Writable, Backed;
      var a := areas[q];
      ValidIsSane(a);
      ListedRows();
      r := WriteOne(q, a, items, canRead, canWrite, io, flushed);
    }

    /** The same, as far as it concerns that tape and the library. */
    method WriteOne(q: nat, a: Area, items: seq<Item>, canRead: seq<map<Disk, seq<bool>>>,
                    canWrite: seq<map<Disk, seq<bool>>>, io: seq<Io>,
                    flushed: bool) returns (r: Outcome)
      requires library.Valid() && Listed() && q < |units| && Backed(library.bids, a.segments, units[q])
      requires a.Valid() && a.Mapped() && |a.segments| + |items| <= SEGMENT_LIMIT
      requires forall i :: 0 <= i < |items| ==> Writable(items[i])
      requires |items| == |canRead| == |canWrite| && |io| == |units[q]|
      requires forall k :: 0 <= k < |items| ==> IoFits(library.pool.disks, canRead[k], canWrite[k])
      modifies `units, library, library.pool, library.pool.disks, a
      ensures library.Valid() && Listed() && OtherRows(old(units), q, units)
      ensures Backed(library.bids, a.segments, units[q]) && a.Sane() && (r != Unflushed ==> a.Valid())
      ensures After(r, old(a.Before()), old(a.MapsBefore()), items, flushed, a.live, a.maps)
    {
      hide Library.Valid, Listed, IoFits, Area.Sane, Area.Valid, Area.AtEnd, Area.Mapped, Area.Before, Area.MapsBefore,
           After, Writable, Backed;
      var ok := Truncate(q, a, io);
      r := Failed;
      NothingAfter(a.live, a.maps, items, flushed);
      if ok {
        r := Append(q, a, items, canRead, canWrite, flushed);
      }
    }

    /** The first half: what is behind the position is cut off. */
    method Truncate(q: nat, a: Area, io: seq<Io>) returns (ok: bool)
      requires library.Valid() && Listed() && q < |units| && Backed(library.bids, a.segments, units[q])
      requires a.Valid() && a.Mapped() && |io| == |units[q]|
      modifies `units, library, library.pool, library.pool.disks, a
      ensures library.Valid() && Listed() && library.pool.disks == old(library.pool.disks)
              && OtherRows(old(units), q, units)
      ensures Backed(library.bids, a.segments, units[q]) && |a.segments| <= |old(a.segments)|
      ensures a.Valid() && a.Sane() && a.AtEnd() && (ok ==> !a.lookup)
      ensures a.live == old(a.Before()) && a.maps == old(a.MapsBefore())
    {
      hide Library.Valid, Listed, Backed, OtherRows, Area.Sane, Area.Valid, Area.Mapped, Area.Before, Area.MapsBefore;
      ok := CutOff(a);
      ListedRows();
      BackedPrefix(library.bids, old(a.segments), units[q], |a.segments|);
      assert a.segments == old(a.segments)[..|a.segments|];
      GiveBack(q, |a.segments|, io);
    }

    /** How many partitions there are. */
    lemma ListedRows()
      requires Listed()
      ensures |units| == |library.held|
    {
    }

    /** The second half: the items go behind what is left. */
    method Append(q: nat, a: Area, items: seq<Item>, canRead: seq<map<Disk, seq<bool>>>,
                  canWrite: seq<map<Disk, seq<bool>>>, flushed: bool)
        returns (r: Outcome)
      requires library.Valid() && Listed() && q < |units| && Backed(library.bids, a.segments, units[q])
      requires a.Valid() && a.AtEnd() && !a.lookup && |a.segments| + |items| <= SEGMENT_LIMIT
      requires forall i :: 0 <= i < |items| ==> Writable(items[i])
      requires |items| == |canRead| == |canWrite|
      requires forall k :: 0 <= k < |items| ==> IoFits(library.pool.disks, canRead[k], canWrite[k])
      modifies `units, library, library.pool, library.pool.disks, a
      ensures library.Valid() && Listed() && OtherRows(old(units), q, units)
      ensures Backed(library.bids, a.segments, units[q]) && a.Sane() && (r != Unflushed ==> a.Valid())
      ensures After(r, old(a.live), old(a.maps), items, flushed, a.live, a.maps)
    {
      hide Library.Valid, Listed, Area.Sane, Area.Valid, Area.AtEnd, Area.Mapped, After, Placing, Fresh, IoFits,
           OnSegment, Writable, Backed, OtherRows;
      ValidIsSane(a);
      OnOwnSegment(a);
      var grants := Draw(q, a.segments, a.cursor, items, canRead, canWrite);
      r := PutBehind(a, items, grants, flushed);
    }
  }

  /** The part of the cut that concerns the tape alone. */
  method CutOff(a: Area) returns (ok: bool)
    requires a.Valid()
    modifies a
    ensures a.Valid() && a.Sane() && a.AtEnd() && (ok ==> !a.lookup) && a.segments <= old(a.segments)
    ensures old(a.Mapped()) && a.live == old(a.Before()) && a.maps == old(a.MapsBefore())
  {
    ValidIsSane(a);
    hide Area.Sane, Area.Valid, Area.Mapped, Area.Before, Area.MapsBefore;
    ok := a.Overwrite();
    ValidIsSane(a);
    if ok {
      ok := a.LookupSegments();
    }
  }

  /** The part of the append that concerns the tape alone. */
  method PutBehind(a: Area, items: seq<Item>, grants: seq<Grant>, flushed: bool) returns (r: Outcome)
    requires a.Valid() && a.AtEnd() && !a.lookup && |a.segments| + |items| <= SEGMENT_LIMIT
    requires |grants| == |items| && Fresh(a.segments, grants, 0) && forall i :: 0 <= i < |items| ==> Writable(items[i])
    modifies a
    ensures a.Sane() && (r != Unflushed ==> a.Valid())
            && After(r, old(a.live), old(a.maps), items, flushed, a.live, a.maps)
    ensures a.segments == Placing(old(a.segments), old(a.cursor), items, grants).segments
  {
    hide Area.Sane, Area.Valid, Area.AtEnd, Area.Mapped, Extended, Kept, KindsOf, Placing, Fresh, Writable, OnlyMarks,
         FirstGoes, PastNext, PackedBehind, EndsAt, Obtained, Past, Distinct;
    ValidIsSane(a);
    OnOwnSegment(a);
    r := a.Append(items, grants, flushed);
    if r != Unflushed {
      ValidIsSane(a);
    }
  }

  lemma {:induction false} BackedMore(bids: map<Disk, nat>, segments: seq<Segment>, units: seq<Holding>, h: Holding)
    requires Backed(bids, segments, units) && h.disk in bids && 9 <= h.disk.shift <= 12
    ensures Backed(bids, segments + [SegmentOf(bids, h)], units + [h])
  {
    hide BlockOf;
  }

  lemma {:induction false} BackedPrefix(bids: map<Disk, nat>, segments: seq<Segment>, units: seq<Holding>, n: nat)
    requires Backed(bids, segments, units) && n <= |segments|
    ensures n <= |units| && Backed(bids, segments[..n], units[..n])
  {
  }

  /** The answers about the pages of every disk are there. */
  ghost predicate IoFits(disks: set<Disk>, canRead: map<Disk, seq<bool>>, canWrite: map<Disk, seq<bool>>) {
    && disks <= canRead.Keys && disks <= canWrite.Keys
    && forall e :: e in disks ==> |canRead[e]| == |canWrite[e]| == Indexes(e.units)
  }

  lemma {:induction false} SizesFit(library: Library, canRead: map<Disk, seq<bool>>, canWrite: map<Disk, seq<bool>>)
    requires library.Valid() && IoFits(library.pool.disks, canRead, canWrite)
    ensures library.pool.disks <= canRead.Keys && library.pool.disks <= canWrite.Keys
    ensures forall e :: e in library.pool.disks ==> |canRead[e]| == |canWrite[e]| == |e.disk|
  {
    forall e | e in library.pool.disks
      ensures |e.disk| == Indexes(e.units)
    {
      assert e.Valid();
    }
  }

  lemma {:induction false} ValidIsSane(a: Area)
    requires a.Valid()
    ensures a.Sane() && a.Mapped()
  {
  }

  lemma {:induction false} OnOwnSegment(a: Area)
    requires a.Sane() && !a.lookup
    ensures OnSegment(a.segments, a.cursor)
  {
    hide Seg, Len;
  }

  /** The units drawn so far are the ones that placing has used. */
  ghost predicate Drawn(segments: seq<Segment>, c: Cursor, items: seq<Item>, grants: seq<Grant>, at: Standing)
    requires |grants| <= |items|
  {
    at == Placing(segments, c, items[..|grants|], grants) && at.segments == segments + Segs(grants)
  }

  lemma {:induction false} NothingDrawn(segments: seq<Segment>, c: Cursor, items: seq<Item>, grants: seq<Grant>)
    requires grants == []
    ensures Drawn(segments, c, items, grants, Standing(segments, c, true))
  {
    assert segments + [] == segments;
  }

  lemma {:induction false} DrawnStep(bids: map<Disk, nat>, segments: seq<Segment>, c: Cursor, items: seq<Item>,
                                     grants: seq<Grant>, at: Standing,
                                     grant: Grant, units: seq<Holding>)
    requires |grants| < |items| && Drawn(segments, c, items, grants, at) && at.ok && OnSegment(at.segments, at.cursor)
    requires grant.Granted? ==> NeedsUnit(at.segments, at.cursor, items[|grants|])
    requires Backed(bids, Supplied(at.segments, at.cursor, items[|grants|], grant), units)
    ensures var to := Step(at, items[|grants|], grant);
            && Drawn(segments, c, items, grants + [grant], to)
               && to.segments == Supplied(at.segments, at.cursor, items[|grants|], grant)
            && (to.ok ==> OnSegment(to.segments, to.cursor))
  {
    hide Placing, Step, OnSegment, NeedsUnit, Backed, Segs;
    var k, item := |grants|, items[|grants|];
    var more := grants + [grant];
    StepSupplies(bids, at, item, grant, units);
    assert more[..k] == grants && items[..k + 1][..k] == items[..k];
    PlacingStep(segments, c, items[..k + 1], more, k);
    assert more[..k + 1] == more && items[..k + 1][..k + 1] == items[..k + 1];
    SegsSnoc(grants, grant);
  }

  lemma {:induction false} SegsSnoc(grants: seq<Grant>, grant: Grant)
    ensures Segs(grants + [grant]) == Segs(grants) + if grant.Granted? then [grant.segment] else []
  {
    assert (grants + [grant])[..|grants|] == grants;
  }

  lemma {:induction false} StepSupplies(bids: map<Disk, nat>, at: Standing, item: Item, grant: Grant,
                                        units: seq<Holding>)
    requires OnSegment(at.segments, at.cursor) && Backed(bids, Supplied(at.segments, at.cursor, item, grant), units)
    ensures var to := Step(at, item, grant);
            to.segments == Supplied(at.segments, at.cursor, item, grant)
            && (to.ok ==> OnSegment(to.segments, to.cursor))
  {
    hide Need, SectorsPerUnit, BlockOf;
  }

  /** Once an item has found no place, or none is left, nothing more is asked for. */
  lemma {:induction false} NoMoreDrawn(segments: seq<Segment>, c: Cursor, items: seq<Item>, grants: seq<Grant>,
                                       at: Standing, rest: seq<Grant>)
    requires |grants| + |rest| == |items| && Drawn(segments, c, items, grants, at) && (at.ok ==> rest == [])
    requires forall i :: 0 <= i < |rest| ==> rest[i] == Refused
    ensures Placing(segments, c, items, grants + rest) == at && Segs(grants + rest) == Segs(grants)
  {
    var k := |grants|;
    assert (grants + rest)[..k] == grants;
    if at.ok {
      assert items[..k] == items && grants + rest == grants;
    } else {
      PlacingStops(segments, c, items, grants + rest, k);
    }
    NoSegs(grants, rest);
  }

  lemma {:induction false} NoSegs(grants: seq<Grant>, rest: seq<Grant>)
    requires forall i :: 0 <= i < |rest| ==> rest[i] == Refused
    ensures Segs(grants + rest) == Segs(grants)
    decreases |rest|
  {
    if rest == [] {
      assert grants + rest == grants;
    } else {
      var n := |rest| - 1;
      assert (grants + rest)[..|grants| + n] == grants + rest[..n];
      NoSegs(grants, rest[..n]);
    }
  }

  /** No two live blocks share a sector, on one tape or on two. */
  lemma {:induction false} TapesApart(t: Tapes, q: nat, r: nat, i: nat, j: nat)
    requires t.Valid() && q < |t.areas| && r < |t.areas| && i < |t.areas[q].live| && j < |t.areas[r].live|
             && (q != r || i != j)
    ensures !Overlap(t.areas[q].live[i], t.areas[r].live[j])
  {
    var a, b := t.areas[q], t.areas[r];
    hide Seg, Len;
    if q == r {
      if i < j {
        NoOverlap(a.segments, a.live, i, j);
      } else {
        NoOverlap(a.segments, a.live, j, i);
      }
    } else {
      var e, f := a.live[i], b.live[j];
      assert Inside(a.segments, e) && Inside(b.segments, f);
      var g, h := t.units[q][Seg(e)], t.units[r][Seg(f)];
      assert a.segments[Seg(e)] == SegmentOf(t.library.bids, g) && b.segments[Seg(f)] == SegmentOf(t.library.bids, h);
      NeverShared(t.library, q, r, g, h);
    }
  }
}
