/** A library: partitions that draw their units from one pool.  Ties what the allocator promises to what the
    layout of a partition's data takes for granted. */
module Libraries {
  import opened Units
  import opened Allocator
  import opened Disks
  import opened Pools
  import DataArea

  /** A unit of a disk. */
  datatype Holding = Holding(disk: Disk, place: Position)

  /** The first sector of the unit. */
  function BlockOf(h: Holding): nat
    requires 9 <= h.disk.shift <= 12
  {
    UnitOf(h.place.index, h.place.bit) * SectorsPerUnit(h.disk.shift)
  }

  /** The unit as a segment of a partition. */
  function SegmentOf(bids: map<Disk, nat>, h: Holding): DataArea.Segment
    requires h.disk in bids && 9 <= h.disk.shift <= 12
  {
    DataArea.Segment(DataArea.Device(bids[h.disk], h.disk.shift), BlockOf(h))
  }

  lemma {:induction false} SegmentIsValid(bids: map<Disk, nat>, h: Holding)
    requires h.disk in bids && 9 <= h.disk.shift <= 12
    ensures SegmentOf(bids, h).Valid()
  {
    UnitStarts(h.disk.shift, UnitOf(h.place.index, h.place.bit));
  }

  /** Different units are different segments. */
  lemma {:induction false} SegmentsDiffer(bids: map<Disk, nat>, a: Holding, b: Holding)
    requires a.disk in bids && b.disk in bids && 9 <= a.disk.shift <= 12 && 9 <= b.disk.shift <= 12
    requires bids[a.disk] == bids[b.disk] ==> a.disk == b.disk
    requires a.place.bit < UNITS_PER_INDEX && b.place.bit < UNITS_PER_INDEX && a != b
    ensures SegmentOf(bids, a) != SegmentOf(bids, b)
  {
    if a.disk == b.disk {
      UnitsDiffer(a.place, b.place);
      StartsDiffer(a.disk.shift, UnitOf(a.place.index, a.place.bit), UnitOf(b.place.index, b.place.bit));
      hide UnitOf, SectorsPerUnit;
    }
  }

  lemma {:induction false} UnitsDiffer(p: Position, q: Position)
    requires p.bit < UNITS_PER_INDEX && q.bit < UNITS_PER_INDEX && p != q
    ensures UnitOf(p.index, p.bit) != UnitOf(q.index, q.bit)
  {
  }

  /** No unit is held by two partitions. */
  ghost predicate Apart(held: seq<set<Holding>>) {
    forall q, r :: 0 <= q < r < |held| ==> held[q] !! held[r]
  }

  lemma {:induction false} ApartMore(held: seq<set<Holding>>, q: nat, h: Holding)
    requires Apart(held) && q < |held| && forall r :: 0 <= r < |held| ==> h !in held[r]
    ensures Apart(held[q := held[q] + {h}])
  {
  }

  lemma {:induction false} ApartLess(held: seq<set<Holding>>, q: nat, h: Holding)
    requires Apart(held) && q < |held| && h in held[q]
    ensures Apart(held[q := held[q] - {h}])
    ensures forall r :: 0 <= r < |held| && h in held[r] ==> r == q
  {
  }

  class Library {
    const pool: Pool
    const bids: map<Disk, nat>
    /** The units that each partition holds. */
    ghost var held: seq<set<Holding>>

    /** Every unit held is owned on its disk, and no unit is held twice. */
    ghost predicate Valid()
      reads this, pool, pool.disks
    {
      && pool.Valid() && pool.disks <= bids.Keys
      && (forall d, e :: d in bids && e in bids && bids[d] == bids[e] ==> d == e)
      && (forall q, h :: 0 <= q < |held| && h in held[q] ==> h.disk in pool.disks && h.place in h.disk.owned)
      && Apart(held)
    }

    constructor (pool: Pool, bids: map<Disk, nat>, partitions: nat)
      requires pool.Valid() && pool.disks <= bids.Keys
      requires forall d, e :: d in bids && e in bids && bids[d] == bids[e] ==> d == e
      ensures Valid() && this.pool == pool && this.bids == bids && held == seq(partitions, _ => {})
    {
      this.pool, this.bids := pool, bids;
      held := seq(partitions, _ => {});
    }

    /** A partition takes a unit from the pool; no partition held it. */
    method Grow(q: nat, canRead: map<Disk, seq<bool>>, canWrite: map<Disk, seq<bool>>)
        returns (block: nat, d: Disk?, ghost p: Position)
      requires Valid() && q < |held| && pool.disks <= canRead.Keys && pool.disks <= canWrite.Keys
      requires forall e :: e in pool.disks ==> |canRead[e]| == |canWrite[e]| == |e.disk|
      modifies this, pool, pool.disks
      ensures Valid() && |held| == |old(held)| && pool.disks == old(pool.disks)
      ensures block == 0 ==> held == old(held)
      ensures block != 0 ==> && d in pool.disks && d in bids && 9 <= d.shift <= 12 && p == PositionOf(d.shift, block)
                             && block == BlockOf(Holding(d, p))
                             && held == old(held)[q := old(held)[q] + {Holding(d, p)}]
                             && (forall r :: 0 <= r < |held| ==> Holding(d, p) !in old(held)[r])
    {
      hide Disk.CacheValid, Disk.OwnedValid, Apart, Free, SetBit, Quiet, UnitOf, SectorsPerUnit;
      var end;
      block, end, d, p := pool.GetBlock(canRead, canWrite);
      if block != 0 {
        TakenPlace(d, p);
        ApartMore(held, q, Holding(d, p));
        held := held[q := held[q] + {Holding(d, p)}];
      }
    }

    /** A partition gives a unit back. */
    method Shrink(q: nat, d: Disk, block: nat, readOk: bool, writeOk: bool, unmapOk: bool)
      requires Valid() && q < |held| && d in pool.disks && 9 <= d.shift <= 12
      requires PositionOf(d.shift, block).index < |d.disk| && Holding(d, PositionOf(d.shift, block)) in held[q]
      modifies this, pool, d
      ensures Valid() && held == old(held)[q := old(held)[q] - {Holding(d, PositionOf(d.shift, block))}]
              && pool.disks == old(pool.disks)
    {
      hide Pool.Valid, PositionOf, Apart;
      ghost var h := Holding(d, PositionOf(d.shift, block));
      ApartLess(held, q, h);
      ReleaseUnit(pool, d, block, readOk, writeOk, unmapOk);
      held := held[q := held[q] - {h}];
    }
  }

  /** Releasing a unit takes it and no other from those handed out. */
  method ReleaseUnit(pool: Pool, d: Disk, block: nat, readOk: bool, writeOk: bool, unmapOk: bool)
    requires pool.Valid() && d in pool.disks && 9 <= d.shift <= 12 && PositionOf(d.shift, block).index < |d.disk|
    modifies pool, d
    ensures pool.Valid() && pool.disks == old(pool.disks)
    ensures d.owned == old(d.owned) || d.owned == old(d.owned) - {PositionOf(d.shift, block)}
  {
    hide Pool.Valid, PositionOf, SetBit, Holds, Quiet;
    pool.Release(d, block, readOk, writeOk, unmapOk);
  }

  /** A unit that a partition holds, given back. */
  method GiveBack(library: Library, q: nat, h: Holding, readOk: bool, writeOk: bool, unmapOk: bool)
    requires library.Valid() && q < |library.held| && h in library.held[q]
    modifies library, library.pool, library.pool.disks
    ensures library.Valid() && library.held == old(library.held)[q := old(library.held)[q] - {h}]
    ensures library.pool.disks == old(library.pool.disks)
  {
    HeldIsUsable(library, q, h);
    TakenPlace(h.disk, h.place);
    hide Library.Valid, PositionOf, BlockOf, Indexes, Disk.Valid;
    library.Shrink(q, h.disk, BlockOf(h), readOk, writeOk, unmapOk);
  }

  lemma {:induction false} HeldIsUsable(library: Library, q: nat, a: Holding)
    requires library.Valid() && q < |library.held| && a in library.held[q]
    ensures a.disk in library.bids && a.disk in library.pool.disks && 9 <= a.disk.shift <= 12
    ensures a.place.bit < UNITS_PER_INDEX && a.place.index < |a.disk.disk| == Indexes(a.disk.units)
    ensures a.disk.Valid() && a.place in a.disk.owned
  {
    assert a.disk.Valid();
    assert a.place in a.disk.owned;
  }

  lemma {:induction false} TakenPlace(d: Disk, p: Position)
    requires d.Valid() && p in d.owned
    ensures 9 <= d.shift <= 12 && PositionOf(d.shift, BlockOf(Holding(d, p))) == p
  {
    BlockOfBit(d.shift, p.index, p.bit);
    hide PositionOf, UnitOf;
  }

  /** Two units held, by one partition or by two, are different segments and have no sector in common. */
  lemma {:induction false} NeverShared(library: Library, q: nat, r: nat, a: Holding, b: Holding)
    requires library.Valid() && q < |library.held| && r < |library.held|
    requires a in library.held[q] && b in library.held[r] && (q != r || a != b)
    ensures a.disk in library.bids && b.disk in library.bids && 9 <= a.disk.shift <= 12 && 9 <= b.disk.shift <= 12
    ensures var s, t := SegmentOf(library.bids, a), SegmentOf(library.bids, b);
            s != t && s.Valid() && t.Valid() && (s.device == t.device ==> s.End() <= t.base || t.End() <= s.base)
  {
    HeldIsUsable(library, q, a);
    HeldIsUsable(library, r, b);
    SegmentIsValid(library.bids, a);
    SegmentIsValid(library.bids, b);
    ApartLess(library.held, q, a);
    SegmentsDiffer(library.bids, a, b);
    hide SegmentOf;
    var s, t := SegmentOf(library.bids, a), SegmentOf(library.bids, b);
    if s.device == t.device {
      DataArea.UnitsApart(s, t);
    }
  }
}
