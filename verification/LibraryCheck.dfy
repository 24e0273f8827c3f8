/** The check of a disk, seen from the library: the segment tables are the words of the units that the partitions
    hold, so afterwards the bitmap says exactly which units of the disk are held. */
module LibraryCheck {
  import opened Units
  import opened Allocator
  import opened Disks
  import opened Pools
  import opened Libraries
  import opened Checker
  import Segments

  /** The units of a partition by their use: metadata segments, data segments, and the unit of the tables. */
  datatype Use = Use(meta: seq<Holding>, data: seq<Holding>, tables: Holding)

  ghost function UnitsOf(use: Use): set<Holding> {
    (set i | 0 <= i < |use.meta| :: use.meta[i]) + (set i | 0 <= i < |use.data| :: use.data[i]) + {use.tables}
  }

  /** The disk has an id of its own that fits the words, and so do its block numbers. */
  ghost predicate Addressable(bids: map<Disk, nat>) {
    && (forall d, e :: d in bids && e in bids && bids[d] == bids[e] ==> d == e)
    && (forall d :: d in bids ==> bids[d] < BID_LIMIT && 9 <= d.shift <= 12
                                  && d.units * SectorsPerUnit(d.shift) <= BLOCKNR_LIMIT)
  }

  /** A unit that the allocator hands out. */
  ghost predicate Proper(bids: map<Disk, nat>, h: Holding) {
    h.disk in bids && 9 <= h.disk.shift <= 12 && Usable(h.disk.units, h.place)
  }

  /** The word that is stored for a unit. */
  ghost function WordOf(bids: map<Disk, nat>, h: Holding): nat
    requires Proper(bids, h)
  {
    SetBlock(BlockOf(h), bids[h.disk])
  }

  /** A table lists these units, one behind the other; the entry behind the last is not in use.  In a table whose
      first entry is skipped, the units follow that entry. */
  ghost predicate TableOf(bids: map<Disk, nat>, words: seq<nat>, skipFirst: bool, units: seq<Holding>) {
    var first := if skipFirst then 1 else 0;
    && first + |units| <= |words| && (skipFirst ==> words[0] != 0)
    && (forall i :: 0 <= i < |units| ==> Proper(bids, units[i]) && words[first + i] == WordOf(bids, units[i]))
    && (first + |units| < |words| ==> words[first + |units|] == 0)
  }

  ghost predicate PartitionOf(bids: map<Disk, nat>, part: Partition, use: Use) {
    && TableOf(bids, part.meta, part.v2, use.meta) && TableOf(bids, part.data, false, use.data)
    && Proper(bids, use.tables) && part.tmapsBid == bids[use.tables.disk] && part.tmapsBlock == BlockOf(use.tables)
  }

  /** The word of a unit leads back to the disk and the position of that unit, and to no other. */
  lemma {:induction false} WordNamesUnit(bids: map<Disk, nat>, h: Holding, d: Disk, p: Position)
    requires Addressable(bids) && Proper(bids, h) && d in bids
    ensures WordOf(bids, h) != 0
    ensures Hit(WordOf(bids, h), bids[d], d.shift, p) <==> h == Holding(d, p)
    ensures bids[h.disk] == bids[d] && PositionOf(d.shift, BlockOf(h)) == p <==> h == Holding(d, p)
  {
    UsableIsInRange(h.disk.units, h.place);
    BlockBound(h.disk.shift, h.disk.units, UnitOf(h.place.index, h.place.bit));
    BlockReadsBack(BlockOf(h), bids[h.disk]);
    BlockOfBit(h.disk.shift, h.place.index, h.place.bit);
    hide SetBlock, Blocknr, Bid, PositionOf, UnitOf, SectorsPerUnit, AllocBlock;
  }

  lemma {:induction false} BlockBound(shift: nat, units: nat, u: nat)
    requires 9 <= shift <= 12 && 0 < u < units
    ensures 0 < u * SectorsPerUnit(shift) < units * SectorsPerUnit(shift)
  {
    if shift == 9 {
    } else if shift == 10 {
    } else if shift == 11 {
    } else {
    }
  }

  lemma {:induction false} TableEnd(bids: map<Disk, nat>, words: seq<nat>, skipFirst: bool, units: seq<Holding>)
    requires Addressable(bids) && TableOf(bids, words, skipFirst, units)
    ensures Segments.RunEnd(words, 0, |words|) == (if skipFirst then 1 else 0) + |units|
  {
    var first := if skipFirst then 1 else 0;
    forall j | 0 <= j < first + |units|
      ensures words[j] != 0
    {
      if j >= first {
        var h := units[j - first];
        assert words[first + (j - first)] == WordOf(bids, h);
        WordNamesUnit(bids, h, h.disk, h.place);
      }
    }
    hide WordOf, Proper, Addressable;
  }

  /** A table refers to a position of a disk exactly when it lists that unit. */
  lemma {:induction false} TableRefersIff(bids: map<Disk, nat>, words: seq<nat>, skipFirst: bool, units: seq<Holding>,
                                          d: Disk, p: Position)
    requires Addressable(bids) && TableOf(bids, words, skipFirst, units) && d in bids
    ensures 9 <= d.shift <= 12 && (TableRefers(words, skipFirst, bids[d], d.shift, p) <==> Holding(d, p) in units)
  {
    var first := if skipFirst then 1 else 0;
    TableEnd(bids, words, skipFirst, units);
    forall i | 0 <= i < |units|
      ensures Hit(words[first + i], bids[d], d.shift, p) <==> units[i] == Holding(d, p)
    {
      WordNamesUnit(bids, units[i], d, p);
    }
    hide Hit, WordOf;
    if Holding(d, p) in units {
      var i :| 0 <= i < |units| && units[i] == Holding(d, p);
      assert Hit(words[first + i], bids[d], d.shift, p);
    }
    if TableRefers(words, skipFirst, bids[d], d.shift, p) {
      var j :| first <= j < first + |units| && Hit(words[j], bids[d], d.shift, p);
      assert words[j] == words[first + (j - first)];
      assert units[j - first] == Holding(d, p);
    }
  }

  lemma {:induction false} PartitionRefersIff(bids: map<Disk, nat>, part: Partition, use: Use, d: Disk, p: Position)
    requires Addressable(bids) && PartitionOf(bids, part, use) && d in bids
    ensures 9 <= d.shift <= 12 && (PartitionRefers(part, bids[d], d.shift, p) <==> Holding(d, p) in UnitsOf(use))
  {
    hide TableOf, TableRefers, Addressable, PositionOf, BlockOf;
    TableRefersIff(bids, part.meta, part.v2, use.meta, d, p);
    TableRefersIff(bids, part.data, false, use.data, d, p);
    WordNamesUnit(bids, use.tables, d, p);
  }

  /** The tables of all partitions refer to a position of a disk exactly when some partition holds that unit. */
  lemma {:induction false} ReferencedIff(bids: map<Disk, nat>, parts: seq<Partition>, uses: seq<Use>, d: Disk,
                                         p: Position)
    requires Addressable(bids) && d in bids && |parts| == |uses|
    requires forall q :: 0 <= q < |parts| ==> PartitionOf(bids, parts[q], uses[q])
    ensures 9 <= d.shift <= 12
    ensures Referenced(parts, |parts|, bids[d], d.shift, p)
            <==> exists q :: 0 <= q < |uses| && Holding(d, p) in UnitsOf(uses[q])
  {
    hide PartitionRefers, UnitsOf, PartitionOf;
    assert 9 <= d.shift <= 12;
    forall q | 0 <= q < |parts|
      ensures PartitionRefers(parts[q], bids[d], d.shift, p) <==> Holding(d, p) in UnitsOf(uses[q])
    {
      PartitionRefersIff(bids, parts[q], uses[q], d, p);
    }
  }

  /** bint_check on a disk of a library.  Whatever the bitmap was, afterwards the bit of a unit is set if and only if
      some partition holds that unit of this disk. */
  method CheckDisk(library: Library, d: Disk, parts: seq<Partition>, ghost uses: seq<Use>, canReadMeta: seq<seq<bool>>,
                   canReadData: seq<seq<bool>>, canRead: seq<bool>, canWrite: seq<bool>)
      returns (ok: bool, left: Shadow)
    requires library.Valid() && Addressable(library.bids) && d in library.pool.disks && d in library.bids
    requires |parts| == |uses| == |library.held| && Readable(parts, canReadMeta, canReadData)
    requires forall q :: 0 <= q < |parts| ==> PartitionOf(library.bids, parts[q], uses[q])
    requires forall q :: 0 <= q < |parts| ==> library.held[q] == UnitsOf(uses[q])
    requires forall p :: p in d.owned ==> exists q :: 0 <= q < |uses| && Holding(d, p) in UnitsOf(uses[q])
    requires |canRead| == |canWrite| == |d.disk|
    modifies d`cache, d`indexCount, d`disk, d`free
    ensures ok ==> d.Valid()
    ensures ok ==> forall id, b :: 0 <= id < |d.disk| && 0 <= b < PageEnd(d.units, id) ==>
              (d.disk[id][b] <==> exists q :: 0 <= q < |library.held| && Holding(d, Position(id, b)) in library.held[q])
  {
    hide Referenced, UnitsOf, PartitionOf, Readable;
    forall p: Position
      ensures Referenced(parts, |parts|, library.bids[d], d.shift, p)
              <==> exists q :: 0 <= q < |uses| && Holding(d, p) in UnitsOf(uses[q])
    {
      ReferencedIff(library.bids, parts, uses, d, p);
    }
    forall q, p: Position | 0 <= q < |uses| && Holding(d, p) in UnitsOf(uses[q])
      ensures Usable(d.units, p)
    {
      HeldIsUsable(library, q, Holding(d, p));
    }
    ok, left := Check(d, library.bids[d], parts, map[], canReadMeta, canReadData, canRead, canWrite);
  }
}
