/** A pool of disks (struct bdevgroup): the list of disks to allocate from and the disk whose turn it is. */
module Pools {
  import opened Units
  import opened Allocator
  import opened Disks

  /** Where a disk goes in the list: behind the last leading disk with at least as much free space. */
  method InsertPlace(list: seq<Disk>, free: nat) returns (i: nat)
    ensures i <= |list|
    ensures forall j :: 0 <= j < i ==> list[j].free >= free
    ensures i < |list| ==> list[i].free < free
  {
    i := 0;
    while i < |list| && list[i].free >= free
      invariant i <= |list|
      invariant forall j :: 0 <= j < i ==> list[j].free >= free
    {
      i := i + 1;
    }
  }

  ghost predicate NoRepeats(list: seq<Disk>) {
    forall i, j :: 0 <= i < j < |list| ==> list[i] != list[j]
  }

  function IndexIn(list: seq<Disk>, d: Disk): (i: nat)
    requires d in list
    ensures i < |list| && list[i] == d
  {
    if list[0] == d then 0 else 1 + IndexIn(list[1..], d)
  }

  /** bdev_alloc_list_next_rotate. */
  function Next(list: seq<Disk>, d: Disk): (n: Disk)
    requires d in list
    ensures n in list
  {
    var i := IndexIn(list, d);
    if i + 1 < |list| then list[i + 1] else list[0]
  }

  /** The place behind place i of a ring. */
  ghost function Onward(n: nat, i: nat): (j: nat)
    requires i < n
    ensures j < n
  {
    if i == n - 1 then 0 else i + 1
  }

  /** The turn passes down the list and from its end to its start. */
  ghost predicate TurnPasses(list: seq<Disk>, d: Disk, next: Disk?) {
    forall i :: 0 <= i < |list| && list[i] == d ==> next == list[Onward(|list|, i)]
  }

  lemma {:induction false} NextPasses(list: seq<Disk>, d: Disk)
    requires d in list && NoRepeats(list)
    ensures TurnPasses(list, d, Next(list, d))
  {
  }

  function Remove(list: seq<Disk>, d: Disk): (r: seq<Disk>)
    requires d in list
    ensures |r| == |list| - 1
  {
    var i := IndexIn(list, d);
    list[..i] + list[i + 1..]
  }

  lemma {:induction false} RemoveKeeps(list: seq<Disk>, d: Disk)
    requires d in list && NoRepeats(list)
    ensures NoRepeats(Remove(list, d)) && d !in Remove(list, d)
    ensures forall e :: e in Remove(list, d) <==> e in list && e != d
  {
    var i := IndexIn(list, d);
    var r := Remove(list, d);
    assert forall j :: 0 <= j < |r| ==> r[j] == list[if j < i then j else j + 1];
    forall e | e in list && e != d
      ensures e in r
    {
      var j := IndexIn(list, e);
      assert r[if j < i then j else j - 1] == e;
    }
  }

  lemma {:induction false} InsertKeeps(list: seq<Disk>, d: Disk, i: nat)
    requires d !in list && NoRepeats(list) && i <= |list|
    ensures NoRepeats(list[..i] + [d] + list[i..])
    ensures forall e :: e in list[..i] + [d] + list[i..] <==> e in list || e == d
  {
    var r := list[..i] + [d] + list[i..];
    assert forall j :: 0 <= j < |r| ==> r[j] == if j < i then list[j] else if j == i then d else list[j - 1];
    forall e | e in list
      ensures e in r
    {
      var j := IndexIn(list, e);
      assert r[if j < i then j else j + 1] == e;
    }
    assert r[i] == d;
  }

  /** The disk stands before the first disk with less free space. */
  ghost predicate InsertedAt(list: seq<Disk>, d: Disk, i: nat, r: seq<Disk>)
    reads list, d
    requires i <= |list|
  {
    && r == list[..i] + [d] + list[i..]
    && (forall j :: 0 <= j < i ==> list[j].free >= d.free)
    && (i < |list| ==> list[i].free < d.free)
  }

  /** The free counter of the disk is exact, and no discard is in flight on it. */
  ghost predicate Quiet(d: Disk)
    requires d.Valid()
    reads d
  {
    d.Exact() && d.inFlight == multiset{}
  }

  class Pool {
    ghost var disks: set<Disk>
    var list: seq<Disk>
    var eligible: Disk?

    constructor ()
      ensures Valid() && Settled() && disks == {} && list == []
    {
      disks, list, eligible := {}, [], null;
    }

    /** Every disk with free space can be found: it is in the list, once, and so is the disk in turn. */
    ghost predicate Listed()
      reads this, disks
    {
      && NoRepeats(list)
      && (forall d :: d in list ==> d in disks)
      && (eligible != null ==> eligible in list)
      && (forall d :: d in disks && d.free > 0 ==> d in list)
    }

    ghost predicate Valid()
      reads this, disks
    {
      Listed() && forall d :: d in disks ==> d.Valid()
    }

    /** bdev_alloc_list_insert. */
    method Insert(d: Disk)
      requires NoRepeats(list)
      modifies `list
      ensures NoRepeats(list)
      ensures forall e :: e in list <==> e in old(list) || e == d
      ensures d in old(list) ==> list == old(list)
      ensures d !in old(list) ==> exists i :: 0 <= i <= |old(list)| && InsertedAt(old(list), d, i, list)
    {
      if d in list {
        return;
      }
      var i := InsertPlace(list, d.free);
      InsertKeeps(list, d, i);
      list := list[..i] + [d] + list[i..];
      assert InsertedAt(old(list), d, i, list);
    }

    /** bint_get_eligible: drop full disks until one with free space has its turn. */
    method GetEligible() returns (found: Disk?)
      requires Listed()
      modifies this
      ensures Listed() && disks == old(disks)
      ensures found == null <==> forall d :: d in disks ==> d.free == 0
      ensures found != null ==> found in list && found.free > 0 && TurnPasses(list, found, eligible)
      ensures forall d :: d in old(list) && d.free > 0 ==> d in list
      ensures var turn := if old(eligible) == null && old(list) != [] then old(list)[0] else old(eligible);
              turn != null && turn.free > 0 ==> found == turn && list == old(list)
    {
      found := null;
      var turn := eligible;
      if turn == null && list != [] {
        turn := list[0];
      }
      ghost var first := turn;
      while turn != null
        invariant NoRepeats(list) && disks == old(disks) && found == null
        invariant forall d :: d in list ==> d in disks
        invariant forall d :: d in disks && d.free > 0 ==> d in list
        invariant turn != null ==> turn in list
        invariant turn == null ==> list == []
        invariant first == null || first.free == 0 || (turn == first && list == old(list))
        decreases |list|
      {
        if turn.free > 0 {
          found := turn;
          NextPasses(list, turn);
          turn := Next(list, turn);
          break;
        }
        var next := Next(list, turn);
        RemoveKeeps(list, turn);
        list := Remove(list, turn);
        turn := if next == turn then null else next;
      }
      eligible := turn;
    }

    /** Every disk's free counter is what a reload would compute, and no discard is in flight. */
    ghost predicate Settled()
      requires Valid()
      reads this, disks
    {
      forall d :: d in disks ==> Quiet(d)
    }

    /** bdev_get_block: only the disk in turn is tried. */
    method GetBlock(canRead: map<Disk, seq<bool>>, canWrite: map<Disk, seq<bool>>)
      returns (block: nat, end: nat, d: Disk?, ghost p: Position)
      requires Valid() && disks <= canRead.Keys && disks <= canWrite.Keys
      requires forall e :: e in disks ==> |canRead[e]| == |canWrite[e]| == |e.disk|
      modifies this, disks
      ensures Valid() && disks == old(disks)
      ensures block == 0 ==> forall e :: e in disks ==>
                                           e.disk == old(e.disk) && e.free == old(e.free) && e.owned == old(e.owned)
      ensures block != 0 ==> && d in disks
                             && Free(d.units, old(d.disk), p) && p !in old(d.owned) && p !in d.inFlight
                             && d.disk == SetBit(old(d.disk), p, true) && d.free == old(d.free) - UNIT_SIZE
                             && d.owned == old(d.owned) + {p}
                             && block == UnitOf(p.index, p.bit) * SectorsPerUnit(d.shift)
                             && end == block + SectorsPerUnit(d.shift)
      ensures forall e :: e in disks && e != d ==> unchanged(e)
      ensures forall e :: e in disks ==> |e.disk| == |old(e.disk)|
      ensures old(Settled()) ==> Settled()
      ensures (forall e :: e in disks ==> false !in canRead[e] && false !in canWrite[e]) && old(Settled()) ==>
                (block != 0 <==> exists e :: e in disks && old(e.free) > 0)
      ensures var turn := if old(eligible) == null && old(list) != [] then old(list)[0] else old(eligible);
              turn != null && old(turn.free) > 0 ==> d == turn && list == old(list) && TurnPasses(list, turn, eligible)
    {
      hide Disk.Valid, Disk.CacheValid, Disk.OwnedValid, Free, SetBit, UnitOf, SectorsPerUnit, Quiet, TurnPasses;
      block, end, p := 0, 0, Position(0, 0);
      d := GetEligible();
      if d != null {
        block, end, p := AllocateOn(d, canRead[d], canWrite[d]);
      }
    }

    /** bdev_release_block: release on its own disk, then make sure that the disk is in the list. */
    method Release(d: Disk, block: nat, readOk: bool, writeOk: bool, unmapOk: bool)
      requires Valid() && d in disks && PositionOf(d.shift, block).index < |d.disk|
      modifies this, d
      ensures Valid() && disks == old(disks) && d in list
      ensures var p := PositionOf(d.shift, block);
              if (readOk || Holds(old(d.cache), p.index)) && old(d.disk)[p.index][p.bit] then
                && d.disk == (if writeOk then SetBit(old(d.disk), p, false) else old(d.disk))
                && d.free == old(d.free) + UNIT_SIZE && d.owned == old(d.owned) - {p}
                && d.inFlight == (if d.unmap && unmapOk then old(d.inFlight) + multiset{p} else old(d.inFlight))
              else
                d.disk == old(d.disk) && d.free == old(d.free) && d.owned == old(d.owned)
                && d.inFlight == old(d.inFlight)
      ensures var p := PositionOf(d.shift, block);
              old(Settled()) ==>
                (Settled() <==> ((readOk || Holds(old(d.cache), p.index)) && old(d.disk)[p.index][p.bit] ==>
                                   writeOk && Usable(d.units, p) && !(d.unmap && unmapOk)))
    {
      hide Disk.OwnedValid, Recorded, Coherent, FreeUnits, Usable, Indexes, PositionOf, Holds, SetBit, InsertedAt;
      var released := d.Release(block, readOk, writeOk, unmapOk);
      Insert(d);
    }

    /** bdev_add_new: a disk joins the pool. */
    method Add(d: Disk)
      requires Valid() && d.Valid() && d !in disks
      modifies this
      ensures Valid() && disks == old(disks) + {d} && d in list
      ensures old(Settled()) ==> (Settled() <==> d.Exact() && d.inFlight == multiset{})
    {
      hide Disk.Valid;
      disks := disks + {d};
      Insert(d);
    }
  }

  /** With exact counters and no discard in flight, a disk with free space has an available page. */
  lemma {:induction false} AvailableOnDisk(d: Disk)
    requires d.Valid()
    ensures d.CacheValid() && 9 <= d.shift <= 12 && Bitmap(d.units, d.disk)
    ensures d.Exact() && d.inFlight == multiset{} ==>
              (d.free > 0 <==> exists id :: 0 <= id < |d.disk| && Available(d.units, d.disk, d.inFlight, id))
  {
    FreeMeansAvailable(d.units, d.disk);
  }

  /** Allocating on one disk, by its counter. */
  method AllocateOn(d: Disk, canRead: seq<bool>, canWrite: seq<bool>) returns (block: nat, end: nat, ghost p: Position)
    requires d.Valid() && |canRead| == |canWrite| == |d.disk|
    modifies d
    ensures d.Valid() && d.CacheValid() && 9 <= d.shift <= 12 && Bitmap(d.units, old(d.disk))
            && |d.disk| == |old(d.disk)|
    ensures block == 0 ==> d.disk == old(d.disk) && d.free == old(d.free) && d.owned == old(d.owned)
    ensures block != 0 ==> && Free(d.units, old(d.disk), p) && p !in old(d.owned) && p !in d.inFlight
                           && d.disk == SetBit(old(d.disk), p, true) && d.free == old(d.free) - UNIT_SIZE
                           && d.owned == old(d.owned) + {p}
                           && block == UnitOf(p.index, p.bit) * SectorsPerUnit(d.shift)
                              && end == block + SectorsPerUnit(d.shift)
    ensures old(Quiet(d)) ==> Quiet(d)
    ensures false !in canRead && false !in canWrite && old(Quiet(d)) ==> (block != 0 <==> old(d.free) > 0)
  {
    AvailableOnDisk(d);
    hide Disk.OwnedValid, FreeUnits, Available, Free, PositionOf, UnitOf, SectorsPerUnit, Recorded;
    block, end, p := d.Allocate(canRead, canWrite);
  }

  // ----- A run: allocating until the pool is empty

  function Sum(frees: seq<nat>): nat {
    if frees == [] then 0 else Sum(frees[..|frees| - 1]) + frees[|frees| - 1]
  }

  ghost function Frees(all: seq<Disk>): seq<nat>
    reads all
  {
    seq(|all|, i requires 0 <= i < |all| reads all => all[i].free)
  }

  /** Free space of the disks together. */
  ghost function Space(all: seq<Disk>): nat
    reads all
  {
    Sum(Frees(all))
  }

  lemma {:induction false} SumUpdate(frees: seq<nat>, i: nat, v: nat)
    requires i < |frees|
    ensures Sum(frees[i := v]) == Sum(frees) - frees[i] + v
    decreases |frees|
  {
    var n := |frees| - 1;
    if i == n {
      assert frees[i := v][..n] == frees[..n];
    } else {
      assert frees[i := v][..n] == frees[..n][i := v];
      SumUpdate(frees[..n], i, v);
    }
  }

  /** All reads and writes of the pool's disks succeed. */
  ghost predicate AllGood(disks: set<Disk>, canRead: map<Disk, seq<bool>>, canWrite: map<Disk, seq<bool>>)
    reads disks
  {
    && disks <= canRead.Keys && disks <= canWrite.Keys
    && (forall e :: e in disks ==> |canRead[e]| == |canWrite[e]| == |e.disk|)
    && (forall e :: e in disks ==> false !in canRead[e] && false !in canWrite[e])
  }

  // ----- A round: every disk has its turn

  /** How far disk i of n is behind disk s. */
  function Steps(n: nat, s: nat, i: nat): nat
    requires s < n && i < n
  {
    if i >= s then i - s else i + n - s
  }

  /** The disk in turn has space: the unit is taken from it and the turn passes on. */
  method TakeTurn(pool: Pool, canRead: map<Disk, seq<bool>>, canWrite: map<Disk, seq<bool>>, ghost at: nat)
      returns (block: nat)
    requires pool.Valid() && pool.Settled() && AllGood(pool.disks, canRead, canWrite)
    requires at < |pool.list| && pool.list[at].free > 0
    requires pool.eligible == pool.list[at] || (pool.eligible == null && at == 0)
    modifies pool, pool.disks
    ensures pool.Valid() && pool.Settled() && pool.disks == old(pool.disks) && pool.list == old(pool.list)
    ensures AllGood(pool.disks, canRead, canWrite)
    ensures block != 0 && pool.eligible == pool.list[Onward(|pool.list|, at)]
    ensures pool.list[at].free == old(pool.list[at].free) - UNIT_SIZE
    ensures Frees(pool.list) == old(Frees(pool.list))[at := pool.list[at].free]
  {
    hide Disk.Valid, Quiet, Free, SetBit, UnitOf, SectorsPerUnit;
    ghost var d := pool.list[at];
    var end, e;
    ghost var p;
    block, end, e, p := pool.GetBlock(canRead, canWrite);
    assert e == d && pool.list[at] == d;
  }

  /** The free counters when the turn has been at k disks, from disk s on. */
  ghost predicate TakenFrom(now: seq<nat>, frees: seq<nat>, s: nat, k: nat) {
    s < |now| == |frees|
    && forall i :: 0 <= i < |now| ==> now[i] == frees[i] - if Steps(|now|, s, i) < k then UNIT_SIZE else 0
  }

  lemma {:induction false} TakenMore(now: seq<nat>, frees: seq<nat>, s: nat, at: nat, k: nat)
    requires TakenFrom(now, frees, s, k) && at < |now| && Steps(|now|, s, at) == k
    ensures now[at] == frees[at]
    ensures now[at] >= UNIT_SIZE ==> TakenFrom(now[at := now[at] - UNIT_SIZE], frees, s, k + 1)
    ensures Onward(|now|, at) == s <==> k == |now| - 1
    ensures k < |now| - 1 ==> Steps(|now|, s, Onward(|now|, at)) == k + 1
  {
  }

  lemma {:induction false} TakenAll(list: seq<Disk>, now: seq<nat>, frees: seq<nat>, s: nat, d: Disk)
    requires |list| == |now| && TakenFrom(now, frees, s, |now|) && d in list
    ensures now[IndexIn(list, d)] == frees[IndexIn(list, d)] - UNIT_SIZE
  {
  }

  lemma {:induction false} TurnIsListed(pool: Pool)
    requires pool.Valid()
    ensures pool.eligible != null ==> pool.eligible in pool.list
  {
  }

  /** From disks with free space, as many allocations as there are disks take one unit of each, and the turn is back
      where it was. */
  method Round(pool: Pool, canRead: map<Disk, seq<bool>>, canWrite: map<Disk, seq<bool>>) returns (blocks: seq<nat>)
    requires pool.Valid() && pool.Settled() && AllGood(pool.disks, canRead, canWrite) && pool.list != []
    requires forall d :: d in pool.list ==> d.free > 0
    modifies pool, pool.disks
    ensures pool.Valid() && pool.Settled() && pool.disks == old(pool.disks) && pool.list == old(pool.list)
    ensures |blocks| == |pool.list| && 0 !in blocks
    ensures pool.eligible == if old(pool.eligible) == null then pool.list[0] else old(pool.eligible)
    ensures forall d :: d in pool.list ==> d.free == old(d.free) - UNIT_SIZE
  {
    hide Pool.Valid, Pool.Settled, AllGood, Onward, TakenFrom, Steps;
    TurnIsListed(pool);
    var n := |pool.list|;
    ghost var list, frees := pool.list, Frees(pool.list);
    ghost var s: nat := if pool.eligible == null then 0 else IndexIn(list, pool.eligible);
    ghost var at: nat := s;
    NoneTaken(frees, s);
    blocks := [];
    while |blocks| < n
      invariant |blocks| <= n && 0 !in blocks && at < n
      invariant pool.eligible == list[at] || (blocks == [] && pool.eligible == null && at == 0)
      invariant if |blocks| == n then at == s else Steps(n, s, at) == |blocks|
      invariant pool.Valid() && pool.Settled() && pool.disks == old(pool.disks) && pool.list == list
      invariant AllGood(pool.disks, canRead, canWrite) && TakenFrom(Frees(list), frees, s, |blocks|)
    {
      TakenMore(Frees(list), frees, s, at, |blocks|);
      var block := TakeTurn(pool, canRead, canWrite, at);
      at := Onward(n, at);
      blocks := blocks + [block];
    }
    forall d | d in list
      ensures d.free == old(d.free) - UNIT_SIZE
    {
      TakenAll(list, Frees(list), frees, s, d);
    }
  }

  lemma {:induction false} NoneTaken(frees: seq<nat>, s: nat)
    requires s < |frees|
    ensures TakenFrom(frees, frees, s, 0) && Steps(|frees|, s, s) == 0
  {
  }

  /** One more unit, as long as any disk has one. */
  method TakeOne(pool: Pool, canRead: map<Disk, seq<bool>>, canWrite: map<Disk, seq<bool>>, ghost all: seq<Disk>)
      returns (ok: bool)
    requires pool.Valid() && pool.Settled() && NoRepeats(all) && (forall d :: d in all <==> d in pool.disks)
    requires AllGood(pool.disks, canRead, canWrite)
    modifies pool, pool.disks
    ensures pool.Valid() && pool.Settled() && pool.disks == old(pool.disks) && AllGood(pool.disks, canRead, canWrite)
    ensures if ok then Space(all) == old(Space(all)) - UNIT_SIZE
            else Space(all) == old(Space(all)) && forall d :: d in all ==> d.free == 0
  {
    hide Disk.Valid, Disk.OwnedValid, Disk.CacheValid, Quiet, FreeUnits, Sum;
    ghost var before := Frees(all);
    var block, end, d, p := pool.GetBlock(canRead, canWrite);
    ok := block != 0;
    if ok {
      ghost var i := IndexIn(all, d);
      SumUpdate(before, i, d.free);
      assert Frees(all) == before[i := d.free];
    } else {
      assert Frees(all) == before;
    }
  }

  /** From exact counters and with no discard in flight, a pool yields exactly as many units as are free,
      whatever disks they are on, and then refuses with no unit left. */
  method Exhaust(pool: Pool, canRead: map<Disk, seq<bool>>, canWrite: map<Disk, seq<bool>>, ghost all: seq<Disk>)
      returns (count: nat)
    requires pool.Valid() && pool.Settled() && NoRepeats(all) && (forall d :: d in all <==> d in pool.disks)
    requires AllGood(pool.disks, canRead, canWrite)
    modifies pool, pool.disks
    ensures pool.Valid() && pool.Settled()
    ensures UNIT_SIZE * count == old(Space(all))
    ensures forall d :: d in all ==> d.free == 0
  {
    hide Disk.Valid, Disk.OwnedValid, Disk.CacheValid, Quiet, Sum;
    count := 0;
    var more := true;
    while more
      invariant pool.Valid() && pool.Settled() && pool.disks == old(pool.disks)
                && AllGood(pool.disks, canRead, canWrite)
      invariant UNIT_SIZE * count + Space(all) == old(Space(all))
      invariant !more ==> forall d :: d in all ==> d.free == 0
      decreases more, Space(all)
    {
      more := TakeOne(pool, canRead, canWrite, all);
      if more {
        count := count + 1;
      }
    }
    NoSpace(Frees(all));
  }

  lemma {:induction false} NoSpace(frees: seq<nat>)
    requires forall i :: 0 <= i < |frees| ==> frees[i] == 0
    ensures Sum(frees) == 0
    decreases |frees|
  {
    if frees != [] {
      NoSpace(frees[..|frees| - 1]);
    }
  }
}
