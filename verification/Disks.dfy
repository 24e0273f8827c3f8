/** The disk object over the bitmap: allocating, releasing, discards, loading. */
module Disks {
  import opened Units
  import opened Allocator

  /** The page has a clear padding bit (a bit of the last byte past the end of the disk) that is ready. */
  ghost predicate PaddingReady(units: nat, disk: seq<seq<bool>>, inFlight: multiset<Position>, id: nat)
    requires Bitmap(units, disk) && id < |disk|
  {
    EntriesCover(units, id);
    exists b :: Hi(units, id) <= b < 8 * Entries(units, id) && !disk[id][b] && Position(id, b) !in inFlight
  }

  ghost predicate Free(units: nat, disk: seq<seq<bool>>, p: Position)
    requires Bitmap(units, disk)
  {
    Usable(units, p) && !disk[p.index][p.bit]
  }

  /** Exactly when a page yields a unit: it has a free one that is ready, or a free one that is worth
      waiting for because no padding bit is taken first. */
  ghost predicate Available(units: nat, disk: seq<seq<bool>>, inFlight: multiset<Position>, id: nat)
    requires Bitmap(units, disk) && id < |disk|
  {
    exists b :: Free(units, disk, Position(id, b))
                && (Position(id, b) !in inFlight || !PaddingReady(units, disk, inFlight, id))
  }

  function PositionOf(shift: nat, block: nat): Position
    requires 9 <= shift <= 12
  {
    var (id, i, j) := IndexOf(shift, block);
    Position(id, 8 * i + j)
  }

  /** What FindClear finds on a page is a usable bit exactly when the page is available. */
  lemma {:induction false} FoundIsUsable(units: nat, disk: seq<seq<bool>>, inFlight: multiset<Position>, id: nat,
                                         discards: seq<nat>, p: nat)
    requires Bitmap(units, disk) && id < |disk| && Lo(id) <= p < 8 * Entries(units, id) <= UNITS_PER_INDEX
             && !disk[id][p]
    requires forall b: nat :: Position(id, b) in inFlight <==> b in discards
    requires if p !in discards then FirstReady(disk[id], discards, Lo(id), p)
             else AllSet(disk[id], Lo(id), p) && FirstReady(disk[id], discards, Lo(id), 8 * Entries(units, id))
    ensures Usable(units, Position(id, p)) <==> Available(units, disk, inFlight, id)
  {
    EntriesCover(units, id);
    if Usable(units, Position(id, p)) {
      assert Free(units, disk, Position(id, p));
      if PaddingReady(units, disk, inFlight, id) {
        var b :| Hi(units, id) <= b < 8 * Entries(units, id) && !disk[id][b] && Position(id, b) !in inFlight;
        assert b !in discards;
      }
    } else {
      assert p >= Hi(units, id);
      forall b: nat | Free(units, disk, Position(id, b))
        ensures Position(id, b) in inFlight && PaddingReady(units, disk, inFlight, id)
      {
        assert b < p;
        assert b in discards;
        assert Position(id, p) !in inFlight;
      }
    }
  }

  lemma {:induction false} AllSetIsUnavailable(units: nat, disk: seq<seq<bool>>, inFlight: multiset<Position>, id: nat)
    requires Bitmap(units, disk) && id < |disk| && 8 * Entries(units, id) <= UNITS_PER_INDEX
    requires AllSet(disk[id], Lo(id), 8 * Entries(units, id))
    ensures !Available(units, disk, inFlight, id)
  {
    EntriesCover(units, id);
  }

  /** With no discard in flight, a disk with a free unit has an available page. */
  lemma {:induction false} FreeIsAvailable(units: nat, disk: seq<seq<bool>>, n: nat) returns (id: nat)
    requires Bitmap(units, disk) && n <= |disk| && FreeUnits(units, disk, n) > 0
    ensures id < n && Available(units, disk, multiset{}, id)
  {
    if Clear(disk[n - 1], Lo(n - 1), Hi(units, n - 1)) > 0 {
      var b := ClearWitness(disk[n - 1], Lo(n - 1), Hi(units, n - 1));
      assert Free(units, disk, Position(n - 1, b));
      id := n - 1;
    } else {
      id := FreeIsAvailable(units, disk, n - 1);
    }
  }

  lemma {:induction false} ClearWitness(bits: seq<bool>, lo: nat, hi: nat) returns (b: nat)
    requires hi <= |bits| && Clear(bits, lo, hi) > 0
    ensures lo <= b < hi && !bits[b]
  {
    if bits[hi - 1] {
      b := ClearWitness(bits, lo, hi - 1);
    } else {
      b := hi - 1;
    }
  }

  function EmptyBitmap(units: nat): (disk: seq<seq<bool>>)
    ensures Bitmap(units, disk)
  {
    seq(Indexes(units), _ => seq(UNITS_PER_INDEX, _ => false))
  }

  lemma {:induction false} EmptyPage(bits: seq<bool>, lo: nat, hi: nat)
    requires lo <= hi <= |bits| && forall b :: 0 <= b < |bits| ==> !bits[b]
    ensures Clear(bits, lo, hi) == hi - lo
    decreases hi
  {
    if hi > lo {
      EmptyPage(bits, lo, hi - 1);
    }
  }

  /** Usable units of the first n pages. */
  function UpTo(units: nat, n: nat): int {
    if n == 0 then 0 else (if n < Indexes(units) then n * UNITS_PER_INDEX else units) - RESERVED
  }

  lemma {:induction false} EmptySum(units: nat, n: nat)
    requires units >= 64 && 0 < n <= Indexes(units)
    ensures UpTo(units, n) == UpTo(units, n - 1) + Hi(units, n - 1) - Lo(n - 1)
  {
    if n == Indexes(units) {
      assert (n - 1) * UNITS_PER_INDEX < units <= n * UNITS_PER_INDEX;
    }
  }

  /** The free counter a new disk starts with is the number of its usable units. */
  lemma {:induction false} EmptyIsFree(units: nat, n: nat)
    requires units >= 64 && n <= Indexes(units)
    ensures FreeUnits(units, EmptyBitmap(units), n) == UpTo(units, n)
    decreases n
  {
    if n > 0 {
      EmptyIsFree(units, n - 1);
      var disk := EmptyBitmap(units);
      EmptyPage(disk[n - 1], Lo(n - 1), Hi(units, n - 1));
      assert FreeUnits(units, disk, n) == FreeUnits(units, disk, n - 1) + Hi(units, n - 1) - Lo(n - 1);
      EmptySum(units, n);
      hide FreeUnits, EmptyBitmap, Clear;
    }
  }

  /** With no discard in flight, a disk has a free unit exactly when some page yields one. */
  lemma {:induction false} FreeMeansAvailable(units: nat, disk: seq<seq<bool>>)
    requires Bitmap(units, disk)
    ensures FreeUnits(units, disk, |disk|) > 0
            <==> exists id :: 0 <= id < |disk| && Available(units, disk, multiset{}, id)
  {
    if FreeUnits(units, disk, |disk|) > 0 {
      var id := FreeIsAvailable(units, disk, |disk|);
    }
    forall id, b | 0 <= id < |disk| && Free(units, disk, Position(id, b))
      ensures FreeUnits(units, disk, |disk|) > 0
    {
      FreePositive(units, disk, Position(id, b), |disk|);
    }
  }

  /** What is handed out is marked, and no discard can still reach it. */
  ghost predicate Held(units: nat, disk: seq<seq<bool>>, owned: set<Position>, inFlight: multiset<Position>)
    requires Bitmap(units, disk)
  {
    forall p :: p in owned ==> Usable(units, p) && disk[p.index][p.bit] && p !in inFlight
  }

  lemma {:induction false} HeldTake(units: nat, disk: seq<seq<bool>>, owned: set<Position>,
                                    inFlight: multiset<Position>, p: Position)
    requires Bitmap(units, disk) && Held(units, disk, owned, inFlight) && Free(units, disk, p) && p !in inFlight
    ensures p !in owned && Bitmap(units, SetBit(disk, p, true))
            && Held(units, SetBit(disk, p, true), owned + {p}, inFlight)
    ensures FreeUnits(units, SetBit(disk, p, true), |disk|) == FreeUnits(units, disk, |disk|) - 1
            && FreeUnits(units, disk, |disk|) > 0
  {
    FreeUpdate(units, disk, p, true, |disk|);
    FreePositive(units, disk, p, |disk|);
    hide FreeUnits;
  }

  lemma {:induction false} HeldGive(units: nat, disk: seq<seq<bool>>, owned: set<Position>,
                                    inFlight: multiset<Position>, p: Position)
    requires Bitmap(units, disk) && Held(units, disk, owned, inFlight) && p.index < |disk| && p.bit < UNITS_PER_INDEX
             && disk[p.index][p.bit]
    ensures Held(units, disk, owned - {p}, inFlight)
    ensures Bitmap(units, SetBit(disk, p, false)) && Held(units, SetBit(disk, p, false), owned - {p}, inFlight)
    ensures FreeUnits(units, SetBit(disk, p, false), |disk|) <= FreeUnits(units, disk, |disk|) + 1
  {
    FreeUpdate(units, disk, p, false, |disk|);
    hide FreeUnits;
  }

  lemma {:induction false} HeldWaited(units: nat, disk: seq<seq<bool>>, owned: set<Position>, a: multiset<Position>,
                                      b: multiset<Position>)
    requires Bitmap(units, disk) && Held(units, disk, owned, a) && b <= a
    ensures Held(units, disk, owned, b)
  {
  }

  class Disk {
    const units: nat
    const shift: nat
    var free: nat
    var unmap: bool
    var disk: seq<seq<bool>>
    var cache: seq<Page>
    var indexCount: nat
    /** Discards handed to the device that have not completed. */
    ghost var inFlight: multiset<Position>
    /** Units handed out and not released since. */
    ghost var owned: set<Position>

    ghost predicate CacheValid()
      reads this
    {
      && 9 <= shift <= 12 && units >= 64
      && Coherent(units, disk, cache)
      && Recorded(cache, inFlight)
    }

    ghost predicate OwnedValid()
      reads this
      requires CacheValid()
    {
      Held(units, disk, owned, inFlight)
    }

    ghost predicate Valid()
      reads this
    {
      CacheValid() && OwnedValid() && free >= UNIT_SIZE * FreeUnits(units, disk, |disk|)
    }

    /** How far the free counter is ahead of the free units. */
    ghost function Slack(): int
      reads this
      requires CacheValid()
    {
      free - UNIT_SIZE * FreeUnits(units, disk, |disk|)
    }

    /** The free counter is exact: what a reload would compute. */
    ghost predicate Exact()
      reads this
      requires CacheValid()
    {
      free == UNIT_SIZE * FreeUnits(units, disk, |disk|)
    }

    /** A disk added to a pool: an empty bitmap, everything free but the reserved units. */
    constructor (units: nat, shift: nat, unmap: bool)
      requires 9 <= shift <= 12 && units >= 64
      ensures Valid() && Exact() && owned == {} && inFlight == multiset{} && cache == []
      ensures this.units == units && this.shift == shift && this.unmap == unmap
      ensures disk == EmptyBitmap(units) && forall p :: Usable(units, p) ==> Free(units, disk, p)
    {
      this.units, this.shift, this.unmap := units, shift, unmap;
      disk := EmptyBitmap(units);
      free := UNIT_SIZE * (units - RESERVED);
      cache, indexCount := [], 0;
      inFlight, owned := multiset{}, {};
      new;
      EmptyIsFree(units, |disk|);
    }

    /** A disk found with a bitmap on it, before it is loaded. */
    constructor Existing(units: nat, shift: nat, unmap: bool, disk: seq<seq<bool>>, ghost owned: set<Position>)
      requires 9 <= shift <= 12 && units >= 64 && Bitmap(units, disk)
      requires forall p :: p in owned ==> Usable(units, p) && disk[p.index][p.bit]
      ensures CacheValid() && OwnedValid() && inFlight == multiset{} && cache == []
      ensures this.units == units && this.shift == shift && this.unmap == unmap && this.disk == disk
              && this.owned == owned
    {
      this.units, this.shift, this.unmap, this.disk, this.owned := units, shift, unmap, disk, owned;
      free, cache, indexCount, inFlight := 0, [], 0, multiset{};
    }

    /** bint_load: read every page and count the free units. */
    method Load(canRead: seq<bool>) returns (ok: bool)
      requires CacheValid() && OwnedValid() && cache == [] && |canRead| == |disk|
      modifies `cache, `indexCount, `free
      ensures ok <==> false !in canRead
      ensures ok ==> Valid() && Exact()
    {
      hide Recorded, Clear, Indexes;
      var i, n := 0, 0;
      while i < Indexes(units)
        invariant CacheValid() && 0 <= i <= |disk|
        invariant forall j: nat :: Holds(cache, j) ==> j < i
        invariant n == FreeUnits(units, disk, i)
        invariant forall j :: 0 <= j < i ==> canRead[j]
      {
        if !canRead[i] {
          return false;
        }
        var m := CountFree(units, i, disk[i]);
        n := n + m;
        Insert(i);
        i := i + 1;
      }
      free := UNIT_SIZE * n;
      return true;
    }

    /** bint_index_insert. */
    method Insert(id: nat)
      requires CacheValid() && id < |disk| && !Holds(cache, id)
      modifies `cache, `indexCount
      ensures CacheValid()
      ensures cache != [] && cache[|cache| - 1].id == id
      ensures forall j :: Holds(cache, j) ==> j == id || Holds(old(cache), j)
    {
      hide Holds, Recorded, Coherent;
      if indexCount < MAX_INDEX_COUNT || cache == [] {
        indexCount := indexCount + 1;
      } else if cache[0].discards == [] {
        EvictHead(units, disk, cache, inFlight);
        cache := cache[1..];
      }
      AddPage(units, disk, cache, inFlight, id);
      cache := cache + [Page(id, disk[id], [])];
    }

    /** bint_get_index: the page's place in the cache, -1 when it cannot be read. */
    method GetIndex(id: nat, readOk: bool) returns (k: int)
      requires CacheValid() && id < |disk|
      modifies `cache, `indexCount
      ensures CacheValid()
      ensures k == -1 || (0 <= k < |cache| && cache[k].id == id)
      ensures k == -1 <==> !readOk && !Holds(old(cache), id)
      ensures k == -1 ==> cache == old(cache)
    {
      k := 0;
      while k < |cache|
        invariant 0 <= k <= |cache|
        invariant forall a :: 0 <= a < k ==> cache[a].id != id
      {
        if cache[k].id == id {
          return;
        }
        k := k + 1;
      }
      if !readOk {
        return -1;
      }
      Insert(id);
      k := |cache| - 1;
    }

    /** Waiting until no discard of a bit is in flight. */
    method WaitFor(k: nat, bit: nat)
      requires CacheValid() && k < |cache|
      modifies `cache, `inFlight
      ensures CacheValid() && (old(Valid()) ==> Valid())
      ensures |cache| == |old(cache)| && cache[k].id == old(cache)[k].id && cache[k].bits == old(cache)[k].bits
      ensures inFlight == old(inFlight)[Position(cache[k].id, bit) := 0]
    {
      RecordWaited(units, disk, cache, inFlight, k, bit);
      if OwnedValid() {
        HeldWaited(units, disk, owned, inFlight, inFlight[Position(cache[k].id, bit) := 0]);
      }
      hide Held, FreeUnits, Recorded, Without;
      inFlight := inFlight[Position(cache[k].id, bit) := 0];
      cache := cache[k := cache[k].(discards := Without(cache[k].discards, bit))];
    }

    /** Setting or clearing a bit of a cached page and writing the page. */
    method WriteBit(k: nat, bit: nat, v: bool, writeOk: bool)
      requires CacheValid() && k < |cache| && bit < UNITS_PER_INDEX && cache[k].bits[bit] != v
      modifies `cache, `disk
      ensures CacheValid()
      ensures |cache| == |old(cache)| && cache[k].id == old(cache)[k].id && cache[k].discards == old(cache)[k].discards
      ensures disk == if writeOk then SetBit(old(disk), Position(cache[k].id, bit), v) else old(disk)
    {
      var page := cache[k];
      if writeOk {
        WriteThrough(units, disk, cache, k, bit, v);
      }
      cache := cache[k := page.(bits := page.bits[bit := v])];
      if writeOk {
        disk := SetBit(disk, Position(page.id, bit), v);
        SameRecords(old(cache), cache, inFlight);
      } else {
        cache := cache[k := page];
        assert cache == old(cache);
      }
    }

    /** Marking a free bit allocated. */
    method Take(k: nat, bit: nat, writeOk: bool)
      requires Valid() && k < |cache|
      requires Free(units, disk, Position(cache[k].id, bit)) && Position(cache[k].id, bit) !in inFlight
      modifies `cache, `disk, `free, `owned
      ensures Valid()
      ensures |cache| == |old(cache)|
      ensures !writeOk ==> disk == old(disk) && free == old(free) && owned == old(owned)
      ensures Slack() == old(Slack())
      ensures writeOk ==> var p := Position(old(cache)[k].id, bit);
                          p !in old(owned) && disk == SetBit(old(disk), p, true)
                          && free == old(free) - UNIT_SIZE && owned == old(owned) + {p}
    {
      ghost var p := Position(cache[k].id, bit);
      HeldTake(units, disk, owned, inFlight, p);
      hide Held, FreeUnits, Recorded, Free, SetBit, Usable;
      WriteBit(k, bit, true, writeOk);
      if writeOk {
        free := free - UNIT_SIZE;
        owned := owned + {p};
      }
    }

    /** The bit that bint_get_block settles on. */
    method Choose(k: nat) returns (found: bool, bit: nat)
      requires CacheValid() && k < |cache|
      ensures found ==> bit < UNITS_PER_INDEX && !disk[cache[k].id][bit]
      ensures found && RESERVED <= UnitOf(cache[k].id, bit) < units <==> Available(units, disk, inFlight, cache[k].id)
      ensures found ==> RESERVED <= UnitOf(cache[k].id, bit)
    {
      var id := cache[k].id;
      EntriesCover(units, id);
      found, bit := FindClear(id, cache[k].bits, Entries(units, id), cache[k].discards);
      if found {
        Known(units, disk, cache, inFlight, k);
        FoundIsUsable(units, disk, inFlight, id, cache[k].discards, bit);
        UsableIsInRange(units, Position(id, bit));
      } else {
        AllSetIsUnavailable(units, disk, inFlight, id);
      }
    }

    /** bint_get_block on one cached page. */
    method GetBlock(k: nat, writeOk: bool) returns (ok: bool, bit: nat)
      requires Valid() && k < |cache|
      modifies `cache, `disk, `free, `inFlight, `owned
      ensures Valid()
      ensures |cache| == |old(cache)|
      ensures inFlight <= old(inFlight)
      ensures forall p: Position :: p.index != old(cache)[k].id ==> inFlight[p] == old(inFlight)[p]
      ensures ok <==> writeOk && Available(units, old(disk), old(inFlight), old(cache)[k].id)
      ensures !ok ==> disk == old(disk) && free == old(free) && owned == old(owned)
      ensures ok ==> var p := Position(old(cache)[k].id, bit);
                     && bit < UNITS_PER_INDEX && Free(units, old(disk), p) && p !in old(owned) && p !in inFlight
                     && disk == SetBit(old(disk), p, true) && free == old(free) - UNIT_SIZE && owned == old(owned) + {p}
      ensures Slack() == old(Slack())
    {
      hide Available, Recorded, Coherent, FreeUnits;
      ok, bit := Choose(k);
      if ok {
        WaitFor(k, bit);
        if UnitOf(cache[k].id, bit) + 1 > units {
          return false, bit;
        }
        UsableIsInRange(units, Position(cache[k].id, bit));
        Take(k, bit, writeOk);
        ok := writeOk;
      }
    }

    /** __bint_get_block: the first page that yields a unit.  canRead and canWrite say which pages can be read
        and written. */
    method Allocate(canRead: seq<bool>, canWrite: seq<bool>) returns (block: nat, end: nat, ghost p: Position)
      requires Valid() && |canRead| == |canWrite| == |disk|
      modifies `cache, `indexCount, `disk, `free, `inFlight, `owned
      ensures Valid()
      ensures inFlight <= old(inFlight)
      ensures block == 0 ==> disk == old(disk) && free == old(free) && owned == old(owned)
      ensures block != 0 ==> && Free(units, old(disk), p) && p !in old(owned) && p !in inFlight
                             && disk == SetBit(old(disk), p, true) && free == old(free) - UNIT_SIZE
                             && owned == old(owned) + {p}
      ensures block != 0 ==> && block == UnitOf(p.index, p.bit) * SectorsPerUnit(shift)
                             && end == block + SectorsPerUnit(shift) && PositionOf(shift, block) == p
      ensures old(Exact()) ==> Exact()
      ensures false !in canRead && false !in canWrite ==>
                (block != 0 <==> exists id :: 0 <= id < |disk| && Available(units, old(disk), old(inFlight), id))
    {
      hide Recorded, FreeUnits, Usable, Indexes, AllocBlock, Available, PositionOf, UnitOf;
      var id := 0;
      while id < Indexes(units)
        invariant Valid() && 0 <= id <= |disk|
        invariant disk == old(disk) && free == old(free) && owned == old(owned) && inFlight <= old(inFlight)
        invariant Slack() == old(Slack())
        invariant forall q: Position :: q.index >= id ==> inFlight[q] == old(inFlight)[q]
        invariant false !in canWrite ==> forall i :: 0 <= i < id ==> !Available(units, old(disk), old(inFlight), i)
      {
        var k := GetIndex(id, canRead[id]);
        if k == -1 {
          assert canRead[id] in canRead;
          return 0, 0, Position(0, 0);
        }
        SameAvailable(units, disk, old(inFlight), inFlight, id);
        var ok, bit := GetBlock(k, canWrite[id]);
        if ok {
          p := Position(id, bit);
          block := AllocBlock(shift, id, bit / 8, bit % 8);
          UsableIsInRange(units, p);
          BlockOfBit(shift, id, bit);
          end := block + SectorsPerUnit(shift);
          return;
        }
        assert canWrite[id] in canWrite;
        id := id + 1;
      }
      return 0, 0, Position(0, 0);
    }

    /** Clearing the bit of a unit and writing the page. */
    method Unmark(k: nat, bit: nat, writeOk: bool)
      requires Valid() && k < |cache| && bit < UNITS_PER_INDEX && cache[k].bits[bit]
      modifies `cache, `disk, `free, `owned
      ensures Valid()
      ensures |cache| == |old(cache)| && cache[k].id == old(cache)[k].id
      ensures var p := Position(old(cache)[k].id, bit);
              && disk == (if writeOk then SetBit(old(disk), p, false) else old(disk))
              && free == old(free) + UNIT_SIZE && owned == old(owned) - {p}
    {
      ghost var p := Position(cache[k].id, bit);
      HeldGive(units, disk, owned, inFlight, p);
      hide Held, FreeUnits, Recorded, SetBit, Usable;
      owned := owned - {p};
      WriteBit(k, bit, false, writeOk);
      free := free + UNIT_SIZE;
    }

    /** Queueing a discard that the device accepts.  (The record of a refused one is taken back before the
        lock is released.) */
    method Submit(k: nat, bit: nat)
      requires Valid() && k < |cache| && Position(cache[k].id, bit) !in owned
      modifies `cache, `inFlight
      ensures Valid()
      ensures inFlight == old(inFlight) + multiset{Position(old(cache)[k].id, bit)}
    {
      hide Recorded, Coherent, Usable, FreeUnits;
      RecordStart(units, disk, cache, inFlight, k, bit);
      inFlight := inFlight + multiset{Position(cache[k].id, bit)};
      cache := cache[k := cache[k].(discards := cache[k].discards + [bit])];
    }

    /** bio_unmap_end_bio: record n of page k completes. */
    method DiscardDone(k: nat, n: nat)
      requires Valid() && k < |cache| && n < |cache[k].discards|
      modifies `cache, `inFlight
      ensures Valid()
      ensures inFlight == old(inFlight) - multiset{Position(old(cache)[k].id, old(cache)[k].discards[n])}
    {
      hide Recorded, Coherent, Usable, FreeUnits;
      RecordEnd(units, disk, cache, inFlight, k, n);
      var was := cache[k].discards;
      inFlight := inFlight - multiset{Position(cache[k].id, was[n])};
      cache := cache[k := cache[k].(discards := was[..n] + was[n + 1..])];
    }

    /** __bint_release_block. */
    method Release(block: nat, readOk: bool, writeOk: bool, unmapOk: bool) returns (released: bool)
      requires Valid() && PositionOf(shift, block).index < |disk|
      modifies `cache, `indexCount, `disk, `free, `inFlight, `owned
      ensures Valid()
      ensures var p := PositionOf(shift, block);
              released <==> (readOk || Holds(old(cache), p.index)) && old(disk)[p.index][p.bit]
      ensures !released ==> disk == old(disk) && free == old(free) && inFlight == old(inFlight) && owned == old(owned)
      ensures released ==> var p := PositionOf(shift, block);
              && disk == (if writeOk then SetBit(old(disk), p, false) else old(disk))
              && free == old(free) + UNIT_SIZE && owned == old(owned) - {p}
              && inFlight == if unmap && unmapOk then old(inFlight) + multiset{p} else old(inFlight)
      ensures old(Exact()) ==> (Exact() <==> released ==> writeOk && Usable(units, PositionOf(shift, block)))
    {
      hide Recorded, FreeUnits, Usable, Indexes;
      var (id, i, j) := IndexOf(shift, block);
      var k := GetIndex(id, readOk);
      if k == -1 || !cache[k].bits[8 * i + j] {
        return false;
      }
      FreeUpdate(units, disk, Position(id, 8 * i + j), false, |disk|);
      Unmark(k, 8 * i + j, writeOk);
      if unmap && unmapOk {
        Submit(k, 8 * i + j);
      }
      released := true;
    }
  }

  /** Releasing an allocated unit gives the bitmap back. */
  lemma {:induction false} ReleaseUndoesAllocate(units: nat, disk: seq<seq<bool>>, p: Position)
    requires Bitmap(units, disk) && Free(units, disk, p)
    ensures SetBit(SetBit(disk, p, true), p, false) == disk
  {
    assert disk[p.index][p.bit := true][p.bit := false] == disk[p.index];
  }

  /** Allocating and releasing at once leaves the disk as it was: bitmap, counter and owners.  What may be left
      is the discard of the unit. */
  method AllocateAndRelease(d: Disk, canRead: seq<bool>, canWrite: seq<bool>, unmapOk: bool) returns (block: nat)
    requires d.Valid() && |canRead| == |canWrite| == |d.disk|
    modifies d
    ensures d.Valid() && d.disk == old(d.disk) && d.free == old(d.free) && d.owned == old(d.owned)
    ensures !(d.unmap && unmapOk) ==> d.inFlight <= old(d.inFlight)
    ensures block != 0 && d.unmap && unmapOk ==> PositionOf(d.shift, block) in d.inFlight
  {
    var end;
    ghost var p;
    block, end, p := d.Allocate(canRead, canWrite);
    if block != 0 {
      ReleaseUndoesAllocate(d.units, old(d.disk), p);
      hide FreeUnits, Recorded, Available;
      var released := d.Release(block, true, true, unmapOk);
    }
  }

  lemma {:induction false} SameAvailable(units: nat, disk: seq<seq<bool>>, a: multiset<Position>, b: multiset<Position>,
                                         id: nat)
    requires Bitmap(units, disk) && id < |disk| && forall p: Position :: p.index == id ==> a[p] == b[p]
    ensures Available(units, disk, a, id) == Available(units, disk, b, id)
  {
    assert forall bit :: Position(id, bit) in a <==> Position(id, bit) in b;
  }

  lemma {:induction false} BlockOfBit(shift: nat, id: nat, bit: nat)
    requires 9 <= shift <= 12 && bit < UNITS_PER_INDEX
    ensures AllocBlock(shift, id, bit / 8, bit % 8) == UnitOf(id, bit) * SectorsPerUnit(shift)
    ensures PositionOf(shift, AllocBlock(shift, id, bit / 8, bit % 8)) == Position(id, bit)
    ensures UnitOf(id, bit) > 0 ==> AllocBlock(shift, id, bit / 8, bit % 8) > 0
  {
    AllocBlockIsUnitStart(shift, id, bit / 8, bit % 8);
    IndexOfInverts(shift, id, bit / 8, bit % 8, 0);
  }

  lemma {:induction false} SameRecords(cache: seq<Page>, cache': seq<Page>, inFlight: multiset<Position>)
    requires Recorded(cache, inFlight) && |cache'| == |cache|
    requires forall k :: 0 <= k < |cache| ==> cache'[k].id == cache[k].id && cache'[k].discards == cache[k].discards
    ensures Recorded(cache', inFlight)
  {
    forall p | p in inFlight
      ensures Holds(cache', p.index)
    {
      var k :| 0 <= k < |cache| && cache[k].id == p.index;
      assert cache'[k].id == p.index;
    }
  }

  lemma {:induction false} Known(units: nat, disk: seq<seq<bool>>, cache: seq<Page>, inFlight: multiset<Position>,
                                 k: nat)
    requires Coherent(units, disk, cache) && Recorded(cache, inFlight) && k < |cache|
    ensures forall b: nat :: Position(cache[k].id, b) in inFlight <==> b in cache[k].discards
  {
    forall b: nat
      ensures Position(cache[k].id, b) in inFlight <==> b in cache[k].discards
    {
      assert inFlight[Position(cache[k].id, b)] == Records(cache[k].discards, b);
    }
  }

  // ----- A free unit that is refused

  /** The bits that stand for no unit are as on a new disk. */
  ghost predicate PaddingClear(units: nat, disk: seq<seq<bool>>)
    requires Bitmap(units, disk)
  {
    forall id, b :: 0 <= id < |disk| && Hi(units, id) <= b < UNITS_PER_INDEX ==> !disk[id][b]
  }

  ghost predicate Full(units: nat, disk: seq<seq<bool>>)
    requires Bitmap(units, disk)
  {
    forall p :: Usable(units, p) ==> disk[p.index][p.bit]
  }

  lemma {:induction false} NoneFreeIsFull(units: nat, disk: seq<seq<bool>>)
    requires Bitmap(units, disk) && FreeUnits(units, disk, |disk|) == 0
    ensures Full(units, disk)
  {
    forall p | Usable(units, p)
      ensures disk[p.index][p.bit]
    {
      if !disk[p.index][p.bit] {
        FreePositive(units, disk, p, |disk|);
      }
    }
  }

  lemma {:induction false} TakeKeepsPadding(units: nat, disk: seq<seq<bool>>, p: Position)
    requires Bitmap(units, disk) && PaddingClear(units, disk) && Free(units, disk, p)
    ensures Bitmap(units, SetBit(disk, p, true)) && PaddingClear(units, SetBit(disk, p, true))
    ensures FreeUnits(units, SetBit(disk, p, true), |disk|) == FreeUnits(units, disk, |disk|) - 1
  {
    FreeUpdate(units, disk, p, true, |disk|);
    hide FreeUnits;
  }

  /** With no discard in flight, allocating goes on until every unit is taken. */
  method TakeAll(d: Disk)
    requires d.Valid() && d.Exact() && d.inFlight == multiset{} && PaddingClear(d.units, d.disk)
    modifies d
    ensures d.Valid() && d.Exact() && d.inFlight == multiset{} && PaddingClear(d.units, d.disk) && Full(d.units, d.disk)
    ensures d.unmap == old(d.unmap)
  {
    hide Disk.OwnedValid, FreeUnits, Available, Free, Recorded, PaddingClear, Full, PositionOf, Indexes;
    var good := seq(Indexes(d.units), _ => true);
    var more := true;
    while more
      invariant d.Valid() && d.Exact() && d.inFlight == multiset{} && PaddingClear(d.units, d.disk)
                && d.unmap == old(d.unmap)
      invariant !more ==> Full(d.units, d.disk)
      decreases more, FreeUnits(d.units, d.disk, |d.disk|)
    {
      ghost var before := d.disk;
      FreeMeansAvailable(d.units, d.disk);
      var block, end, p := d.Allocate(good, good);
      more := block != 0;
      if more {
        TakeKeepsPadding(d.units, before, p);
      } else {
        NoneFreeIsFull(d.units, d.disk);
      }
    }
  }

  /** A page of a disk with a single free unit, which has a discard in flight. */
  lemma {:induction false} OnlyWaiting(units: nat, disk: seq<seq<bool>>, p: Position, id: nat)
    requires Bitmap(units, disk) && PaddingClear(units, disk) && Full(units, disk) && Usable(units, p) && id < |disk|
    ensures Bitmap(units, SetBit(disk, p, false))
    ensures Available(units, SetBit(disk, p, false), multiset{p}, id)
            <==> id == p.index && !(units % 8 != 0 && id == Indexes(units) - 1)
  {
    var after := SetBit(disk, p, false);
    EntriesCover(units, id);
    PaddingIff(units, id);
    assert forall b: nat :: Free(units, after, Position(id, b)) <==> Position(id, b) == p;
    assert forall b :: Hi(units, id) <= b < UNITS_PER_INDEX ==> !after[id][b] && Position(id, b) != p;
    assert PaddingReady(units, after, multiset{p}, id) <==> Hi(units, id) < 8 * Entries(units, id) by {
      if Hi(units, id) < 8 * Entries(units, id) {
        assert !after[id][Hi(units, id)] && Position(id, Hi(units, id)) !in multiset{p};
      }
    }
    if id == p.index {
      assert Position(id, p.bit) == p;
    }
  }

  lemma {:induction false} PaddingIff(units: nat, id: nat)
    requires id < Indexes(units)
    ensures Hi(units, id) < 8 * Entries(units, id) <==> units % 8 != 0 && id == Indexes(units) - 1
  {
    EntriesCover(units, id);
    var here := Hi(units, id);
    assert 8 * Entries(units, id) == here <==> here % 8 == 0;
    LastBits(units, id, here);
    hide Indexes, Hi, Entries;
  }

  lemma {:induction false} LastBits(units: nat, id: nat, here: nat)
    requires id < Indexes(units) && here == Hi(units, id)
    ensures here % 8 != 0 <==> units % 8 != 0 && id == Indexes(units) - 1
  {
    if here < UNITS_PER_INDEX {
      assert units == 8 * (id * BMAP_ENTRIES) + here && id == Indexes(units) - 1;
    } else {
      if id == Indexes(units) - 1 {
        assert units == 8 * (id * BMAP_ENTRIES) + 8 * BMAP_ENTRIES;
      }
    }
  }

  /** On a disk that has been filled, one unit is released, and its discard is accepted.  The next allocation
      waits for the discard and gets the unit, unless the unit is on the last page and the disk does not end on
      a byte of the bitmap: then the search settles on a padding bit, which lies past the end of the disk, and
      the one free unit is refused. */
  method PaddingHidesFreeUnit(units: nat, shift: nat, p: Position) returns (d: Disk, block: nat)
    requires 9 <= shift <= 12 && units >= 64 && Usable(units, p)
    ensures fresh(d) && d.Valid() && d.units == units && d.shift == shift
    ensures block == 0 <==> units % 8 != 0 && p.index == Indexes(units) - 1
    ensures block == 0 ==> FreeUnits(units, d.disk, |d.disk|) == 1 && Free(units, d.disk, p)
  {
    hide Disk.OwnedValid, FreeUnits, Available, Free, Recorded, PaddingClear, Full, PositionOf, Indexes, EmptyBitmap;
    d := new Disk(units, shift, true);
    EmptyIsClear(units);
    TakeAll(d);
    ghost var full := d.disk;
    var start := UnitOf(p.index, p.bit) * SectorsPerUnit(shift);
    BlockOfBit(shift, p.index, p.bit);
    OneFree(units, full, p);
    var released := d.Release(start, true, true, true);
    assert d.disk == SetBit(full, p, false) && d.inFlight == multiset{p};
    forall id | 0 <= id < |d.disk|
      ensures Available(units, d.disk, d.inFlight, id)
              <==> id == p.index && !(units % 8 != 0 && id == Indexes(units) - 1)
    {
      OnlyWaiting(units, full, p, id);
    }
    assert 0 <= p.index < |d.disk|;
    assert (exists id :: 0 <= id < |d.disk| && Available(units, d.disk, d.inFlight, id))
           <==> Available(units, d.disk, d.inFlight, p.index);
    var good := seq(Indexes(units), _ => true);
    var end;
    ghost var q;
    block, end, q := d.Allocate(good, good);
  }

  lemma {:induction false} EmptyIsClear(units: nat)
    ensures PaddingClear(units, EmptyBitmap(units))
  {
  }

  lemma {:induction false} OneFree(units: nat, disk: seq<seq<bool>>, p: Position)
    requires Bitmap(units, disk) && Full(units, disk) && Usable(units, p)
    ensures Bitmap(units, SetBit(disk, p, false)) && disk[p.index][p.bit] && Free(units, SetBit(disk, p, false), p)
    ensures FreeUnits(units, SetBit(disk, p, false), |disk|) == 1
  {
    FreeUpdate(units, disk, p, false, |disk|);
    FullIsNoneFree(units, disk, |disk|);
    hide FreeUnits;
  }

  lemma {:induction false} FullIsNoneFree(units: nat, disk: seq<seq<bool>>, n: nat)
    requires Bitmap(units, disk) && Full(units, disk) && n <= |disk|
    ensures FreeUnits(units, disk, n) == 0
  {
    if n > 0 {
      FullIsNoneFree(units, disk, n - 1);
      if Clear(disk[n - 1], Lo(n - 1), Hi(units, n - 1)) > 0 {
        var b := ClearWitness(disk[n - 1], Lo(n - 1), Hi(units, n - 1));
        assert Usable(units, Position(n - 1, b));
      }
    }
  }
}
