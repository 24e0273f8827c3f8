/** One disk's allocator: a bitmap on disk, a write-through cache of its pages, and discards that complete
    asynchronously.  The results of disk I/O are parameters; each method is one step under the disk's
    lock, and the completion of a discard is a step of its own. */
module Allocator {
  import opened Units

  const MAX_INDEX_COUNT := 8

  /** A bit of the bitmap: which page, which bit of that page. */
  datatype Position = Position(index: nat, bit: nat)

  /** A cached bitmap page, and the bits of it that have a discard in flight. */
  datatype Page = Page(id: nat, bits: seq<bool>, discards: seq<nat>)

  // ----- Which units a disk hands out, and how many of them are free

  function Lo(id: nat): nat {
    if id == 0 then RESERVED else 0
  }

  function Hi(units: nat, id: nat): nat
    requires id * UNITS_PER_INDEX <= units
  {
    if units - id * UNITS_PER_INDEX < UNITS_PER_INDEX then units - id * UNITS_PER_INDEX else UNITS_PER_INDEX
  }

  predicate Usable(units: nat, p: Position) {
    p.index < Indexes(units) && Lo(p.index) <= p.bit < Hi(units, p.index)
  }

  ghost predicate Bitmap(units: nat, disk: seq<seq<bool>>) {
    |disk| == Indexes(units) && forall k :: 0 <= k < |disk| ==> |disk[k]| == UNITS_PER_INDEX
  }

  /** Clear bits of a page between two positions. */
  function Clear(bits: seq<bool>, lo: nat, hi: nat): nat
    requires hi <= |bits|
    decreases hi
  {
    if hi <= lo then 0 else Clear(bits, lo, hi - 1) + if bits[hi - 1] then 0 else 1
  }

  /** Free units of the first n pages. */
  ghost function FreeUnits(units: nat, disk: seq<seq<bool>>, n: nat): nat
    requires Bitmap(units, disk) && n <= |disk|
  {
    if n == 0 then 0 else FreeUnits(units, disk, n - 1) + Clear(disk[n - 1], Lo(n - 1), Hi(units, n - 1))
  }

  function SetBit(disk: seq<seq<bool>>, p: Position, v: bool): seq<seq<bool>>
    requires p.index < |disk| && p.bit < |disk[p.index]|
  {
    disk[p.index := disk[p.index][p.bit := v]]
  }

  /** The usable positions are the units past the reserved ones that fit on the disk. */
  lemma {:induction false} UsableIsInRange(units: nat, p: Position)
    requires p.index < Indexes(units) && p.bit < UNITS_PER_INDEX
    ensures Usable(units, p) <==> RESERVED <= UnitOf(p.index, p.bit) < units
  {
  }

  lemma {:induction false} ClearUpdate(bits: seq<bool>, b: nat, v: bool, lo: nat, hi: nat)
    requires b < |bits| && hi <= |bits|
    ensures Clear(bits[b := v], lo, hi)
         == Clear(bits, lo, hi) + if lo <= b < hi then (if bits[b] then 1 else 0) - (if v then 1 else 0) else 0
    decreases hi
  {
    if hi > lo {
      ClearUpdate(bits, b, v, lo, hi - 1);
    }
  }

  lemma {:induction false} ClearPositive(bits: seq<bool>, lo: nat, hi: nat, b: nat)
    requires lo <= b < hi <= |bits| && !bits[b]
    ensures Clear(bits, lo, hi) > 0
    decreases hi
  {
    if hi - 1 > b {
      ClearPositive(bits, lo, hi - 1, b);
    }
  }

  lemma {:induction false} FreeUpdate(units: nat, disk: seq<seq<bool>>, p: Position, v: bool, n: nat)
    requires Bitmap(units, disk) && p.index < |disk| && p.bit < UNITS_PER_INDEX && n <= |disk|
    ensures Bitmap(units, SetBit(disk, p, v))
    ensures FreeUnits(units, SetBit(disk, p, v), n)
         == FreeUnits(units, disk, n)
          + if p.index < n && Usable(units, p) then (if disk[p.index][p.bit] then 1 else 0) - (if v then 1 else 0)
            else 0
    decreases n
  {
    hide Clear;
    if n > 0 {
      FreeUpdate(units, disk, p, v, n - 1);
      if p.index == n - 1 {
        ClearUpdate(disk[n - 1], p.bit, v, Lo(n - 1), Hi(units, n - 1));
      }
    }
  }

  lemma {:induction false} FreePositive(units: nat, disk: seq<seq<bool>>, p: Position, n: nat)
    requires Bitmap(units, disk) && Usable(units, p) && p.index < n <= |disk| && !disk[p.index][p.bit]
    ensures FreeUnits(units, disk, n) > 0
    decreases n
  {
    if p.index == n - 1 {
      ClearPositive(disk[n - 1], Lo(n - 1), Hi(units, n - 1), p.bit);
    } else {
      FreePositive(units, disk, p, n - 1);
    }
  }

  // ----- The cache

  ghost predicate Coherent(units: nat, disk: seq<seq<bool>>, cache: seq<Page>) {
    && Bitmap(units, disk)
    && (forall k :: 0 <= k < |cache| ==> cache[k].id < |disk| && cache[k].bits == disk[cache[k].id])
    && forall a, b :: 0 <= a < b < |cache| ==> cache[a].id != cache[b].id
  }

  ghost predicate Holds(cache: seq<Page>, id: nat) {
    exists k :: 0 <= k < |cache| && cache[k].id == id
  }

  /** The records kept with the cached pages are exactly the discards in flight. */
  ghost predicate Recorded(cache: seq<Page>, inFlight: multiset<Position>) {
    && (forall k, b :: 0 <= k < |cache| ==> inFlight[Position(cache[k].id, b)] == Records(cache[k].discards, b))
    && (forall p :: p in inFlight ==> Holds(cache, p.index))
  }

  /** Records of one bit. */
  function Records(discards: seq<nat>, bit: nat): nat {
    multiset(discards)[bit]
  }

  lemma {:induction false} EvictHead(units: nat, disk: seq<seq<bool>>, cache: seq<Page>, inFlight: multiset<Position>)
    requires Coherent(units, disk, cache) && Recorded(cache, inFlight) && cache != [] && cache[0].discards == []
    ensures Coherent(units, disk, cache[1..]) && Recorded(cache[1..], inFlight)
    ensures forall j :: Holds(cache[1..], j) ==> Holds(cache, j)
  {
    forall j | Holds(cache[1..], j)
      ensures Holds(cache, j)
    {
      var k :| 0 <= k < |cache| - 1 && cache[1..][k].id == j;
      assert cache[k + 1].id == j;
    }
    forall p | p in inFlight
      ensures Holds(cache[1..], p.index)
    {
      var k :| 0 <= k < |cache| && cache[k].id == p.index;
      assert inFlight[Position(cache[k].id, p.bit)] == multiset(cache[k].discards)[p.bit];
      assert cache[1..][k - 1] == cache[k];
    }
  }

  lemma {:induction false} AddPage(units: nat, disk: seq<seq<bool>>, cache: seq<Page>, inFlight: multiset<Position>,
                                   id: nat)
    requires Coherent(units, disk, cache) && Recorded(cache, inFlight) && id < |disk| && !Holds(cache, id)
    ensures Coherent(units, disk, cache + [Page(id, disk[id], [])])
            && Recorded(cache + [Page(id, disk[id], [])], inFlight)
    ensures forall j :: Holds(cache + [Page(id, disk[id], [])], j) ==> j == id || Holds(cache, j)
  {
    var cache' := cache + [Page(id, disk[id], [])];
    forall j | Holds(cache', j) && j != id
      ensures Holds(cache, j)
    {
      var k :| 0 <= k < |cache'| && cache'[k].id == j;
      assert cache[k].id == j;
    }
    forall p | p in inFlight
      ensures Holds(cache', p.index)
    {
      var k :| 0 <= k < |cache| && cache[k].id == p.index;
      assert cache'[k] == cache[k];
    }
    forall k, b: nat | 0 <= k < |cache'|
      ensures inFlight[Position(cache'[k].id, b)] == Records(cache'[k].discards, b)
    {
      if k == |cache| {
        assert Position(id, b) !in inFlight;
      }
    }
  }

  /** Writing a bit through the cache: page k and the disk change together. */
  lemma {:induction false} WriteThrough(units: nat, disk: seq<seq<bool>>, cache: seq<Page>, k: nat, bit: nat, v: bool)
    requires Coherent(units, disk, cache) && k < |cache| && bit < UNITS_PER_INDEX
    ensures Coherent(units, SetBit(disk, Position(cache[k].id, bit), v),
                     cache[k := cache[k].(bits := cache[k].bits[bit := v])])
  {
  }

  /** A change to the records of one page, with the same change to what is in flight. */
  lemma {:induction false} Record(cache: seq<Page>, inFlight: multiset<Position>, k: nat, bit: nat, discards: seq<nat>)
    requires Recorded(cache, inFlight) && k < |cache|
    requires forall a, b :: 0 <= a < b < |cache| ==> cache[a].id != cache[b].id
    requires forall b :: b != bit ==> Records(discards, b) == Records(cache[k].discards, b)
    ensures Recorded(cache[k := cache[k].(discards := discards)],
                     inFlight[Position(cache[k].id, bit) := Records(discards, bit)])
  {
    var cache' := cache[k := cache[k].(discards := discards)];
    var inFlight' := inFlight[Position(cache[k].id, bit) := Records(discards, bit)];
    forall p | p in inFlight'
      ensures Holds(cache', p.index)
    {
      if p.index != cache[k].id {
        assert p in inFlight;
        var a :| 0 <= a < |cache| && cache[a].id == p.index;
        assert cache'[a].id == p.index;
      } else {
        assert cache'[k].id == p.index;
      }
    }
  }

  lemma {:induction false} RecordStart(units: nat, disk: seq<seq<bool>>, cache: seq<Page>, inFlight: multiset<Position>,
                                       k: nat, bit: nat)
    requires Coherent(units, disk, cache) && Recorded(cache, inFlight) && k < |cache|
    ensures Coherent(units, disk, cache[k := cache[k].(discards := cache[k].discards + [bit])])
    ensures Recorded(cache[k := cache[k].(discards := cache[k].discards + [bit])],
                     inFlight + multiset{Position(cache[k].id, bit)})
  {
    var was := cache[k].discards;
    var p := Position(cache[k].id, bit);
    assert multiset(was + [bit]) == multiset(was) + multiset{bit};
    Record(cache, inFlight, k, bit, was + [bit]);
    assert inFlight[p] == Records(cache[k].discards, bit);
    assert inFlight[p := Records(was + [bit], bit)] == inFlight + multiset{p};
  }

  lemma {:induction false} RemoveOne(s: seq<nat>, n: nat)
    requires n < |s|
    ensures multiset(s) == multiset(s[..n] + s[n + 1..]) + multiset{s[n]}
  {
    assert s == s[..n] + ([s[n]] + s[n + 1..]);
  }

  lemma {:induction false} RecordEnd(units: nat, disk: seq<seq<bool>>, cache: seq<Page>, inFlight: multiset<Position>,
                                     k: nat, n: nat)
    requires Coherent(units, disk, cache) && Recorded(cache, inFlight) && k < |cache| && n < |cache[k].discards|
    ensures var was := cache[k].discards;
            && Coherent(units, disk, cache[k := cache[k].(discards := was[..n] + was[n + 1..])])
            && Recorded(cache[k := cache[k].(discards := was[..n] + was[n + 1..])],
                        inFlight - multiset{Position(cache[k].id, was[n])})
  {
    var was := cache[k].discards;
    var rest := was[..n] + was[n + 1..];
    var bit: nat := was[n];
    var p := Position(cache[k].id, bit);
    RemoveOne(was, n);
    assert Records(rest, bit) == Records(was, bit) - 1 && forall b :: b != bit ==> Records(rest, b) == Records(was, b);
    assert inFlight[p] == Records(was, bit);
    SameCoherent(units, disk, cache, k, rest);
    Record(cache, inFlight, k, bit, rest);
    hide Recorded, Records, Coherent;
    OneLess(inFlight, p, Records(rest, bit));
  }

  lemma {:induction false} OneLess(inFlight: multiset<Position>, p: Position, n: nat)
    requires inFlight[p] == n + 1
    ensures inFlight[p := n] == inFlight - multiset{p}
  {
  }

  lemma {:induction false} SameCoherent(units: nat, disk: seq<seq<bool>>, cache: seq<Page>, k: nat, discards: seq<nat>)
    requires Coherent(units, disk, cache) && k < |cache|
    ensures Coherent(units, disk, cache[k := cache[k].(discards := discards)])
    ensures forall a, b :: 0 <= a < b < |cache| ==> cache[a].id != cache[b].id
  {
  }

  /** The records left when every discard of a bit has completed. */
  function Without(discards: seq<nat>, bit: nat): (r: seq<nat>)
    ensures multiset(r) == multiset(discards)[bit := 0]
  {
    if discards == [] then []
    else
      assert discards == [discards[0]] + discards[1..];
      (if discards[0] == bit then [] else [discards[0]]) + Without(discards[1..], bit)
  }

  lemma {:induction false} RecordWaited(units: nat, disk: seq<seq<bool>>, cache: seq<Page>,
                                        inFlight: multiset<Position>, k: nat, bit: nat)
    requires Coherent(units, disk, cache) && Recorded(cache, inFlight) && k < |cache|
    ensures Coherent(units, disk, cache[k := cache[k].(discards := Without(cache[k].discards, bit))])
    ensures Recorded(cache[k := cache[k].(discards := Without(cache[k].discards, bit))],
                     inFlight[Position(cache[k].id, bit) := 0])
  {
    Record(cache, inFlight, k, bit, Without(cache[k].discards, bit));
    hide Recorded, Without;
  }

  // ----- Searching a page

  /** The first clear bit is at p, if bits with a discard in flight are passed over. */
  ghost predicate FirstReady(bits: seq<bool>, discards: seq<nat>, lo: nat, p: nat)
    requires p <= |bits|
  {
    forall q :: lo <= q < p ==> bits[q] || q in discards
  }

  ghost predicate AllSet(bits: seq<bool>, lo: nat, hi: nat)
    requires hi <= |bits|
  {
    forall q :: lo <= q < hi ==> bits[q]
  }

  /** One pass over a page: the first clear bit, of those without a discard in flight unless waiting. */
  method Scan(id: nat, bits: seq<bool>, entries: nat, discards: seq<nat>, waiting: bool)
    returns (found: bool, p: nat, retry: bool)
    requires entries * 8 <= |bits| && entries > 0
    ensures found ==> Lo(id) <= p < 8 * entries && !bits[p]
    ensures found && !waiting ==> p !in discards && FirstReady(bits, discards, Lo(id), p)
    ensures found && waiting ==> AllSet(bits, Lo(id), p)
    ensures !found && waiting ==> AllSet(bits, Lo(id), 8 * entries)
    ensures !found && !waiting ==> FirstReady(bits, discards, Lo(id), 8 * entries)
    ensures !found && !waiting ==> (retry <==> !AllSet(bits, Lo(id), 8 * entries))
  {
    found, p, retry := false, 0, false;
    var i := 0;
    while i < entries
      invariant 0 <= i <= entries
      invariant waiting ==> AllSet(bits, Lo(id), 8 * i)
      invariant !waiting ==> FirstReady(bits, discards, Lo(id), 8 * i)
      invariant !waiting ==> (retry <==> !AllSet(bits, Lo(id), 8 * i))
    {
      var j := IterStart(id, i);
      while j < 8
        invariant IterStart(id, i) <= j <= 8
        invariant waiting ==> AllSet(bits, Lo(id), 8 * i + j)
        invariant !waiting ==> FirstReady(bits, discards, Lo(id), 8 * i + j)
        invariant !waiting ==> (retry <==> !AllSet(bits, Lo(id), 8 * i + j))
      {
        if !bits[8 * i + j] {
          if waiting || 8 * i + j !in discards {
            return true, 8 * i + j, retry;
          }
          retry := true;
        }
        j := j + 1;
      }
      i := i + 1;
    }
  }

  /** bint_get_block's search: a ready bit if there is one, otherwise wait for the first clear bit. */
  method FindClear(id: nat, bits: seq<bool>, entries: nat, discards: seq<nat>) returns (found: bool, p: nat)
    requires entries * 8 <= |bits| && entries > 0
    ensures found <==> !AllSet(bits, Lo(id), 8 * entries)
    ensures found ==> Lo(id) <= p < 8 * entries && !bits[p]
    ensures found ==> if p !in discards then FirstReady(bits, discards, Lo(id), p)
                      else AllSet(bits, Lo(id), p) && FirstReady(bits, discards, Lo(id), 8 * entries)
  {
    var retry;
    found, p, retry := Scan(id, bits, entries, discards, false);
    if !found && retry {
      found, p, retry := Scan(id, bits, entries, discards, true);
    }
  }

  /** bint_index_free_blocks: free units of a page, counted when a disk is loaded. */
  method CountFree(units: nat, id: nat, bits: seq<bool>) returns (free: nat)
    requires id < Indexes(units) && units >= 8 && |bits| == UNITS_PER_INDEX
    ensures free == Clear(bits, Lo(id), Hi(units, id))
  {
    EntriesCover(units, id);
    var entries := Entries(units, id);
    free := 0;
    var i := 0;
    while i < entries
      invariant 0 <= i <= entries
      invariant free == Clear(bits, Lo(id), if 8 * i <= Hi(units, id) then 8 * i else Hi(units, id))
    {
      var j := IterStart(id, i);
      while j < 8
        invariant IterStart(id, i) <= j <= 8
        invariant free == Clear(bits, Lo(id), if 8 * i + j <= Hi(units, id) then 8 * i + j else Hi(units, id))
      {
        if id + 1 == Indexes(units) && i + 1 == entries && UnitOf(id, 8 * i + j) + 1 > units {
          break;
        }
        if !bits[8 * i + j] {
          free := free + 1;
        }
        j := j + 1;
      }
      i := i + 1;
    }
  }

  /** A page's bytes cover its usable bits, and only the last byte of the last page covers more. */
  lemma {:induction false} EntriesCover(units: nat, id: nat)
    requires id < Indexes(units)
    ensures 0 < Hi(units, id) <= 8 * Entries(units, id) <= UNITS_PER_INDEX
    ensures 8 * Entries(units, id) < Hi(units, id) + 8
    ensures id + 1 < Indexes(units) ==> Hi(units, id) == UNITS_PER_INDEX
  {
  }
}
