/** The consistency check of a disk's bitmap (bcheck.c): a shadow bitmap is built from every segment table,
    then each page of the bitmap is replaced by its shadow. */
module Checker {
  import opened Units
  import opened Allocator
  import opened Disks
  import Segments

  // ----- References

  /** Block numbers have 38 bits, disk ids 9. */
  const BLOCKNR_LIMIT := 0x40_0000_0000
  const BID_LIMIT := 0x200

  /** SET_BLOCK, for a block number that fits. */
  function SetBlock(blocknr: nat, bid: nat): nat { bid * BLOCKNR_LIMIT + blocknr }

  function Blocknr(word: nat): nat { word % BLOCKNR_LIMIT }

  function Bid(word: nat): nat { word / BLOCKNR_LIMIT % BID_LIMIT }

  /** What SET_BLOCK stores is read back. */
  lemma {:induction false} BlockReadsBack(blocknr: nat, bid: nat)
    requires blocknr < BLOCKNR_LIMIT && bid < BID_LIMIT
    ensures Blocknr(SetBlock(blocknr, bid)) == blocknr && Bid(SetBlock(blocknr, bid)) == bid
    ensures blocknr > 0 ==> SetBlock(blocknr, bid) > 0
  {
    assert SetBlock(blocknr, bid) / BLOCKNR_LIMIT == bid;
  }

  /** A partition: its two segment tables and the unit that holds them. */
  datatype Partition = Partition(meta: seq<nat>, data: seq<nat>, v2: bool, tmapsBid: nat, tmapsBlock: nat)

  /** Shadow pages by index id. */
  type Shadow = m: map<nat, seq<bool>> | forall id :: id in m ==> |m[id]| == UNITS_PER_INDEX

  predicate Marked(shadow: Shadow, p: Position) {
    p.index in shadow && p.bit < UNITS_PER_INDEX && shadow[p.index][p.bit]
  }

  predicate Hit(word: nat, bid: nat, shift: nat, p: Position)
    requires 9 <= shift <= 12
  {
    Bid(word) == bid && PositionOf(shift, Blocknr(word)) == p
  }

  /** One of the entries lo..hi stands for position p of the disk. */
  ghost predicate Refers(words: seq<nat>, lo: nat, hi: nat, bid: nat, shift: nat, p: Position)
    requires 9 <= shift <= 12 && hi <= |words|
  {
    exists j :: lo <= j < hi && Hit(words[j], bid, shift, p)
  }

  ghost predicate TableRefers(words: seq<nat>, skipFirst: bool, bid: nat, shift: nat, p: Position)
    requires 9 <= shift <= 12
  {
    Refers(words, if skipFirst then 1 else 0, Segments.RunEnd(words, 0, |words|), bid, shift, p)
  }

  ghost predicate PartitionRefers(part: Partition, bid: nat, shift: nat, p: Position)
    requires 9 <= shift <= 12
  {
    || TableRefers(part.meta, part.v2, bid, shift, p)
    || TableRefers(part.data, false, bid, shift, p)
    || (part.tmapsBid == bid && PositionOf(shift, part.tmapsBlock) == p)
  }

  ghost predicate Referenced(parts: seq<Partition>, n: nat, bid: nat, shift: nat, p: Position)
    requires 9 <= shift <= 12 && n <= |parts|
  {
    exists k :: 0 <= k < n && PartitionRefers(parts[k], bid, shift, p)
  }

  lemma {:induction false} PositionInPage(shift: nat, block: nat)
    requires 9 <= shift <= 12
    ensures PositionOf(shift, block).bit < UNITS_PER_INDEX
  {
  }

  /** check_block: set the shadow bit of a block of this disk. */
  method CheckBlock(shadow: Shadow, bid: nat, shift: nat, block: nat, blockBid: nat) returns (r: Shadow)
    requires 9 <= shift <= 12
    ensures forall p :: Marked(r, p) <==> Marked(shadow, p) || (blockBid == bid && p == PositionOf(shift, block))
  {
    if blockBid != bid {
      return shadow;
    }
    PositionInPage(shift, block);
    var p := PositionOf(shift, block);
    var page := if p.index in shadow then shadow[p.index] else seq(UNITS_PER_INDEX, _ => false);
    r := shadow[p.index := page[p.bit := true]];
  }

  /** tape_partition_check_tmap_blocks: every entry of a table up to the first unused one. */
  method CheckTable(shadow: Shadow, bid: nat, shift: nat, words: seq<nat>, maps: nat, skipFirst: bool,
                    canRead: seq<bool>)
    returns (ok: bool, r: Shadow)
    requires 9 <= shift <= 12 && |words| == maps * Segments.MAP_SEGMENTS && |canRead| == maps
    ensures false !in canRead ==> ok
    ensures ok ==> forall p :: Marked(r, p) <==> Marked(shadow, p) || TableRefers(words, skipFirst, bid, shift, p)
    ensures forall p :: Marked(shadow, p) ==> Marked(r, p)
    ensures forall p :: Marked(r, p) ==> Marked(shadow, p) || TableRefers(words, skipFirst, bid, shift, p)
  {
    ghost var end := Segments.RunEnd(words, 0, |words|);
    ghost var first := if skipFirst then 1 else 0;
    r := shadow;
    var i := 0;
    while i < maps
      invariant 0 <= i <= maps && i * Segments.MAP_SEGMENTS <= end
      invariant forall p :: Marked(r, p)
                            <==> Marked(shadow, p) || Refers(words, first, i * Segments.MAP_SEGMENTS, bid, shift, p)
    {
      if !canRead[i] {
        return false, r;
      }
      var k := i * Segments.MAP_SEGMENTS;
      while k < (i + 1) * Segments.MAP_SEGMENTS
        invariant i * Segments.MAP_SEGMENTS <= k <= (i + 1) * Segments.MAP_SEGMENTS && k <= end
        invariant forall p :: Marked(r, p) <==> Marked(shadow, p) || Refers(words, first, k, bid, shift, p)
      {
        if words[k] == 0 {
          return true, r;
        }
        RefersStep(words, first, k, bid, shift);
        if !(skipFirst && k == 0) {
          r := CheckBlock(r, bid, shift, Blocknr(words[k]), Bid(words[k]));
        }
        k := k + 1;
      }
      i := i + 1;
    }
    ok := true;
  }

  lemma {:induction false} RefersStep(words: seq<nat>, first: nat, k: nat, bid: nat, shift: nat)
    requires 9 <= shift <= 12 && k < |words|
    ensures forall p :: Refers(words, first, k + 1, bid, shift, p) <==>
              Refers(words, first, k, bid, shift, p) || (first <= k && Hit(words[k], bid, shift, p))
  {
    forall p
      ensures Refers(words, first, k + 1, bid, shift, p) <==>
              Refers(words, first, k, bid, shift, p) || (first <= k && Hit(words[k], bid, shift, p))
    {
      if first <= k && Hit(words[k], bid, shift, p) {
        assert Refers(words, first, k + 1, bid, shift, p);
      }
    }
  }

  /** tape_partition_check_block. */
  method CheckPartition(shadow: Shadow, bid: nat, shift: nat, part: Partition, canReadMeta: seq<bool>,
                        canReadData: seq<bool>)
    returns (ok: bool, r: Shadow)
    requires 9 <= shift <= 12
    requires |part.meta| == |canReadMeta| * Segments.MAP_SEGMENTS
             && |part.data| == |canReadData| * Segments.MAP_SEGMENTS
    ensures false !in canReadMeta && false !in canReadData ==> ok
    ensures ok ==> forall p :: Marked(r, p) <==> Marked(shadow, p) || PartitionRefers(part, bid, shift, p)
    ensures forall p :: Marked(shadow, p) ==> Marked(r, p)
    ensures forall p :: Marked(r, p) ==> Marked(shadow, p) || PartitionRefers(part, bid, shift, p)
  {
    hide TableRefers, Marked;
    ok, r := CheckTable(shadow, bid, shift, part.meta, |canReadMeta|, part.v2, canReadMeta);
    if ok {
      ok, r := CheckTable(r, bid, shift, part.data, |canReadData|, false, canReadData);
      if ok {
        r := CheckBlock(r, bid, shift, part.tmapsBlock, part.tmapsBid);
      }
    }
  }

  ghost predicate Readable(parts: seq<Partition>, canReadMeta: seq<seq<bool>>, canReadData: seq<seq<bool>>) {
    && |canReadMeta| == |canReadData| == |parts|
    && (forall k :: 0 <= k < |parts| ==> |parts[k].meta| == |canReadMeta[k]| * Segments.MAP_SEGMENTS)
    && (forall k :: 0 <= k < |parts| ==> |parts[k].data| == |canReadData[k]| * Segments.MAP_SEGMENTS)
  }

  /** device_check_block: every partition of every tape. */
  method CheckDevices(shadow: Shadow, bid: nat, shift: nat, parts: seq<Partition>, canReadMeta: seq<seq<bool>>,
                      canReadData: seq<seq<bool>>)
    returns (ok: bool, r: Shadow)
    requires 9 <= shift <= 12 && Readable(parts, canReadMeta, canReadData)
    ensures (forall k :: 0 <= k < |parts| ==> false !in canReadMeta[k] && false !in canReadData[k]) ==> ok
    ensures ok ==> forall p :: Marked(r, p) <==> Marked(shadow, p) || Referenced(parts, |parts|, bid, shift, p)
    ensures forall p :: Marked(shadow, p) ==> Marked(r, p)
    ensures forall p :: Marked(r, p) ==> Marked(shadow, p) || Referenced(parts, |parts|, bid, shift, p)
  {
    hide PartitionRefers, Marked;
    r := shadow;
    var k := 0;
    while k < |parts|
      invariant 0 <= k <= |parts|
      invariant forall p :: Marked(r, p) <==> Marked(shadow, p) || Referenced(parts, k, bid, shift, p)
    {
      ghost var before := r;
      ok, r := CheckPartition(r, bid, shift, parts[k], canReadMeta[k], canReadData[k]);
      forall p | PartitionRefers(parts[k], bid, shift, p)
        ensures Referenced(parts, k + 1, bid, shift, p) && Referenced(parts, |parts|, bid, shift, p)
      {
      }
      if !ok {
        return;
      }
      k := k + 1;
    }
    ok := true;
  }

  // ----- Replacing the bitmap

  function ShadowPage(shadow: Shadow, id: nat): (r: seq<bool>)
    ensures |r| == UNITS_PER_INDEX
  {
    if id in shadow then shadow[id] else seq(UNITS_PER_INDEX, _ => false)
  }

  /** The first k bits of a page come from the shadow. */
  function Merge(bits: seq<bool>, check: seq<bool>, k: nat): (r: seq<bool>)
    requires |check| == |bits| && k <= |bits|
    ensures |r| == |bits|
  {
    check[..k] + bits[k..]
  }

  lemma {:induction false} MergeAt(bits: seq<bool>, shadow: Shadow, id: nat, k: nat, b: nat)
    requires |bits| == UNITS_PER_INDEX && k <= |bits| && b < |bits|
    ensures Merge(bits, ShadowPage(shadow, id), k)[b] == if b < k then Marked(shadow, Position(id, b)) else bits[b]
  {
  }

  lemma {:induction false} ClearSplit(bits: seq<bool>, lo: nat, mid: nat, hi: nat)
    requires lo <= mid <= hi <= |bits|
    ensures Clear(bits, lo, hi) == Clear(bits, lo, mid) + Clear(bits, mid, hi)
    decreases hi
  {
    if hi > mid {
      ClearSplit(bits, lo, mid, hi - 1);
    }
  }

  lemma {:induction false} ClearSame(a: seq<bool>, b: seq<bool>, lo: nat, hi: nat)
    requires hi <= |a| && hi <= |b| && forall j :: lo <= j < hi ==> a[j] == b[j]
    ensures Clear(a, lo, hi) == Clear(b, lo, hi)
    decreases hi
  {
    if hi > lo {
      ClearSame(a, b, lo, hi - 1);
    }
  }

  /** get_alloced_blocks: set bits of the byte at bit lo. */
  method AllocedBlocks(bits: seq<bool>, lo: nat) returns (n: nat)
    requires lo + 8 <= |bits|
    ensures n + Clear(bits, lo, lo + 8) == 8
  {
    n := 0;
    var j := 0;
    while j < 8
      invariant 0 <= j <= 8
      invariant n + Clear(bits, lo, lo + j) == j
    {
      if bits[lo + j] {
        n := n + 1;
      }
      j := j + 1;
    }
  }

  /** The byte at bit lo of page is replaced by that of check, if they differ. */
  predicate Replaced(page: seq<bool>, check: seq<bool>, lo: nat, r: seq<bool>, changed: bool)
    requires |page| == |check| && lo + 8 <= |page|
  {
    && (changed <==> page[lo..lo + 8] != check[lo..lo + 8])
    && r == if changed then page[..lo] + check[lo..lo + 8] + page[lo + 8..] else page
  }

  /** One byte of the comparison: the byte becomes its shadow, and how many units that frees or takes. */
  method CompareByte(page: seq<bool>, check: seq<bool>, lo: nat)
      returns (r: seq<bool>, freed: nat, alloced: nat, changed: bool)
    requires |page| == |check| && lo + 8 <= |page|
    ensures |r| == |page| && Replaced(page, check, lo, r, changed)
    ensures freed - alloced == Clear(check, lo, lo + 8) - Clear(page, lo, lo + 8)
  {
    hide Clear;
    r, freed, alloced, changed := page, 0, 0, page[lo..lo + 8] != check[lo..lo + 8];
    if !changed {
      ClearSame(page, check, lo, lo + 8);
      return;
    }
    var indexUsed := AllocedBlocks(page, lo);
    var checkUsed := AllocedBlocks(check, lo);
    if checkUsed > indexUsed {
      alloced := checkUsed - indexUsed;
    } else {
      freed := indexUsed - checkUsed;
    }
    r := page[..lo] + check[lo..lo + 8] + page[lo + 8..];
  }

  /** The comparison loop of bint_index_check on one page of so many bytes. */
  method ComparePage(bits: seq<bool>, check: seq<bool>, entries: nat)
    returns (r: seq<bool>, freed: nat, alloced: nat, sync: bool)
    requires |bits| == |check| && 8 * entries <= |bits|
    ensures r == Merge(bits, check, 8 * entries)
    ensures sync <==> r != bits
    ensures freed - alloced == Clear(r, 0, 8 * entries) - Clear(bits, 0, 8 * entries)
  {
    MergeNone(bits, check);
    hide Merge, Clear, Replaced;
    r, freed, alloced, sync := bits, 0, 0, false;
    var i, lo := 0, 0;
    while i < entries
      invariant 0 <= i <= entries && lo == 8 * i && |r| == |bits|
      invariant r == Merge(bits, check, lo)
      invariant sync <==> r != bits
      invariant freed - alloced == Clear(r, 0, lo) - Clear(bits, 0, lo)
    {
      ghost var before := r;
      var more, fewer, changed;
      r, more, fewer, changed := CompareByte(r, check, lo);
      MergeByte(bits, check, lo, before, r, changed);
      freed, alloced, sync := freed + more, alloced + fewer, sync || changed;
      i, lo := i + 1, lo + 8;
    }
  }

  lemma {:induction false} MergeNone(bits: seq<bool>, check: seq<bool>)
    requires |check| == |bits|
    ensures Merge(bits, check, 0) == bits && Clear(bits, 0, 0) == 0
  {
  }

  lemma {:induction false} MergeByte(bits: seq<bool>, check: seq<bool>, lo: nat, before: seq<bool>, r: seq<bool>,
                                     changed: bool)
    requires |bits| == |check| && lo + 8 <= |bits|
    requires before == Merge(bits, check, lo)
    requires Replaced(before, check, lo, r, changed)
    ensures r == Merge(bits, check, lo + 8)
    ensures r != bits <==> before != bits || changed
    ensures Clear(r, 0, lo + 8) == Clear(before, 0, lo) + Clear(check, lo, lo + 8)
    ensures Clear(bits, 0, lo + 8) == Clear(bits, 0, lo) + Clear(before, lo, lo + 8)
  {
    hide Clear;
    var hi := lo + 8;
    assert r == before[..lo] + check[lo..hi] + before[hi..];
    assert r == Merge(bits, check, hi);
    assert before[lo..] == bits[lo..];
    ClearSplit(r, 0, lo, hi);
    ClearSame(r, before, 0, lo);
    ClearSame(r, check, lo, hi);
    ClearSplit(bits, 0, lo, hi);
    ClearSame(bits, before, lo, hi);
    if before[lo..hi] != check[lo..hi] {
      assert r[lo..hi] == check[lo..hi];
      assert bits[lo..hi] == before[lo..hi];
    }
  }

  /** Bits of a page that the check looks at. */
  ghost function PageEnd(units: nat, id: nat): (end: nat)
    requires id < Indexes(units)
    ensures 0 < Hi(units, id) <= end <= UNITS_PER_INDEX && end == 8 * Entries(units, id)
  {
    EntriesCover(units, id);
    8 * Entries(units, id)
  }

  // ----- What the replacement does to the free counter

  lemma {:induction false} ClearAtMost(bits: seq<bool>, lo: nat, hi: nat)
    requires lo <= hi <= |bits|
    ensures Clear(bits, lo, hi) <= hi - lo
    ensures (forall b :: lo <= b < hi ==> !bits[b]) <==> Clear(bits, lo, hi) == hi - lo
    decreases hi
  {
    if hi > lo {
      ClearAtMost(bits, lo, hi - 1);
    }
  }

  /** Set bits of a page that stand for no unit of the disk: reserved units and padding. */
  ghost function Stray(units: nat, id: nat, bits: seq<bool>): (n: nat)
    requires id < Indexes(units) && |bits| == UNITS_PER_INDEX && units >= 64
  {
    var end := PageEnd(units, id);
    ClearAtMost(bits, 0, Lo(id));
    ClearAtMost(bits, Hi(units, id), end);
    (Lo(id) - Clear(bits, 0, Lo(id))) + (end - Hi(units, id) - Clear(bits, Hi(units, id), end))
  }

  /** A shadow page marks usable units only. */
  ghost predicate UsablePage(units: nat, shadow: Shadow, id: nat) {
    forall b :: Marked(shadow, Position(id, b)) ==> Usable(units, Position(id, b))
  }

  lemma {:induction false} ClearInParts(s: seq<bool>, lo: nat, hi: nat, end: nat)
    requires lo <= hi <= end <= |s|
    ensures Clear(s, 0, end) == Clear(s, 0, lo) + Clear(s, lo, hi) + Clear(s, hi, end)
  {
    hide Clear;
    ClearSplit(s, 0, lo, end);
    ClearSplit(s, lo, hi, end);
  }

  /** The page that the check writes has no bit set that stands for no unit. */
  lemma {:induction false} NoneStray(units: nat, id: nat, bits: seq<bool>, shadow: Shadow)
    requires id < Indexes(units) && |bits| == UNITS_PER_INDEX && units >= 64 && UsablePage(units, shadow, id)
    ensures var end := PageEnd(units, id);
            var r := Merge(bits, ShadowPage(shadow, id), end);
            && Lo(id) <= Hi(units, id) <= end <= |r| == |bits|
            && forall b :: 0 <= b < Lo(id) || Hi(units, id) <= b < end ==> !r[b]
  {
    var end := PageEnd(units, id);
    var r := Merge(bits, ShadowPage(shadow, id), end);
    hide Clear, Merge, PageEnd;
    forall b | 0 <= b < Lo(id) || Hi(units, id) <= b < end
      ensures !r[b]
    {
      MergeAt(bits, shadow, id, end, b);
      assert !Usable(units, Position(id, b));
    }
  }

  lemma {:induction false} StrayFreed(units: nat, id: nat, bits: seq<bool>, shadow: Shadow)
    requires id < Indexes(units) && |bits| == UNITS_PER_INDEX && units >= 64 && UsablePage(units, shadow, id)
    ensures var end := PageEnd(units, id);
            var r := Merge(bits, ShadowPage(shadow, id), end);
            Clear(r, 0, end) - Clear(bits, 0, end)
              == Clear(r, Lo(id), Hi(units, id)) - Clear(bits, Lo(id), Hi(units, id)) + Stray(units, id, bits)
  {
    var end := PageEnd(units, id);
    var lo, hi := Lo(id), Hi(units, id);
    var r := Merge(bits, ShadowPage(shadow, id), end);
    hide Clear, Merge, PageEnd;
    ClearInParts(bits, lo, hi, end);
    ClearInParts(r, lo, hi, end);
    NoneStray(units, id, bits, shadow);
    hide UsablePage, Usable, Lo, Hi, Indexes;
    ClearAtMost(r, 0, lo);
    ClearAtMost(r, hi, end);
    ClearAtMost(bits, 0, lo);
    ClearAtMost(bits, hi, end);
  }

  lemma {:induction false} FreeReplace(units: nat, disk: seq<seq<bool>>, id: nat, bits: seq<bool>, n: nat)
    requires Bitmap(units, disk) && id < |disk| && |bits| == UNITS_PER_INDEX && n <= |disk|
    ensures Bitmap(units, disk[id := bits])
    ensures FreeUnits(units, disk[id := bits], n) == FreeUnits(units, disk, n)
              + if id < n then Clear(bits, Lo(id), Hi(units, id)) - Clear(disk[id], Lo(id), Hi(units, id)) else 0
    decreases n
  {
    if n > 0 {
      FreeReplace(units, disk, id, bits, n - 1);
    }
  }

  /** The units that the new page frees, counted over the whole page, against the free units of the disk. */
  lemma {:induction false} FreeAfter(units: nat, disk: seq<seq<bool>>, id: nat, shadow: Shadow, bits: seq<bool>)
    requires Bitmap(units, disk) && id < |disk| && units >= 64 && UsablePage(units, shadow, id)
    requires bits == Merge(disk[id], ShadowPage(shadow, id), PageEnd(units, id))
    ensures var end := PageEnd(units, id);
            Bitmap(units, disk[id := bits])
            && Clear(bits, 0, end) - Clear(disk[id], 0, end)
               == FreeUnits(units, disk[id := bits], |disk|) - FreeUnits(units, disk, |disk|)
                    + Stray(units, id, disk[id])
  {
    StrayFreed(units, id, disk[id], shadow);
    FreeReplace(units, disk, id, bits, |disk|);
  }

  lemma {:induction false} ReplacePage(units: nat, disk: seq<seq<bool>>, cache: seq<Page>, k: nat, bits: seq<bool>)
    requires Coherent(units, disk, cache) && k < |cache| && |bits| == UNITS_PER_INDEX
    ensures Coherent(units, disk[cache[k].id := bits], cache[k := cache[k].(bits := bits)])
  {
  }

  /** The page that the check writes in place of page id. */
  ghost function Checked(units: nat, disk: seq<seq<bool>>, shadow: Shadow, id: nat): (r: seq<bool>)
    requires Bitmap(units, disk) && id < |disk|
    ensures |r| == UNITS_PER_INDEX
  {
    Merge(disk[id], ShadowPage(shadow, id), PageEnd(units, id))
  }

  /** The page in place of old page id, and the counter moved by the units it frees or takes. */
  method Replace(d: Disk, k: nat, shadow: Shadow, bits: seq<bool>, freed: nat, alloced: nat)
    requires d.Valid() && k < |d.cache| && UsablePage(d.units, shadow, d.cache[k].id)
    requires forall p :: p in d.owned && p.index == d.cache[k].id ==> Marked(shadow, p)
    requires bits == Checked(d.units, d.disk, shadow, d.cache[k].id)
    requires var end := PageEnd(d.units, d.cache[k].id);
             freed - alloced == Clear(bits, 0, end) - Clear(d.cache[k].bits, 0, end)
    modifies d`cache, d`disk, d`free
    ensures d.Valid()
    ensures d.disk == old(d.disk)[old(d.cache)[k].id := bits]
    ensures d.Slack() == old(d.Slack() + UNIT_SIZE * Stray(d.units, d.cache[k].id, d.cache[k].bits))
  {
    hide Merge, Checked, Clear, FreeUnits, Stray, Coherent, Usable, PageEnd, Hi, Lo, Indexes, Recorded;
    ReplaceFacts(d, k, shadow, bits, freed, alloced);
    var id := d.cache[k].id;
    d.cache := d.cache[k := d.cache[k].(bits := bits)];
    d.disk := d.disk[id := bits];
    d.free := d.free + UNIT_SIZE * freed - UNIT_SIZE * alloced;
  }

  lemma {:induction false} ReplaceFacts(d: Disk, k: nat, shadow: Shadow, bits: seq<bool>, freed: nat, alloced: nat)
    requires d.Valid() && k < |d.cache| && UsablePage(d.units, shadow, d.cache[k].id)
    requires forall p :: p in d.owned && p.index == d.cache[k].id ==> Marked(shadow, p)
    requires bits == Checked(d.units, d.disk, shadow, d.cache[k].id)
    requires var end := PageEnd(d.units, d.cache[k].id);
             freed - alloced == Clear(bits, 0, end) - Clear(d.cache[k].bits, 0, end)
    ensures d.cache[k].id < |d.disk|
    ensures var disk := d.disk[d.cache[k].id := bits];
            var cache := d.cache[k := d.cache[k].(bits := bits)];
            && Coherent(d.units, disk, cache) && Recorded(cache, d.inFlight)
            && (forall p :: p in d.owned ==> p.index < |disk| && p.bit < |disk[p.index]| && disk[p.index][p.bit])
            && d.free + UNIT_SIZE * freed - UNIT_SIZE * alloced
               == d.Slack() + UNIT_SIZE * Stray(d.units, d.cache[k].id, d.cache[k].bits)
                    + UNIT_SIZE * FreeUnits(d.units, disk, |disk|)
  {
    var id := d.cache[k].id;
    FreeAfter(d.units, d.disk, id, shadow, bits);
    ReplacePage(d.units, d.disk, d.cache, k, bits);
    KeepsOwned(d.units, d.disk, d.owned, shadow, id);
    SameRecords(d.cache, d.cache[k := d.cache[k].(bits := bits)], d.inFlight);
    hide Merge, Clear, FreeUnits, Stray, Usable, PageEnd, Hi, Lo, Indexes, Recorded;
  }

  lemma {:induction false} KeepsOwned(units: nat, disk: seq<seq<bool>>, owned: set<Position>, shadow: Shadow, id: nat)
    requires Bitmap(units, disk) && id < |disk|
    requires forall p :: p in owned ==> Usable(units, p) && disk[p.index][p.bit]
    requires forall p :: p in owned && p.index == id ==> Marked(shadow, p)
    ensures var disk' := disk[id := Checked(units, disk, shadow, id)];
            forall p :: p in owned ==> p.index < |disk'| && p.bit < |disk'[p.index]| && disk'[p.index][p.bit]
  {
    forall p | p in owned && p.index == id
      ensures Checked(units, disk, shadow, id)[p.bit]
    {
      MergeAt(disk[id], shadow, id, PageEnd(units, id), p.bit);
    }
  }

  /** bint_index_check on a cached page.  When the page cannot be written the cache keeps the new page and
      the disk the old. */
  method CheckCached(d: Disk, k: nat, shadow: Shadow, writeOk: bool) returns (ok: bool)
    requires d.Valid() && k < |d.cache| && UsablePage(d.units, shadow, d.cache[k].id)
    requires forall p :: p in d.owned && p.index == d.cache[k].id ==> Marked(shadow, p)
    modifies d`cache, d`disk, d`free
    ensures var id := old(d.cache)[k].id;
            && (ok <==> writeOk || old(d.disk)[id] == Checked(d.units, old(d.disk), shadow, id))
            && (if ok then d.Valid() && d.disk == old(d.disk)[id := Checked(d.units, old(d.disk), shadow, id)]
                else !d.CacheValid() && d.disk == old(d.disk) && d.free == old(d.free))
            && (ok && d.disk == old(d.disk) ==> d.free == old(d.free))
            && (ok && d.disk != old(d.disk) ==>
                  d.Slack() == old(d.Slack() + UNIT_SIZE * Stray(d.units, id, d.disk[id])))
  {
    var id := d.cache[k].id;
    var bits, freed, alloced, sync := ComparePage(d.cache[k].bits, ShadowPage(shadow, id), Entries(d.units, id));
    assert bits == Checked(d.units, d.disk, shadow, id);
    hide Stray, FreeUnits, Merge, Usable, Indexes, Recorded, Checked;
    if !sync {
      assert d.disk[id := bits] == d.disk;
      return true;
    }
    if !writeOk {
      d.cache := d.cache[k := d.cache[k].(bits := bits)];
      assert d.cache[k].bits != d.disk[d.cache[k].id];
      return false;
    }
    Replace(d, k, shadow, bits, freed, alloced);
    assert d.disk[id] == bits != old(d.disk)[id];
    ok := true;
  }

  /** bint_index_check. */
  method CheckIndex(d: Disk, id: nat, shadow: Shadow, readOk: bool, writeOk: bool) returns (ok: bool)
    requires d.Valid() && id < |d.disk| && UsablePage(d.units, shadow, id)
    requires forall p :: p in d.owned && p.index == id ==> Marked(shadow, p)
    modifies d`cache, d`indexCount, d`disk, d`free
    ensures ok <==> (readOk || Holds(old(d.cache), id))
                    && (writeOk || old(d.disk)[id] == Checked(d.units, old(d.disk), shadow, id))
    ensures ok ==> d.Valid() && d.disk == old(d.disk)[id := Checked(d.units, old(d.disk), shadow, id)]
    ensures ok && d.disk == old(d.disk) ==> d.free == old(d.free)
    ensures ok && d.disk != old(d.disk) ==> d.Slack() == old(d.Slack() + UNIT_SIZE * Stray(d.units, id, d.disk[id]))
    ensures !ok ==> d.disk == old(d.disk) && d.free == old(d.free)
    ensures !ok ==> (d.CacheValid() <==> !readOk && !Holds(old(d.cache), id))
  {
    var k := d.GetIndex(id, readOk);
    hide Stray, FreeUnits, Merge, Usable, Indexes, Recorded, Checked, Holds;
    if k == -1 {
      return false;
    }
    ok := CheckCached(d, k, shadow, writeOk);
  }

  // ----- The whole check

  /** The bitmap says of every bit that the check looks at exactly whether it is marked. */
  ghost predicate Agrees(units: nat, disk: seq<seq<bool>>, shadow: Shadow, id: nat)
    requires Bitmap(units, disk) && id < |disk|
  {
    forall b :: 0 <= b < PageEnd(units, id) ==> (disk[id][b] <==> Marked(shadow, Position(id, b)))
  }

  lemma {:induction false} CheckedAgrees(units: nat, disk: seq<seq<bool>>, shadow: Shadow, id: nat)
    requires Bitmap(units, disk) && id < |disk|
    ensures Agrees(units, disk[id := Checked(units, disk, shadow, id)], shadow, id)
    ensures Agrees(units, disk, shadow, id) <==> Checked(units, disk, shadow, id) == disk[id]
  {
    forall b | 0 <= b < UNITS_PER_INDEX
      ensures Checked(units, disk, shadow, id)[b]
              == if b < PageEnd(units, id) then Marked(shadow, Position(id, b)) else disk[id][b]
    {
      MergeAt(disk[id], shadow, id, PageEnd(units, id), b);
    }
  }

  /** The page that is checked depends on its own shadow page only. */
  lemma {:induction false} CheckedLocal(units: nat, a: seq<seq<bool>>, b: seq<seq<bool>>, shadow: Shadow,
                                        shadow': Shadow, id: nat)
    requires Bitmap(units, a) && Bitmap(units, b) && id < |a| == |b| && a[id] == b[id]
    requires id in shadow <==> id in shadow'
    requires id in shadow ==> shadow[id] == shadow'[id]
    ensures Checked(units, a, shadow, id) == Checked(units, b, shadow', id)
    ensures forall bit :: Marked(shadow, Position(id, bit)) == Marked(shadow', Position(id, bit))
    ensures UsablePage(units, shadow, id) ==> UsablePage(units, shadow', id)
  {
  }

  ghost predicate UsableShadow(units: nat, shadow: Shadow) {
    forall id :: 0 <= id < Indexes(units) ==> UsablePage(units, shadow, id)
  }

  /** bint_check, second half: every page of the bitmap in turn.  Each shadow page is dropped once used. */
  method CheckPages(d: Disk, shadow: Shadow, canRead: seq<bool>, canWrite: seq<bool>) returns (ok: bool, left: Shadow)
    requires d.Valid() && |canRead| == |canWrite| == |d.disk| && UsableShadow(d.units, shadow)
    requires forall p :: p in d.owned ==> Marked(shadow, p)
    modifies d`cache, d`indexCount, d`disk, d`free
    ensures false !in canRead && false !in canWrite ==> ok
    ensures ok ==> d.Valid() && d.Slack() >= old(d.Slack())
    ensures ok ==> forall id :: 0 <= id < |d.disk| ==> d.disk[id] == Checked(d.units, old(d.disk), shadow, id)
    ensures ok ==> forall id :: id in left ==> id >= |d.disk|
    ensures ok && (forall id :: 0 <= id < |d.disk| ==> Stray(d.units, id, old(d.disk)[id]) == 0) ==>
              d.Slack() == old(d.Slack())
    ensures ok && d.disk == old(d.disk) ==> d.free == old(d.free)
  {
    left := shadow;
    var i := 0;
    hide Stray, FreeUnits, Merge, Usable, Indexes, Recorded, Checked, Holds;
    while i < Indexes(d.units)
      invariant d.Valid() && 0 <= i <= |d.disk| && Bitmap(d.units, old(d.disk))
      invariant forall id :: 0 <= id < i ==> d.disk[id] == Checked(d.units, old(d.disk), shadow, id)
      invariant forall id :: i <= id < |d.disk| ==> d.disk[id] == old(d.disk)[id]
      invariant forall id :: id in left <==> id in shadow && id >= i
      invariant forall id :: id in left ==> left[id] == shadow[id]
      invariant d.Slack() >= old(d.Slack())
      invariant (forall id :: 0 <= id < |d.disk| ==> Stray(d.units, id, old(d.disk)[id]) == 0) ==>
                  d.Slack() == old(d.Slack())
      invariant d.disk == old(d.disk) ==> d.free == old(d.free)
    {
      CheckedLocal(d.units, old(d.disk), d.disk, shadow, left, i);
      assert UsablePage(d.units, shadow, i);
      ok := CheckIndex(d, i, left, canRead[i], canWrite[i]);
      left := left - {i};
      if !ok {
        return;
      }
      i := i + 1;
    }
    ok := true;
  }

  /** bint_check.  Shadow pages kept by an earlier check that failed count as references. */
  method Check(d: Disk, bid: nat, parts: seq<Partition>, shadow: Shadow,
      canReadMeta: seq<seq<bool>>, canReadData: seq<seq<bool>>, canRead: seq<bool>, canWrite: seq<bool>)
    returns (ok: bool, left: Shadow)
    requires d.Valid() && Readable(parts, canReadMeta, canReadData) && |canRead| == |canWrite| == |d.disk|
    requires UsableShadow(d.units, shadow)
    requires forall p: Position :: p.index < |d.disk| && Referenced(parts, |parts|, bid, d.shift, p) ==>
                                     Usable(d.units, p)
    requires forall p :: p in d.owned ==> Referenced(parts, |parts|, bid, d.shift, p)
    modifies d`cache, d`indexCount, d`disk, d`free
    ensures ok ==> d.Valid() && d.Slack() >= old(d.Slack())
    ensures ok ==> forall id, b :: 0 <= id < |d.disk| && 0 <= b < PageEnd(d.units, id) ==>
              (d.disk[id][b]
               <==> Marked(shadow, Position(id, b)) || Referenced(parts, |parts|, bid, d.shift, Position(id, b)))
    ensures ok ==> forall id :: id in left ==> id >= |d.disk|
    ensures ok && (forall id :: 0 <= id < |d.disk| ==> Stray(d.units, id, old(d.disk)[id]) == 0) ==>
              d.Slack() == old(d.Slack())
    ensures ok && (forall id, b :: 0 <= id < |d.disk| && 0 <= b < PageEnd(d.units, id) ==>
                    (old(d.disk)[id][b]
                     <==> Marked(shadow, Position(id, b))
                          || Referenced(parts, |parts|, bid, d.shift, Position(id, b)))) ==>
              d.disk == old(d.disk) && d.free == old(d.free)
  {
    hide Referenced, Stray, FreeUnits, Merge, Recorded, Checked, Holds, PageEnd;
    ok, left := CheckDevices(shadow, bid, d.shift, parts, canReadMeta, canReadData);
    if ok {
      var all := left;
      StillUsable(d, parts, bid, shadow, all);
      ok, left := CheckPages(d, all, canRead, canWrite);
      if ok {
        forall id | 0 <= id < |d.disk|
          ensures Agrees(d.units, d.disk, all, id)
          ensures Agrees(d.units, old(d.disk), all, id) <==> d.disk[id] == old(d.disk)[id]
        {
          CheckedAgrees(d.units, old(d.disk), all, id);
        }
      }
    }
  }

  lemma {:induction false} StillUsable(d: Disk, parts: seq<Partition>, bid: nat, shadow: Shadow, all: Shadow)
    requires d.Valid() && UsableShadow(d.units, shadow)
    requires forall p: Position :: p.index < |d.disk| && Referenced(parts, |parts|, bid, d.shift, p) ==>
                                     Usable(d.units, p)
    requires forall p :: Marked(all, p) ==> Marked(shadow, p) || Referenced(parts, |parts|, bid, d.shift, p)
    ensures UsableShadow(d.units, all)
  {
    forall id: nat, b | 0 <= id < Indexes(d.units) && Marked(all, Position(id, b))
      ensures Usable(d.units, Position(id, b))
    {
      assert UsablePage(d.units, shadow, id);
    }
  }
}
