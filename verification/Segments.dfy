/** The table of segments of a partition (one for its data, one for its metadata): which 64 MB units the
    partition holds, in order.  It is stored in pages of 511 entries, an entry is 0 when unused. */
module Segments {
  import opened Units

  const MAP_SEGMENTS := 511

  /** The first unused entry at or after lo, or hi. */
  function RunEnd(entries: seq<nat>, lo: nat, hi: nat): (k: nat)
    requires lo <= hi <= |entries|
    ensures lo <= k <= hi && (k < hi ==> entries[k] == 0)
    ensures forall j :: lo <= j < k ==> entries[j] != 0
    decreases hi - lo
  {
    if lo == hi || entries[lo] == 0 then lo else RunEnd(entries, lo + 1, hi)
  }

  function Zeroed(entries: seq<nat>, lo: nat, hi: nat): (r: seq<nat>)
    ensures |r| == |entries|
  {
    seq(|entries|, j requires 0 <= j < |entries| => if lo <= j < hi then 0 else entries[j])
  }

  /** Entries in use. */
  function InUse(entries: seq<nat>): nat {
    if entries == [] then 0 else InUse(entries[..|entries| - 1]) + if entries[|entries| - 1] != 0 then 1 else 0
  }

  /** The first n entries are in use and no others. */
  ghost predicate Prefix(entries: seq<nat>, n: nat) {
    n <= |entries| && forall i :: 0 <= i < |entries| ==> (entries[i] != 0 <==> i < n)
  }

  lemma {:induction false} InUseUpdate(entries: seq<nat>, k: nat, v: nat)
    requires k < |entries|
    ensures InUse(entries[k := v]) == InUse(entries) + (if v != 0 then 1 else 0) - (if entries[k] != 0 then 1 else 0)
    decreases |entries|
  {
    var last := |entries| - 1;
    if k == last {
      assert entries[k := v][..last] == entries[..last];
    } else {
      assert entries[k := v][..last] == entries[..last][k := v];
      InUseUpdate(entries[..last], k, v);
    }
  }

  lemma {:induction false} PrefixInUse(entries: seq<nat>, n: nat)
    requires Prefix(entries, n)
    ensures InUse(entries) == n
    decreases |entries|
  {
    if entries != [] {
      var last := |entries| - 1;
      PrefixInUse(entries[..last], if n <= last then n else last);
    }
  }

  /** A table with a hole is no prefix: what is left when a cut stops half way. */
  lemma {:induction false} HalfCut(entries: seq<nat>, n: nat, cut: nat, k: nat)
    requires Prefix(entries, n) && cut <= k <= n
    ensures (exists m :: Prefix(Zeroed(entries, cut, k), m)) <==> cut == k || k == n
  {
    var r := Zeroed(entries, cut, k);
    if cut == k {
      assert Prefix(r, n);
    } else if k == n {
      assert Prefix(r, cut);
    } else {
      assert r[cut] == 0 && r[k] != 0;
    }
  }

  lemma {:induction false} ZeroedStep(entries: seq<nat>, lo: nat, k: nat)
    requires lo <= k < |entries|
    ensures Zeroed(entries, lo, k)[k := 0] == Zeroed(entries, lo, k + 1) && Zeroed(entries, lo, k)[k] == entries[k]
  {
  }

  /** Entries from..k cleared, and what they held. */
  ghost predicate CutRunTo(was: seq<nat>, from: nat, k: nat, entries: seq<nat>, released: seq<nat>) {
    k <= |was| && entries == Zeroed(was, from, k) && released == if from < k then was[from..k] else []
  }

  lemma {:induction false} CutRunStep(was: seq<nat>, from: nat, k: nat, entries: seq<nat>, released: seq<nat>)
    requires CutRunTo(was, from, k, entries, released) && k < |was|
    ensures |entries| == |was| && entries[k] == was[k]
    ensures k < from ==> CutRunTo(was, from, k + 1, entries, released)
    ensures from <= k ==> CutRunTo(was, from, k + 1, entries[k := 0], released + [entries[k]])
  {
    if k < from {
      assert entries == Zeroed(was, from, k + 1);
    } else {
      assert entries[k := 0] == Zeroed(was, from, k + 1);
      assert released + [entries[k]] == was[from..k + 1];
    }
  }

  lemma {:induction false} CutRunEnd(was: seq<nat>, from: nat, k: nat, entries: seq<nat>, released: seq<nat>)
    requires CutRunTo(was, from, k, entries, released)
    ensures k <= |was| == |entries| && entries == Zeroed(was, from, k) && (from <= k ==> released == was[from..k])
    ensures k < |was| ==> entries[k] == was[k]
  {
  }

  lemma {:induction false} InUseZeroed(entries: seq<nat>, lo: nat, hi: nat)
    requires lo <= hi <= |entries| && forall k :: lo <= k < hi ==> entries[k] != 0
    ensures InUse(Zeroed(entries, lo, hi)) == InUse(entries) - (hi - lo)
    decreases hi
  {
    if lo == hi {
      Untouched(entries, lo, hi);
    } else {
      InUseZeroed(entries, lo, hi - 1);
      ZeroedStep(entries, lo, hi - 1);
      InUseUpdate(Zeroed(entries, lo, hi - 1), hi - 1, 0);
    }
  }

  lemma {:induction false} Untouched(entries: seq<nat>, lo: nat, k: nat)
    requires k <= lo
    ensures Zeroed(entries, lo, k) == entries && (k <= |entries| ==> CutRunTo(entries, lo, k, entries, []))
  {
  }

  /** The table was a prefix of n entries; those of cut..lo are cleared and their units released. */
  ghost predicate CutUpTo(was: seq<nat>, n: nat, cut: nat, lo: nat, entries: seq<nat>, released: seq<nat>) {
    && Prefix(was, n)
    && entries == Zeroed(was, cut, lo)
    && released == if cut < lo && cut < n then was[cut..if lo < n then lo else n] else []
  }

  /** One page of a cut: cur is the table with the earlier pages cut. */
  lemma {:induction false} CutRun(was: seq<nat>, n: nat, cut: nat, cur: seq<nat>, lo: nat, top: nat)
    requires Prefix(was, n) && lo <= top <= |was| && cur == Zeroed(was, cut, lo)
    ensures RunEnd(cur, lo, top) == if n <= lo then lo else if n <= top then n else top
  {
    var k := RunEnd(cur, lo, top);
    assert forall j :: lo <= j < |was| ==> cur[j] == was[j];
    assert k < n ==> was[k] != 0;
    assert k > lo ==> was[k - 1] != 0;
  }

  lemma {:induction false} CutStep(was: seq<nat>, n: nat, cut: nat, lo: nat, top: nat, from: nat, cur: seq<nat>,
                                   released: seq<nat>)
    requires CutUpTo(was, n, cut, lo, cur, released) && lo < top <= |was|
    requires from == if lo < cut then cut else lo
    requires lo < cut ==> cut == lo + 1 && lo < n && cut < top
    ensures var hi := RunEnd(cur, lo, top);
            && hi == (if n <= lo then lo else if n <= top then n else top)
            && from <= hi
            && (cur[from..hi] == [] ==> n <= top)
            && CutUpTo(was, n, cut, top, Zeroed(cur, from, hi), released + cur[from..hi])
  {
    CutRun(was, n, cut, cur, lo, top);
    var hi := RunEnd(cur, lo, top);
    assert Zeroed(cur, from, hi) == Zeroed(was, cut, top);
    assert cur[from..hi] == was[from..hi];
    assert released + was[from..hi] == if cut < top && cut < n then was[cut..if top < n then top else n] else [];
  }

  lemma {:induction false} NoCut(was: seq<nat>, n: nat, cut: nat, lo: nat)
    requires Prefix(was, n) && lo <= cut
    ensures CutUpTo(was, n, cut, lo, was, [])
  {
  }

  /** A complete cut leaves a prefix, and what was held is what is kept followed by what is released. */
  lemma {:induction false} CutConserves(was: seq<nat>, n: nat, cut: nat, k: nat, entries: seq<nat>, released: seq<nat>)
    requires CutUpTo(was, n, cut, k, entries, released) && k >= n
    ensures var m := if cut < n then cut else n; Prefix(entries, m) && was[..n] == entries[..m] + released
  {
  }

  /** Taking the next entry into use, or using it again, keeps the table a prefix. */
  lemma {:induction false} AllocKeepsPrefix(entries: seq<nat>, n: nat, s: nat, block: nat)
    requires Prefix(entries, n) && s <= n && s < |entries| && block != 0
    ensures entries[s] != 0 <==> s < n
    ensures s == n ==> Prefix(entries[s := block], n + 1)
  {
  }

  /** Bytes in use as counted when a partition is loaded (tmaps_get_usage): whole pages, until an empty one. */
  method Usage(entries: seq<nat>, maps: nat) returns (total: nat)
    requires |entries| == maps * MAP_SEGMENTS
    ensures forall n: nat :: Prefix(entries, n) ==> total == UNIT_SIZE * n
  {
    total := 0;
    var i := 0;
    ghost var c: nat := 0;
    while i < maps
      invariant 0 <= i <= maps
      invariant total == UNIT_SIZE * c
      invariant forall n: nat :: Prefix(entries, n) ==> c == if n <= i * MAP_SEGMENTS then n else i * MAP_SEGMENTS
    {
      var used: nat := 0;
      var k := i * MAP_SEGMENTS;
      ghost var m: nat := 0;
      while k < (i + 1) * MAP_SEGMENTS
        invariant i * MAP_SEGMENTS <= k <= (i + 1) * MAP_SEGMENTS
        invariant used == UNIT_SIZE * m
        invariant forall n: nat :: Prefix(entries, n) ==>
                    m == if n <= i * MAP_SEGMENTS then 0
                         else if n <= k then n - i * MAP_SEGMENTS
                         else k - i * MAP_SEGMENTS
      {
        if entries[k] != 0 {
          used := used + UNIT_SIZE;
          m := m + 1;
        }
        k := k + 1;
      }
      if used == 0 {
        return;
      }
      total := total + used;
      c := c + m;
      i := i + 1;
    }
  }

  class SegmentTable {
    const maps: nat
    const meta: bool
    const v2: bool
    var entries: seq<nat>
    var disk: seq<nat>
    var used: nat
    var segment: nat
    var open: bool

    constructor (maps: nat, meta: bool, v2: bool)
      ensures Valid() && Prefix(entries, 0) && CursorIn(0)
      ensures this.maps == maps && this.meta == meta && this.v2 == v2
    {
      this.maps, this.meta, this.v2 := maps, meta, v2;
      entries := seq(maps * MAP_SEGMENTS, _ => 0);
      disk := seq(maps * MAP_SEGMENTS, _ => 0);
      used, segment, open := 0, 0, false;
      new;
      assert disk == entries;
      PrefixInUse(entries, 0);
    }

    ghost predicate Valid()
      reads this
    {
      |entries| == maps * MAP_SEGMENTS && disk == entries && used == UNIT_SIZE * InUse(entries)
    }

    /** The cursor stands on an entry in use; before the first allocation it stands on entry 0. */
    ghost predicate CursorIn(n: nat)
      reads this
    {
      if open then segment < n else segment == 0
    }

    /** tmap_skip_segment: the first metadata segment of a version 2 tape lies in the unit of the table
        itself and is never allocated or released. */
    predicate Skip(s: nat)
      reads this
    {
      s == 0 && meta && v2
    }

    /** tape_partition_alloc_segment.  block is what the allocator returned, released what is given back. */
    method Alloc(block: nat, zeroOk: bool, writeOk: bool) returns (ok: bool, released: seq<nat>)
      requires Valid() && (if open then segment + 1 else segment) < |entries|
      modifies `entries, `disk, `used, `segment, `open
      ensures Valid()
      ensures var s := if old(open) then old(segment) + 1 else old(segment);
              ok <==> old(entries)[s] != 0 || (block != 0 && writeOk && (s == 0 && meta ==> zeroOk))
      ensures var s := if old(open) then old(segment) + 1 else old(segment);
              if ok then segment == s && open && released == []
                         && entries == if old(entries)[s] != 0 then old(entries) else old(entries)[s := block]
              else segment == old(segment) && open == old(open) && entries == old(entries)
                   && released == if block == 0 || (s == 0 && meta && v2) then [] else [block]
      ensures forall n: nat :: Prefix(old(entries), n) && old(CursorIn(n)) ==>
                var m := if ok && (if old(open) then old(segment) + 1 else old(segment)) == n then n + 1 else n;
                Prefix(entries, m) && CursorIn(m)
    {
      var s := segment;
      if open {
        s := s + 1;
      }
      released := [];
      if entries[s] == 0 {
        if block == 0 {
          return false, [];
        }
        if s == 0 && meta && !zeroOk {
          return false, if Skip(s) then [] else [block];
        }
        entries := entries[s := block];
        InUseUpdate(old(entries), s, block);
        if !writeOk {
          entries := entries[s := 0];
          assert entries == old(entries);
          return false, if Skip(s) then [] else [block];
        }
        disk := entries;
        used := used + UNIT_SIZE;
      }
      segment, open, ok := s, true, true;
      forall n: nat | Prefix(old(entries), n) && old(CursorIn(n))
        ensures var m := if s == n then n + 1 else n; Prefix(entries, m) && CursorIn(m)
      {
        AllocKeepsPrefix(old(entries), n, s, if block != 0 then block else 1);
      }
    }

    /** First entry that a cut from lo up to hi clears. */
    ghost function From(lo: nat, hi: nat): nat
      reads this
    {
      if lo == 0 && meta && v2 && lo < hi then lo + 1 else lo
    }

    /** The page to write: entries lo.. cleared up to the first unused one. */
    method ClearedPage(lo: nat, top: nat) returns (page: seq<nat>)
      requires lo <= top <= |entries|
      ensures var hi := RunEnd(entries, lo, top); page == Zeroed(entries, From(lo, hi), hi)
    {
      ghost var hi := RunEnd(entries, lo, top);
      page := entries;
      var k := lo;
      while k < top && page[k] != 0
        invariant lo <= k <= hi
        invariant page == Zeroed(entries, From(lo, hi), k)
      {
        if !Skip(k) {
          ZeroedStep(entries, From(lo, hi), k);
          page := page[k := 0];
        }
        k := k + 1;
      }
    }

    /** Releasing the units of entries lo.. up to the first unused one. */
    method ReleaseRun(lo: nat, top: nat) returns (done: nat, released: seq<nat>)
      requires lo <= top <= |entries|
      modifies `entries
      ensures var hi := RunEnd(old(entries), lo, top);
              entries == Zeroed(old(entries), From(lo, hi), hi) && released == old(entries)[From(lo, hi)..hi]
      ensures done == |released|
    {
      hide InUse, RunEnd, Zeroed, CutRunTo;
      ghost var was := entries;
      ghost var hi := RunEnd(entries, lo, top);
      ghost var from := From(lo, hi);
      Untouched(was, from, lo);
      done, released := 0, [];
      var k := lo;
      while k < top && entries[k] != 0
        invariant lo <= k <= hi && |entries| == |was|
        invariant CutRunTo(was, from, k, entries, released)
        invariant done == |released|
      {
        CutRunStep(was, from, k, entries, released);
        if !Skip(k) {
          done := done + 1;
          released := released + [entries[k]];
          entries := entries[k := 0];
        }
        k := k + 1;
        assert k <= hi;
      }
      CutRunEnd(was, from, k, entries, released);
    }

    /** tmap_eod_segments on one page: the page is written first, then the units are released. */
    method EodMap(lo: nat, top: nat, writeOk: bool) returns (ok: bool, released: seq<nat>)
      requires Valid() && lo <= top <= |entries|
      modifies `entries, `disk, `used
      ensures Valid()
      ensures ok <==> writeOk
      ensures !ok ==> entries == old(entries) && released == []
      ensures ok ==> var hi := RunEnd(old(entries), lo, top);
                     entries == Zeroed(old(entries), From(lo, hi), hi) && released == old(entries)[From(lo, hi)..hi]
    {
      var page := ClearedPage(lo, top);
      if !writeOk {
        return false, [];
      }
      disk := page;
      var done;
      ghost var hi := RunEnd(entries, lo, top);
      InUseZeroed(entries, From(lo, hi), hi);
      done, released := ReleaseRun(lo, top);
      used := used - done * UNIT_SIZE;
      ok := true;
    }

    /** One page of eod_segments. */
    method CutPage(lo: nat, top: nat, writeOk: bool, ghost was: seq<nat>, ghost n: nat, ghost cut: nat,
                   ghost sofar: seq<nat>)
      returns (ok: bool, more: seq<nat>)
      requires Valid() && lo < top <= |entries| && (lo == 0 ==> top == MAP_SEGMENTS)
      requires Prefix(was, n) ==> CutUpTo(was, n, cut, lo, entries, sofar)
      requires if Skip(lo) && lo < n then cut == lo + 1 else cut <= lo
      modifies `entries, `disk, `used
      ensures Valid()
      ensures ok <==> writeOk
      ensures !ok ==> entries == old(entries)
      ensures ok && Prefix(was, n) ==> CutUpTo(was, n, cut, top, entries, sofar + more) && (more == [] ==> n <= top)
    {
      hide InUse, Zeroed;
      ok, more := EodMap(lo, top, writeOk);
      if Prefix(was, n) {
        CutStep(was, n, cut, lo, top, if lo < cut then cut else lo, old(entries), sofar);
      }
    }

    /** eod_segments: release every segment after a given one (or from it on). */
    method Eod(id: nat, inclusive: bool, canWrite: seq<bool>, ghost n: nat)
        returns (ok: bool, released: seq<nat>, ghost k: nat)
      requires Valid() && |canWrite| == maps
      modifies `entries, `disk, `used
      ensures Valid()
      ensures false !in canWrite ==> ok
      ensures var start := if inclusive then id else id + 1;
              Prefix(old(entries), n) ==> CutUpTo(old(entries), n, From(start, n), k, entries, released)
      ensures Prefix(old(entries), n) && ok ==> k >= n
      ensures !ok ==> exists i :: && 0 <= i < maps && !canWrite[i]
                                  && (k == MAP_SEGMENTS * i || k == if inclusive then id else id + 1)
    {
      hide RunEnd, InUse, Zeroed, CutUpTo;
      var start := if inclusive then id else id + 1;
      released := [];
      ghost var cut := From(start, n);
      ghost var was := entries;
      var i, lo := start / MAP_SEGMENTS, start;
      if Prefix(was, n) {
        NoCut(was, n, cut, start);
      }
      while i < maps
        invariant Valid() && MAP_SEGMENTS * i <= lo < MAP_SEGMENTS * (i + 1)
        invariant lo == start || (lo == MAP_SEGMENTS * i && start < lo)
        invariant Prefix(was, n) ==> CutUpTo(was, n, cut, lo, entries, released)
      {
        var written, more := CutPage(lo, MAP_SEGMENTS * (i + 1), canWrite[i], was, n, cut, released);
        if !written {
          return false, released, lo;
        }
        released := released + more;
        i := i + 1;
        lo := MAP_SEGMENTS * i;
        if more == [] {
          break;
        }
      }
      return true, released, lo;
    }

    /** tape_partition_eod_cur_segment: everything behind the cursor's segment.  The table stays a prefix that
        the cursor is in, and what was held is what is kept followed by what is released. */
    method EodCurSegment(canWrite: seq<bool>, ghost n: nat) returns (ok: bool, released: seq<nat>)
      requires Valid() && |canWrite| == maps && Prefix(entries, n) && CursorIn(n) && open
      modifies `entries, `disk, `used
      ensures Valid()
      ensures false !in canWrite ==> ok
      ensures ok ==> && Prefix(entries, segment + 1) && CursorIn(segment + 1)
                     && old(entries)[..n] == entries[..segment + 1] + released
    {
      ghost var k;
      ok, released, k := Eod(segment, false, canWrite, n);
      if ok {
        CutConserves(old(entries), n, segment + 1, k, entries, released);
      }
    }
  }
}
