/** How writing keeps the index: one entry is added or rewritten, lookups and entries behind a cut are dropped.
    The result is the layout of the new maps. */
module TapeIndexWriter {
  import opened TapeScan
  import opened TapeMaps
  import opened TapeWriter
  import opened TapeIndex
  import opened TapeLayout

  // ----- The layout, lookup by lookup

  lemma {:induction false} LayoutAt(ms: seq<Map>, lo: nat, k: nat)
    requires lo <= |ms| && Indexable(ms) && lo + MAPS_PER_LOOKUP * k < |ms|
    ensures k < |LayoutFrom(ms, lo)|
    ensures LayoutFrom(ms, lo)[k]
              == LookupOf(ms, lo + MAPS_PER_LOOKUP * k, Min(lo + MAPS_PER_LOOKUP * k + MAPS_PER_LOOKUP, |ms|))
    decreases k
  {
    if k > 0 {
      LayoutAt(ms, lo + MAPS_PER_LOOKUP, k - 1);
    }
  }

  lemma {:induction false} LayoutLength(ms: seq<Map>, lo: nat)
    requires lo <= |ms| && Indexable(ms)
    ensures MAPS_PER_LOOKUP * |LayoutFrom(ms, lo)| >= |ms| - lo
    ensures LayoutFrom(ms, lo) != [] ==> MAPS_PER_LOOKUP * (|LayoutFrom(ms, lo)| - 1) < |ms| - lo
    decreases |ms| - lo
  {
    if lo < |ms| {
      LayoutLength(ms, Min(lo + MAPS_PER_LOOKUP, |ms|));
    }
  }

  /** A lookup depends only on the maps up to its end. */
  lemma {:induction false} SameLookup(ms: seq<Map>, ns: seq<Map>, lo: nat, hi: nat)
    requires lo <= hi <= |ms| && hi <= |ns| && ms[..hi] == ns[..hi] && Indexable(ms) && Indexable(ns)
    ensures LookupOf(ms, lo, hi) == LookupOf(ns, lo, hi)
  {
    forall g | 0 <= g <= hi
      ensures Offset(ms, g) == Offset(ns, g) && FilemarksBefore(ms, g) == FilemarksBefore(ns, g)
    {
      SamePrefix(ms, ns, g);
    }
    forall g | 0 <= g < hi
      ensures ms[g] == ns[g] && EntryOf(ms, g) == EntryOf(ns, g)
    {
      assert ms[..hi][g] == ns[..hi][g];
    }
    assert ms[lo..hi] == ms[..hi][lo..] == ns[..hi][lo..] == ns[lo..hi];
  }

  lemma {:induction false} SamePrefix(ms: seq<Map>, ns: seq<Map>, g: nat)
    requires g <= |ms| && g <= |ns| && ms[..g] == ns[..g]
    ensures Offset(ms, g) == Offset(ns, g) && FilemarksBefore(ms, g) == FilemarksBefore(ns, g)
    decreases g
  {
    if g > 0 {
      assert ms[..g][g - 1] == ns[..g][g - 1];
      assert ms[..g - 1] == ms[..g][..g - 1] == ns[..g][..g - 1] == ns[..g - 1];
      SamePrefix(ms, ns, g - 1);
    }
  }

  /** Lookup k of the layout of ms. */
  ghost predicate IsLookup(ms: seq<Map>, k: nat, l: Lookup)
    requires Indexable(ms)
  {
    MAPS_PER_LOOKUP * k < |ms|
    && l == LookupOf(ms, MAPS_PER_LOOKUP * k, Min(MAPS_PER_LOOKUP * k + MAPS_PER_LOOKUP, |ms|))
  }

  /** The first k lookups are right. */
  ghost predicate Lookups(ms: seq<Map>, chain: seq<Lookup>, k: nat)
    requires Indexable(ms)
  {
    k <= |chain| && forall i :: 0 <= i < k ==> IsLookup(ms, i, chain[i])
  }

  lemma {:induction false} LookupAt(ms: seq<Map>, chain: seq<Lookup>, n: nat, k: nat)
    requires Indexable(ms) && Lookups(ms, chain, n) && k < n
    ensures IsLookup(ms, k, chain[k]) && Lookups(ms, chain, k)
  {
    hide IsLookup;
  }

  /** A chain of the right length, each lookup right, is the layout. */
  lemma {:induction false} IsLayout(ms: seq<Map>, chain: seq<Lookup>)
    requires Indexable(ms) && MAPS_PER_LOOKUP * |chain| >= |ms|
    requires forall k :: 0 <= k < |chain| ==> IsLookup(ms, k, chain[k])
    ensures chain == LayoutFrom(ms, 0)
  {
    var layout := LayoutFrom(ms, 0);
    LayoutLength(ms, 0);
    hide LayoutFrom, LookupOf;
    if chain != [] {
      assert IsLookup(ms, |chain| - 1, chain[|chain| - 1]);
    }
    assert |chain| == |layout|;
    forall k | 0 <= k < |chain|
      ensures chain[k] == layout[k]
    {
      assert IsLookup(ms, k, chain[k]);
      LayoutAt(ms, 0, k);
    }
  }

  lemma {:induction false} LayoutIs(ms: seq<Map>)
    requires Indexable(ms)
    ensures var chain := LayoutFrom(ms, 0);
            && MAPS_PER_LOOKUP * |chain| >= |ms| && (chain != [] ==> MAPS_PER_LOOKUP * (|chain| - 1) < |ms|)
            && (chain == [] <==> ms == [])
            && Lookups(ms, chain, |chain|)
  {
    LayoutLength(ms, 0);
    var chain := LayoutFrom(ms, 0);
    forall k | 0 <= k < |chain|
      ensures IsLookup(ms, k, chain[k])
    {
      assert MAPS_PER_LOOKUP * k <= MAPS_PER_LOOKUP * (|chain| - 1);
      LayoutAt(ms, 0, k);
    }
  }

  // ----- Writing

  /** MENTRY_SET_LID_INFO: the word of an entry for map m that begins at a logical id. */
  function EntryWord(lid: nat, m: Map): Entry {
    (SetmarksIn(m) * 0x1000_0000_0000_0000 + FilemarksIn(m) * ID_LIMIT + lid) % 0x1_0000_0000_0000_0000
  }

  /** map_lookup_resync_ids: the filemarks of a lookup. */
  function Files(entries: seq<Entry>): nat {
    if entries == [] then 0 else Files(entries[..|entries| - 1]) + EntryFilemarks(entries[|entries| - 1])
  }

  /** The total kept for the last lookup is the number of its filemarks. */
  predicate TotalRight(chain: seq<Lookup>, total: nat) {
    chain != [] ==> total == Files(chain[|chain| - 1].entries)
  }

  /** The lookup after element b has gone into its last map, or into a new map behind it. */
  function Rewritten(l: Lookup, b: Block): Lookup
    requires |l.entries| == |l.maps| > 0
  {
    var e := |l.maps| - 1;
    var m := l.maps[e] + [b];
    l.(entries := l.entries[..e] + [EntryWord(LidStart(l.entries[e]), m)], maps := l.maps[..e] + [m])
  }

  function NextLid(l: Lookup): nat
    requires |l.entries| == |l.maps| > 0
  {
    LidStart(l.entries[|l.maps| - 1]) + |l.maps[|l.maps| - 1]|
  }

  /** What an appended element does to the index: map_lookup_entry_update on the last map, or map_lookup_add_map
      for a new one, in a new lookup when the last is full.  total is the number of filemarks that is kept for the
      last lookup. */
  function AddElement(chain: seq<Lookup>, total: nat, b: Block): seq<Lookup>
    requires chain != [] ==> |chain[|chain| - 1].entries| == |chain[|chain| - 1].maps| > 0
  {
    if chain == [] then [Lookup(0, 0, [EntryWord(0, [b])], [[b]])]
    else
      var k := |chain| - 1;
      var l := chain[k];
      if !Closed(l.maps[|l.maps| - 1], b) then chain[..k] + [Rewritten(l, b)]
      else if |l.maps| < MAPS_PER_LOOKUP then
        chain[..k] + [l.(entries := l.entries + [EntryWord(NextLid(l), [b])], maps := l.maps + [[b]])]
      else
        chain + [Lookup(NextLid(l), l.fileStart + total, [EntryWord(NextLid(l), [b])], [[b]])]
  }

  lemma {:induction false} EntryWordIs(ms: seq<Map>, g: nat)
    requires g < |ms| && Indexable(ms)
    ensures EntryOf(ms, g) == EntryWord(Offset(ms, g), ms[g])
    ensures LidStart(EntryOf(ms, g)) == Offset(ms, g) && EntryFilemarks(EntryOf(ms, g)) == FilemarksIn(ms[g])
  {
    OffsetMonotone(ms, g, |ms|);
  }

  lemma {:induction false} FilesOf(ms: seq<Map>, lo: nat, hi: nat)
    requires lo <= hi <= |ms| && Indexable(ms)
    ensures Files(LookupOf(ms, lo, hi).entries) == FilemarksBefore(ms, hi) - FilemarksBefore(ms, lo)
    decreases hi
  {
    hide EntryFilemarks, EntryWord, LidStart, Pack, FilemarksIn, LookupOf;
    StartsAt(ms, lo, lo);
    if lo < hi {
      FilesOf(ms, lo, hi - 1);
      EntryWordIs(ms, hi - 1);
      LookupPart(ms, lo, hi - 1, hi);
    }
  }

  lemma {:induction false} LookupShape(ms: seq<Map>, lo: nat, hi: nat)
    requires lo < hi <= |ms| && Indexable(ms)
    ensures var l := LookupOf(ms, lo, hi);
            && |l.entries| == |l.maps| == hi - lo && l.maps[hi - lo - 1] == ms[hi - 1]
            && LidStart(l.entries[hi - lo - 1]) == Offset(ms, hi - 1) && NextLid(l) == Offset(ms, hi)
  {
    hide LidStart, EntryFilemarks, EntrySetmarks, Pack;
    EntryWordIs(ms, hi - 1);
    assert LookupOf(ms, lo, hi).entries[hi - lo - 1] == EntryOf(ms, hi - 1);
  }

  /** One more map behind those of a lookup. */
  lemma {:induction false} LookupGrows(ms: seq<Map>, lo: nat, hi: nat)
    requires lo <= hi < |ms| && Indexable(ms)
    ensures var l, r := LookupOf(ms, lo, hi), LookupOf(ms, lo, hi + 1);
            r == l.(entries := l.entries + [EntryWord(Offset(ms, hi), ms[hi])], maps := l.maps + [ms[hi]])
  {
    hide LidStart, EntryFilemarks, EntrySetmarks, Pack;
    EntryWordIs(ms, hi);
    var l, r := LookupOf(ms, lo, hi), LookupOf(ms, lo, hi + 1);
    assert r.entries == l.entries + [EntryOf(ms, hi)];
    assert r.maps == l.maps + [ms[hi]];
  }

  /** The last map of a lookup has gained an element. */
  lemma {:induction false} LookupRewritten(ms: seq<Map>, lo: nat, b: Block)
    requires lo < |ms| && Indexable(ms) && !Closed(ms[|ms| - 1], b) && Indexable(Appended(ms, b))
    ensures |LookupOf(ms, lo, |ms|).entries| == |LookupOf(ms, lo, |ms|).maps| > 0
    ensures Rewritten(LookupOf(ms, lo, |ms|), b) == LookupOf(Appended(ms, b), lo, |ms|)
  {
    var n, ns := |ms| - 1, Appended(ms, b);
    assert ns[..n] == ms[..n] && ns[n] == ms[n] + [b];
    hide LidStart, EntryFilemarks, EntrySetmarks, Pack, Appended, Closed, EntryWord;
    LookupShape(ms, lo, |ms|);
    LookupGrows(ms, lo, n);
    LookupGrows(ns, lo, n);
    SameLookup(ms, ns, lo, n);
    SamePrefix(ms, ns, n);
    hide LookupOf;
    var l, p := LookupOf(ms, lo, |ms|), LookupOf(ms, lo, n);
    assert l.entries[..n - lo] == p.entries && l.maps[..n - lo] == p.maps;
  }

  lemma {:induction false} EarlierLookups(ms: seq<Map>, ns: seq<Map>, chain: seq<Lookup>, k: nat)
    requires Indexable(ms) && Indexable(ns) && k <= |chain| && MAPS_PER_LOOKUP * k <= |ms|
             && MAPS_PER_LOOKUP * k <= |ns|
    requires ms[..MAPS_PER_LOOKUP * k] == ns[..MAPS_PER_LOOKUP * k] && Lookups(ms, chain, k)
    ensures Lookups(ns, chain, k)
  {
    hide LookupOf;
    var end := MAPS_PER_LOOKUP * k;
    forall i | 0 <= i < k
      ensures IsLookup(ns, i, chain[i])
    {
      var lo, hi := MAPS_PER_LOOKUP * i, MAPS_PER_LOOKUP * i + MAPS_PER_LOOKUP;
      assert hi <= end;
      assert ms[..hi] == ms[..end][..hi] == ns[..end][..hi] == ns[..hi];
      SameLookup(ms, ns, lo, hi);
      assert IsLookup(ms, i, chain[i]);
    }
  }

  /** After an append the index is the layout of the new maps. */
  lemma {:induction false} AddElementKeepsLayout(ms: seq<Map>, total: nat, b: Block)
    requires Indexable(ms) && Indexable(Appended(ms, b)) && TotalRight(LayoutFrom(ms, 0), total)
    ensures var chain := LayoutFrom(ms, 0);
            && (chain != [] ==> |chain[|chain| - 1].entries| == |chain[|chain| - 1].maps| > 0)
            && AddElement(chain, total, b) == LayoutFrom(Appended(ms, b), 0)
  {
    hide LayoutFrom, LookupOf, Appended, Closed, AddElement, Bounded, Offset;
    LayoutIs(ms);
    var chain := LayoutFrom(ms, 0);
    if ms == [] {
      FirstElement(total, b);
    } else {
      LayoutEnds(ms, chain);
      if !Closed(ms[|ms| - 1], b) {
        SameMap(ms, total, b, chain, |chain| - 1);
      } else {
        NewMap(ms, total, b, chain, |chain| - 1);
      }
    }
  }

  lemma {:induction false} LayoutEnds(ms: seq<Map>, chain: seq<Lookup>)
    requires ms != [] && Indexable(ms) && chain != []
             && MAPS_PER_LOOKUP * (|chain| - 1) < |ms| <= MAPS_PER_LOOKUP * |chain|
    requires forall k :: 0 <= k < |chain| ==> IsLookup(ms, k, chain[k])
    ensures LastLookup(ms, chain, |chain| - 1)
  {
    hide LookupOf, Indexable, Offset;
    assert IsLookup(ms, |chain| - 1, chain[|chain| - 1]);
    LookupShape(ms, MAPS_PER_LOOKUP * (|chain| - 1), |ms|);
  }

  lemma {:induction false} FirstElement(total: nat, b: Block)
    requires Indexable(Appended([], b))
    ensures AddElement([], total, b) == LayoutFrom(Appended([], b), 0)
  {
    FirstMap(b);
    hide *;
    FirstShape(Appended([], b), b);
    FirstLookup(Appended([], b), total, b);
  }

  lemma {:induction false} FirstMap(b: Block)
    ensures Appended([], b) == [[b]]
  {
  }

  lemma {:induction false} FirstShape(ns: seq<Map>, b: Block)
    requires ns == [[b]] && Indexable(ns)
    ensures LookupOf(ns, 0, 1) == Lookup(0, 0, [] + [EntryWord(0, [b])], [] + [[b]])
  {
    hide LookupOf, EntryWord, Bounded;
    LookupGrows(ns, 0, 0);
    StartsAt(ns, 0, 0);
  }

  lemma {:induction false} FirstLookup(ns: seq<Map>, total: nat, b: Block)
    requires ns == [[b]] && Indexable(ns)
    requires LookupOf(ns, 0, 1) == Lookup(0, 0, [] + [EntryWord(0, [b])], [] + [[b]])
    ensures AddElement([], total, b) == LayoutFrom(ns, 0)
  {
    hide LookupOf, LayoutFrom, EntryWord, Indexable, Offset;
    assert [] + [EntryWord(0, [b])] == [EntryWord(0, [b])] && [] + [[b]] == [[b]];
    var chain := AddElement([], total, b);
    assert IsLookup(ns, 0, chain[0]);
    IsLayout(ns, chain);
  }

  lemma {:induction false} SameMap(ms: seq<Map>, total: nat, b: Block, chain: seq<Lookup>, k: nat)
    requires Indexable(ms) && Indexable(Appended(ms, b)) && LastLookup(ms, chain, k) && !Closed(ms[|ms| - 1], b)
    ensures AddElement(chain, total, b) == LayoutFrom(Appended(ms, b), 0)
  {
    hide LayoutFrom, LookupOf, Rewritten, Appended, Closed, Indexable, NextLid, Offset, Lookups, AddElement;
    var ns, lo := Appended(ms, b), MAPS_PER_LOOKUP * k;
    EarlierMaps(ms, b, lo);
    LookupAt(ms, chain, k + 1, k);
    RewritesMap(ms, chain, k, total, b);
    LookupRewritten(ms, lo, b);
    EarlierLookups(ms, ns, chain, k);
    assert IsLookup(ns, k, LookupOf(ns, lo, |ms|));
    OneChanged(ns, chain, k, LookupOf(ns, lo, |ms|));
  }

  lemma {:induction false} RewritesMap(ms: seq<Map>, chain: seq<Lookup>, k: nat, total: nat, b: Block)
    requires Indexable(ms) && LastLookup(ms, chain, k) && !Closed(ms[|ms| - 1], b)
    ensures var l := LookupOf(ms, MAPS_PER_LOOKUP * k, |ms|);
            |l.entries| == |l.maps| > 0 && AddElement(chain, total, b) == chain[..k] + [Rewritten(l, b)]
  {
    hide LookupOf, NextLid, Rewritten, Closed, Indexable, Offset, Lookups;
    LookupAt(ms, chain, k + 1, k);
  }

  lemma {:induction false} EarlierMaps(ms: seq<Map>, b: Block, lo: nat)
    requires lo < |ms| && !Closed(ms[|ms| - 1], b)
    ensures |Appended(ms, b)| == |ms| && Appended(ms, b)[..lo] == ms[..lo]
  {
  }

  /** What the caller knows of the last lookup of a layout. */
  ghost predicate LastLookup(ms: seq<Map>, chain: seq<Lookup>, k: nat)
    requires Indexable(ms)
  {
    && ms != [] && k == |chain| - 1 && MAPS_PER_LOOKUP * k < |ms| <= MAPS_PER_LOOKUP * (k + 1)
    && Lookups(ms, chain, k + 1)
    && |chain[k].entries| == |chain[k].maps| == |ms| - MAPS_PER_LOOKUP * k
       && chain[k].maps[|chain[k].maps| - 1] == ms[|ms| - 1]
    && NextLid(chain[k]) == Offset(ms, |ms|)
  }

  lemma {:induction false} NewMap(ms: seq<Map>, total: nat, b: Block, chain: seq<Lookup>, k: nat)
    requires Indexable(ms) && Indexable(Appended(ms, b)) && LastLookup(ms, chain, k) && Closed(ms[|ms| - 1], b)
    requires total == Files(chain[k].entries)
    ensures AddElement(chain, total, b) == LayoutFrom(Appended(ms, b), 0)
  {
    var ns := Appended(ms, b);
    assert ns == ms + [[b]];
    hide Appended, Closed, Indexable, LayoutFrom, AddElement, LookupOf;
    if |ms| < MAPS_PER_LOOKUP * k + MAPS_PER_LOOKUP {
      NewMapHere(ms, ns, total, b, chain, k);
    } else {
      NewMapNext(ms, ns, total, b, chain, k);
    }
  }

  lemma {:induction false} NewMapHere(ms: seq<Map>, ns: seq<Map>, total: nat, b: Block, chain: seq<Lookup>, k: nat)
    requires Indexable(ms) && Indexable(ns) && LastLookup(ms, chain, k) && Closed(ms[|ms| - 1], b)
    requires ns == ms + [[b]] && |ms| < MAPS_PER_LOOKUP * k + MAPS_PER_LOOKUP
    ensures AddElement(chain, total, b) == LayoutFrom(ns, 0)
  {
    hide LayoutFrom, LookupOf, NextLid, EntryWord, Closed, Indexable, AddElement, Offset, Lookups;
    var lo, n := MAPS_PER_LOOKUP * k, |ms|;
    assert ns[..lo] == ms[..lo];
    LookupAt(ms, chain, k + 1, k);
    EarlierLookups(ms, ns, chain, k);
    AddsMap(ms, chain, k, total, b);
    GrownLookup(ms, ns, lo, b);
    assert IsLookup(ns, k, LookupOf(ns, lo, n + 1));
    OneChanged(ns, chain, k, LookupOf(ns, lo, n + 1));
  }

  lemma {:induction false} AddsMap(ms: seq<Map>, chain: seq<Lookup>, k: nat, total: nat, b: Block)
    requires Indexable(ms) && LastLookup(ms, chain, k) && Closed(ms[|ms| - 1], b)
             && |ms| < MAPS_PER_LOOKUP * k + MAPS_PER_LOOKUP
    ensures var l := LookupOf(ms, MAPS_PER_LOOKUP * k, |ms|);
            && |l.entries| == |l.maps| > 0
            && AddElement(chain, total, b)
               == chain[..k] + [l.(entries := l.entries + [EntryWord(NextLid(l), [b])], maps := l.maps + [[b]])]
  {
    hide LookupOf, NextLid, EntryWord, Closed, Files, Indexable, Offset, Lookups;
    LookupAt(ms, chain, k + 1, k);
  }

  /** The last lookup with a new map in it. */
  lemma {:induction false} GrownLookup(ms: seq<Map>, ns: seq<Map>, lo: nat, b: Block)
    requires Indexable(ms) && Indexable(ns) && ns == ms + [[b]] && lo < |ms|
    ensures var l := LookupOf(ms, lo, |ms|);
            && |l.entries| == |l.maps| > 0
            && LookupOf(ns, lo, |ms| + 1)
                 == l.(entries := l.entries + [EntryWord(NextLid(l), [b])], maps := l.maps + [[b]])
  {
    var n := |ms|;
    assert ns[..n] == ms[..n];
    LookupShape(ms, lo, n);
    SamePrefix(ms, ns, n);
    SameLookup(ms, ns, lo, n);
    LookupGrows(ns, lo, n);
    hide LookupOf, NextLid, EntryWord, Indexable, Offset;
  }

  lemma {:induction false} NewMapNext(ms: seq<Map>, ns: seq<Map>, total: nat, b: Block, chain: seq<Lookup>, k: nat)
    requires Indexable(ms) && Indexable(ns) && LastLookup(ms, chain, k) && Closed(ms[|ms| - 1], b)
    requires ns == ms + [[b]] && |ms| == MAPS_PER_LOOKUP * k + MAPS_PER_LOOKUP && total == Files(chain[k].entries)
    ensures AddElement(chain, total, b) == LayoutFrom(ns, 0)
  {
    hide LayoutFrom, LookupOf, NextLid, EntryWord, Closed, Files, Indexable, AddElement, Offset, Lookups;
    var lo, n := MAPS_PER_LOOKUP * k, |ms|;
    assert ns[..n] == ms[..n];
    LookupAt(ms, chain, k + 1, k);
    EarlierLookups(ms, ns, chain, k + 1);
    NextLookup(ms, ns, lo, b);
    AddsLookup(ms, chain, k, total, b);
    assert IsLookup(ns, k + 1, LookupOf(ns, n, n + 1));
    OneAdded(ns, chain, LookupOf(ns, n, n + 1));
  }

  lemma {:induction false} AddsLookup(ms: seq<Map>, chain: seq<Lookup>, k: nat, total: nat, b: Block)
    requires Indexable(ms) && LastLookup(ms, chain, k) && Closed(ms[|ms| - 1], b)
             && |ms| == MAPS_PER_LOOKUP * k + MAPS_PER_LOOKUP
    ensures var l := LookupOf(ms, MAPS_PER_LOOKUP * k, |ms|);
            && |l.entries| == |l.maps| > 0
            && AddElement(chain, total, b)
                 == chain + [Lookup(NextLid(l), l.fileStart + total, [EntryWord(NextLid(l), [b])], [[b]])]
  {
    hide LookupOf, NextLid, EntryWord, Closed, Files, Indexable, Offset, Lookups;
    LookupAt(ms, chain, k + 1, k);
  }

  /** The lookup that a new map begins. */
  lemma {:induction false} NextLookup(ms: seq<Map>, ns: seq<Map>, lo: nat, b: Block)
    requires Indexable(ms) && Indexable(ns) && ns == ms + [[b]] && lo < |ms|
    ensures var l := LookupOf(ms, lo, |ms|);
            && |l.entries| == |l.maps| > 0
            && LookupOf(ns, |ms|, |ms| + 1)
                 == Lookup(NextLid(l), l.fileStart + Files(l.entries), [EntryWord(NextLid(l), [b])], [[b]])
  {
    var n := |ms|;
    assert ns[..n] == ms[..n];
    LookupShape(ms, lo, n);
    SamePrefix(ms, ns, n);
    FilesOf(ms, lo, n);
    StartsAt(ms, lo, n);
    StartsAt(ns, n, n);
    LookupGrows(ns, n, n);
    hide LookupOf, NextLid, EntryWord, Files, Indexable, FilemarksBefore, Offset;
    OneEach(EntryWord(Offset(ns, n), [b]), [b]);
  }

  lemma {:induction false} OneEach(e: Entry, m: Map)
    ensures [] + [e] == [e] && [] + [m] == [m]
  {
  }

  lemma {:induction false} OneChanged(ms: seq<Map>, chain: seq<Lookup>, k: nat, l: Lookup)
    requires Indexable(ms) && k == |chain| - 1 && MAPS_PER_LOOKUP * |chain| >= |ms|
    requires Lookups(ms, chain, k) && IsLookup(ms, k, l)
    ensures chain[..k] + [l] == LayoutFrom(ms, 0)
  {
    IsLayout(ms, chain[..k] + [l]);
  }

  lemma {:induction false} OneAdded(ms: seq<Map>, chain: seq<Lookup>, l: Lookup)
    requires Indexable(ms) && MAPS_PER_LOOKUP * (|chain| + 1) >= |ms|
    requires Lookups(ms, chain, |chain|) && IsLookup(ms, |chain|, l)
    ensures chain + [l] == LayoutFrom(ms, 0)
  {
    IsLayout(ms, chain + [l]);
  }

  lemma {:induction false} StartsAt(ms: seq<Map>, lo: nat, hi: nat)
    requires lo <= hi <= |ms| && Indexable(ms)
    ensures LookupOf(ms, lo, hi).lidStart == Offset(ms, lo) && LookupOf(ms, lo, hi).fileStart == FilemarksBefore(ms, lo)
    ensures lo == hi ==> LookupOf(ms, lo, hi).entries == [] && LookupOf(ms, lo, hi).maps == []
  {
  }

  // ----- Cutting

  /** What a cut at element c of entry e of lookup l leaves of the index: map_lookup_write_eod and then
      map_lookup_entry_update. */
  function CutIndex(chain: seq<Lookup>, l: nat, e: nat, c: nat): seq<Lookup>
    requires l < |chain| && e < |chain[l].entries| == |chain[l].maps| && c <= |chain[l].maps[e]|
  {
    var m := chain[l].maps[e][..c];
    chain[..l] + [chain[l].(entries := chain[l].entries[..e] + [EntryWord(LidStart(chain[l].entries[e]), m)],
                            maps := chain[l].maps[..e] + [m])]
  }

  /** The lookup that the cut leaves as the last. */
  lemma {:induction false} LookupCut(ms: seq<Map>, ns: seq<Map>, lo: nat, hi: nat, g: nat, c: nat)
    requires lo <= g < hi <= |ms| && Indexable(ms) && Indexable(ns) && c <= |ms[g]|
    requires |ns| == g + 1 && ns[..g] == ms[..g] && ns[g] == ms[g][..c]
    ensures var l, e := LookupOf(ms, lo, hi), g - lo;
            && e < |l.entries| == |l.maps| && l.maps[e] == ms[g]
            && LookupOf(ns, lo, g + 1)
               == l.(entries := l.entries[..e] + [EntryWord(LidStart(l.entries[e]), ms[g][..c])], maps := l.maps[..e]
                       + [ms[g][..c]])
  {
    hide EntryWord, LidStart, EntryFilemarks, EntrySetmarks, Pack;
    LookupGrows(ns, lo, g);
    SameLookup(ms, ns, lo, g);
    SamePrefix(ms, ns, g);
    EntryWordIs(ms, g);
    LookupPart(ms, lo, g, hi);
  }

  lemma {:induction false} LookupPart(ms: seq<Map>, lo: nat, g: nat, hi: nat)
    requires lo <= g < hi <= |ms| && Indexable(ms)
    ensures var l, p := LookupOf(ms, lo, hi), LookupOf(ms, lo, g);
            && l.lidStart == p.lidStart && l.fileStart == p.fileStart && |l.entries| == |l.maps| == hi - lo
            && l.entries[..g - lo] == p.entries && l.maps[..g - lo] == p.maps
            && l.entries[g - lo] == EntryOf(ms, g) && l.maps[g - lo] == ms[g]
  {
    hide Pack;
  }

  lemma {:induction false} TruncatedParts(ms: seq<Map>, g: nat, c: nat, lo: nat)
    requires lo <= g < |ms| && c <= |ms[g]|
    ensures var ns := Truncated(ms, g, c);
            |ns| == g + 1 && ns[..g] == ms[..g] && ns[..lo] == ms[..lo] && ns[g] == ms[g][..c]
  {
  }

  /** After a cut the index is the layout of what is left. */
  lemma {:induction false} CutIndexKeepsLayout(ms: seq<Map>, l: nat, e: nat, c: nat)
    requires Indexable(ms) && e < MAPS_PER_LOOKUP && MAPS_PER_LOOKUP * l + e < |ms|
             && c <= |ms[MAPS_PER_LOOKUP * l + e]|
    requires Indexable(Truncated(ms, MAPS_PER_LOOKUP * l + e, c))
    ensures var chain := LayoutFrom(ms, 0);
            && l < |chain| && e < |chain[l].entries| == |chain[l].maps|
               && chain[l].maps[e] == ms[MAPS_PER_LOOKUP * l + e]
            && CutIndex(chain, l, e, c) == LayoutFrom(Truncated(ms, MAPS_PER_LOOKUP * l + e, c), 0)
  {
    hide LayoutFrom, LookupOf, Truncated, EntryWord, Indexable, Lookups, LidStart;
    var lo, g := MAPS_PER_LOOKUP * l, MAPS_PER_LOOKUP * l + e;
    var ns := Truncated(ms, g, c);
    TruncatedParts(ms, g, c, lo);
    LayoutIs(ms);
    var chain := LayoutFrom(ms, 0);
    LookupAt(ms, chain, |chain|, l);
    LookupCut(ms, ns, lo, Min(lo + MAPS_PER_LOOKUP, |ms|), g, c);
    EarlierLookups(ms, ns, chain, l);
    CutIsLayout(ns, chain, l, LookupOf(ns, lo, g + 1));
  }

  lemma {:induction false} CutIsLayout(ns: seq<Map>, chain: seq<Lookup>, l: nat, last: Lookup)
    requires Indexable(ns) && l < |chain| && MAPS_PER_LOOKUP * (l + 1) >= |ns| && IsLookup(ns, l, last)
    requires Lookups(ns, chain, l)
    ensures chain[..l] + [last] == LayoutFrom(ns, 0)
  {
    hide LookupOf, LayoutFrom, Indexable;
    IsLayout(ns, chain[..l] + [last]);
  }

  // ----- The total of the last lookup

  /** The index in memory: the lookups, and the filemarks counted for the last of them. */
  datatype Index = Index(chain: seq<Lookup>, total: nat)

  predicate AddPossible(chain: seq<Lookup>) {
    chain != [] ==> |chain[|chain| - 1].entries| == |chain[|chain| - 1].maps| > 0
  }

  /** The element begins a lookup. */
  predicate BeginsLookup(chain: seq<Lookup>, b: Block)
    requires AddPossible(chain)
  {
    chain == [] || (var l := chain[|chain| - 1]; Closed(l.maps[|l.maps| - 1], b) && |l.maps| >= MAPS_PER_LOOKUP)
  }

  function Add(ix: Index, b: Block): Index
    requires AddPossible(ix.chain)
  {
    Index(AddElement(ix.chain, ix.total, b),
          (if BeginsLookup(ix.chain, b) then 0 else ix.total) + if b == Filemark then 1 else 0)
  }

  predicate CutPossible(chain: seq<Lookup>, l: nat, e: nat, c: nat) {
    l < |chain| && e < |chain[l].entries| == |chain[l].maps| && c <= |chain[l].maps[e]|
  }

  /** blk_map_write_eod: the total is counted before the entries behind the cut are dropped, and counted again
      only when elements of the map itself are dropped. */
  function Cut(ix: Index, l: nat, e: nat, c: nat): Index
    requires CutPossible(ix.chain, l, e, c)
  {
    var chain := CutIndex(ix.chain, l, e, c);
    Index(chain, if c == |ix.chain[l].maps[e]| then Files(ix.chain[l].entries) else Files(chain[l].entries))
  }

  lemma {:induction false} FilesAdded(ms: seq<Map>, b: Block)
    ensures var ns := Appended(ms, b);
            FilemarksBefore(ns, |ns|) == FilemarksBefore(ms, |ms|) + if b == Filemark then 1 else 0
  {
    var ns, n := Appended(ms, b), |ms| - 1;
    OneMore([], b);
    assert [] + [b] == [b] && FilemarksIn([]) == 0;
    hide FilemarksIn;
    if ms == [] {
      assert ns == [[b]];
      assert FilemarksBefore(ns, 1) == FilemarksBefore(ns, 0) + FilemarksIn([b]);
    } else if Closed(ms[n], b) {
      SamePrefix(ms, ns, |ms|);
    } else {
      OneMore(ms[n], b);
      SamePrefix(ms, ns, n);
    }
  }

  /** The filemarks of the last lookup of a layout. */
  lemma {:induction false} LastFiles(ms: seq<Map>)
    requires Indexable(ms) && ms != []
    ensures var chain := LayoutFrom(ms, 0);
            && chain != [] && MAPS_PER_LOOKUP * (|chain| - 1) < |ms| <= MAPS_PER_LOOKUP * |chain|
            && Files(chain[|chain| - 1].entries)
                 == FilemarksBefore(ms, |ms|) - FilemarksBefore(ms, MAPS_PER_LOOKUP * (|chain| - 1))
            && LastLookup(ms, chain, |chain| - 1)
  {
    hide LayoutFrom, LookupOf, Files;
    LayoutIs(ms);
    var chain := LayoutFrom(ms, 0);
    LayoutEnds(ms, chain);
    assert IsLookup(ms, |chain| - 1, chain[|chain| - 1]);
    FilesOf(ms, MAPS_PER_LOOKUP * (|chain| - 1), |ms|);
  }

  /** How the total of the last lookup has to change with an append. */
  lemma {:induction false} TotalAdded(ms: seq<Map>, b: Block)
    requires ms != [] && Indexable(ms) && Indexable(Appended(ms, b))
    ensures var chain, chain' := LayoutFrom(ms, 0), LayoutFrom(Appended(ms, b), 0);
            && chain != [] && chain' != [] && AddPossible(chain)
            && Files(chain'[|chain'| - 1].entries)
               == (if BeginsLookup(chain, b) then 0 else Files(chain[|chain| - 1].entries))
                  + if b == Filemark then 1 else 0
  {
    var ns := Appended(ms, b);
    hide LayoutFrom, LookupOf, Files, Bounded, FilemarksIn, NextLid;
    LastFiles(ms);
    LastFiles(ns);
    FilesAdded(ms, b);
    var chain, chain' := LayoutFrom(ms, 0), LayoutFrom(ns, 0);
    var lo := MAPS_PER_LOOKUP * (|chain| - 1);
    if BeginsLookup(chain, b) {
      assert ns[..|ms|] == ms[..|ms|];
      SamePrefix(ms, ns, |ms|);
      assert MAPS_PER_LOOKUP * (|chain'| - 1) == |ms|;
    } else {
      assert ns[..lo] == ms[..lo];
      SamePrefix(ms, ns, lo);
      assert |chain'| == |chain|;
    }
  }

  /** An append keeps the index and its total right. */
  lemma {:induction false} AddKeeps(ms: seq<Map>, total: nat, b: Block)
    requires Indexable(ms) && Indexable(Appended(ms, b)) && TotalRight(LayoutFrom(ms, 0), total)
    ensures AddPossible(LayoutFrom(ms, 0))
    ensures var ix := Add(Index(LayoutFrom(ms, 0), total), b);
            ix.chain == LayoutFrom(Appended(ms, b), 0) && TotalRight(ix.chain, ix.total)
  {
    hide LayoutFrom, Appended, Files, AddElement, BeginsLookup, Indexable;
    AddElementKeepsLayout(ms, total, b);
    if ms == [] {
      FirstTotal(total, b);
    } else {
      TotalAdded(ms, b);
    }
  }

  lemma {:induction false} FirstTotal(total: nat, b: Block)
    requires Indexable(Appended([], b))
    ensures LayoutFrom([], 0) == []
    ensures TotalRight(LayoutFrom(Appended([], b), 0), Add(Index([], total), b).total)
  {
    FirstFiles(b);
    hide Files;
  }

  lemma {:induction false} FirstFiles(b: Block)
    requires Indexable(Appended([], b))
    ensures var chain := LayoutFrom(Appended([], b), 0);
            chain != [] && Files(chain[|chain| - 1].entries) == if b == Filemark then 1 else 0
  {
    var ns := Appended([], b);
    assert |ns| == 1;
    hide LayoutFrom, Files, LookupOf, Appended, FilemarksIn, Bounded, NextLid;
    LastFiles(ns);
    FilesAdded([], b);
    assert |LayoutFrom(ns, 0)| == 1;
  }

  /** A total that is wrong stays wrong, by as much, until a lookup is begun. */
  lemma {:induction false} WrongStaysWrong(ms: seq<Map>, total: nat, b: Block)
    requires ms != [] && Indexable(ms) && Indexable(Appended(ms, b)) && AddPossible(LayoutFrom(ms, 0))
             && !BeginsLookup(LayoutFrom(ms, 0), b)
    ensures LayoutFrom(ms, 0) != [] && LayoutFrom(Appended(ms, b), 0) != []
    ensures var chain, chain' := LayoutFrom(ms, 0), LayoutFrom(Appended(ms, b), 0);
            Add(Index(chain, total), b).total - Files(chain'[|chain'| - 1].entries)
              == total - Files(chain[|chain| - 1].entries)
  {
    hide LayoutFrom, Appended, Files, AddElement, BeginsLookup, Indexable;
    TotalAdded(ms, b);
  }

  /** And then that lookup is entered with a wrong number of filemarks before it. */
  lemma {:induction false} WrongStart(ms: seq<Map>, total: nat, b: Block)
    requires ms != [] && Indexable(ms) && AddPossible(LayoutFrom(ms, 0)) && BeginsLookup(LayoutFrom(ms, 0), b)
    requires !TotalRight(LayoutFrom(ms, 0), total)
    ensures var chain := AddElement(LayoutFrom(ms, 0), total, b);
            chain != [] && chain[|chain| - 1].fileStart != FilemarksBefore(ms, |ms|)
  {
    hide LayoutFrom, LookupOf, Files, Bounded, FilemarksIn, NextLid, Closed;
    LastFiles(ms);
    var chain := LayoutFrom(ms, 0);
    var lo := MAPS_PER_LOOKUP * (|chain| - 1);
    assert IsLookup(ms, |chain| - 1, chain[|chain| - 1]);
    StartsAt(ms, lo, |ms|);
  }

  /** A cut keeps the total right exactly when it drops elements of the map it is made in, or no filemark behind
      that map in the same lookup. */
  lemma {:induction false} CutTotal(ms: seq<Map>, total: nat, l: nat, e: nat, c: nat)
    requires Indexable(ms) && e < MAPS_PER_LOOKUP && MAPS_PER_LOOKUP * l + e < |ms|
             && c <= |ms[MAPS_PER_LOOKUP * l + e]|
    requires Indexable(Truncated(ms, MAPS_PER_LOOKUP * l + e, c))
    ensures var g := MAPS_PER_LOOKUP * l + e;
            var chain := LayoutFrom(ms, 0);
            && CutPossible(chain, l, e, c)
            && Cut(Index(chain, total), l, e, c).chain == LayoutFrom(Truncated(ms, g, c), 0)
            && (TotalRight(LayoutFrom(Truncated(ms, g, c), 0), Cut(Index(chain, total), l, e, c).total)
                <==> c < |ms[g]|
                     || FilemarksBefore(ms, g + 1)
                          == FilemarksBefore(ms, Min(MAPS_PER_LOOKUP * l + MAPS_PER_LOOKUP, |ms|)))
  {
    var g := MAPS_PER_LOOKUP * l + e;
    CutIndexKeepsLayout(ms, l, e, c);
    CutLength(LayoutFrom(ms, 0), l, e, c);
    hide LayoutFrom, Files, Bounded, CutIndex, Truncated;
    if c == |ms[g]| {
      CutFiles(ms, l, e, c);
    }
  }

  lemma {:induction false} CutLength(chain: seq<Lookup>, l: nat, e: nat, c: nat)
    requires CutPossible(chain, l, e, c)
    ensures |CutIndex(chain, l, e, c)| == l + 1
  {
  }

  /** The filemarks of the lookup before the cut and after it. */
  lemma {:induction false} CutFiles(ms: seq<Map>, l: nat, e: nat, c: nat)
    requires Indexable(ms) && e < MAPS_PER_LOOKUP && MAPS_PER_LOOKUP * l + e < |ms|
             && c == |ms[MAPS_PER_LOOKUP * l + e]|
    requires Indexable(Truncated(ms, MAPS_PER_LOOKUP * l + e, c))
    ensures var g, lo := MAPS_PER_LOOKUP * l + e, MAPS_PER_LOOKUP * l;
            var chain, chain' := LayoutFrom(ms, 0), LayoutFrom(Truncated(ms, g, c), 0);
            && l < |chain| && |chain'| == l + 1
            && Files(chain[l].entries) == FilemarksBefore(ms, Min(lo + MAPS_PER_LOOKUP, |ms|)) - FilemarksBefore(ms, lo)
            && Files(chain'[l].entries) == FilemarksBefore(ms, g + 1) - FilemarksBefore(ms, lo)
  {
    hide LayoutFrom, LookupOf, Files, Bounded, Truncated, Offset, FilemarksBefore;
    FilesIn(ms, l);
    FilesKept(ms, l, e);
  }

  /** The filemarks of any lookup of a layout. */
  lemma {:induction false} FilesIn(ms: seq<Map>, l: nat)
    requires Indexable(ms) && MAPS_PER_LOOKUP * l < |ms|
    ensures var lo := MAPS_PER_LOOKUP * l;
            var chain := LayoutFrom(ms, 0);
            l < |chain|
            && Files(chain[l].entries) == FilemarksBefore(ms, Min(lo + MAPS_PER_LOOKUP, |ms|)) - FilemarksBefore(ms, lo)
  {
    hide LayoutFrom, LookupOf, Files, Bounded, Offset, FilemarksBefore;
    LayoutIs(ms);
    assert IsLookup(ms, l, LayoutFrom(ms, 0)[l]);
    FilesOf(ms, MAPS_PER_LOOKUP * l, Min(MAPS_PER_LOOKUP * l + MAPS_PER_LOOKUP, |ms|));
  }

  lemma {:induction false} FilesKept(ms: seq<Map>, l: nat, e: nat)
    requires e < MAPS_PER_LOOKUP && MAPS_PER_LOOKUP * l + e < |ms|
    requires Indexable(Truncated(ms, MAPS_PER_LOOKUP * l + e, |ms[MAPS_PER_LOOKUP * l + e]|))
    ensures var g, lo := MAPS_PER_LOOKUP * l + e, MAPS_PER_LOOKUP * l;
            var chain := LayoutFrom(Truncated(ms, g, |ms[g]|), 0);
            |chain| == l + 1 && Files(chain[l].entries) == FilemarksBefore(ms, g + 1) - FilemarksBefore(ms, lo)
  {
    var lo, g := MAPS_PER_LOOKUP * l, MAPS_PER_LOOKUP * l + e;
    var ns := Truncated(ms, g, |ms[g]|);
    WholeMaps(ms, g);
    hide LayoutFrom, LookupOf, Files, Bounded, Truncated, Offset, FilemarksBefore;
    SamePrefix(ms, ns, g + 1);
    SamePrefix(ms, ns, lo);
    LayoutIs(ns);
    FilesIn(ns, l);
  }

  lemma {:induction false} WholeMaps(ms: seq<Map>, g: nat)
    requires g < |ms|
    ensures var ns := Truncated(ms, g, |ms[g]|); |ns| == g + 1 && forall i: nat :: i <= g + 1 ==> ns[..i] == ms[..i]
  {
    assert ms[g][..|ms[g]|] == ms[g];
    assert Truncated(ms, g, |ms[g]|) == ms[..g + 1];
  }

  // ----- Runs

  /** The place is the end of the tape, where nothing is cut. */
  predicate AtTapeEnd(ms: seq<Map>, g: nat, c: nat) {
    g + 1 == |ms| && c == |ms[g]|
  }

  /** The condition of CutTotal, for an overwrite at element c of map g. */
  predicate TotalKept(ms: seq<Map>, g: nat, c: nat)
    requires g < |ms| && c <= |ms[g]|
  {
    c < |ms[g]|
    || FilemarksBefore(ms, g + 1) == FilemarksBefore(ms, Min(g - g % MAPS_PER_LOOKUP + MAPS_PER_LOOKUP, |ms|))
  }

  ghost predicate Careful(from: seq<Map>, ops: seq<Op>)
    decreases |ops|
  {
    ops == []
    || (Enabled(from, ops[0]) && (ops[0].Overwrite? ==> TotalKept(from, ops[0].g, ops[0].c))
        && Careful(Apply(from, ops[0]), ops[1..]))
  }

  /** The place of the index that map g is found at. */
  function LookupNo(g: nat): nat { g / MAPS_PER_LOOKUP }
  function EntryNo(g: nat): nat { g % MAPS_PER_LOOKUP }

  /** The index kept step by step through a run of writes. */
  ghost predicate Keeps(from: seq<Map>, ix: Index, ops: seq<Op>, ix': Index)
    decreases |ops|
  {
    if ops == [] then ix' == ix
    else
      Enabled(from, ops[0]) &&
      match ops[0]
      case Append(b) => AddPossible(ix.chain) && Keeps(Apply(from, ops[0]), Add(ix, b), ops[1..], ix')
      case Overwrite(g, c, b) =>
        if AtTapeEnd(from, g, c) then AddPossible(ix.chain) && Keeps(Apply(from, ops[0]), Add(ix, b), ops[1..], ix')
        else CutPossible(ix.chain, LookupNo(g), EntryNo(g), c)
             && AddPossible(Cut(ix, LookupNo(g), EntryNo(g), c).chain)
             && Keeps(Apply(from, ops[0]), Add(Cut(ix, LookupNo(g), EntryNo(g), c), b), ops[1..], ix')
  }

  lemma {:induction false} OneLonger(ms: seq<Map>, b: Block)
    ensures Offset(Appended(ms, b), |Appended(ms, b)|) == Offset(ms, |ms|) + 1
  {
    AppendAddsElement(ms, b);
    assert |Flat(Appended(ms, b))| == |Flat(ms)| + 1;
  }

  lemma {:induction false} NotLonger(ms: seq<Map>, g: nat, c: nat)
    requires g < |ms| && c <= |ms[g]|
    ensures Offset(Truncated(ms, g, c), |Truncated(ms, g, c)|) <= Offset(ms, |ms|)
  {
    TruncateKeepsPrefix(ms, g, c);
    assert |Flat(Truncated(ms, g, c))| <= |Flat(ms)|;
  }

  /** A cut on the way: where the total is kept, everything is. */
  lemma {:induction false} CutKeeps(ms: seq<Map>, total: nat, g: nat, c: nat)
    requires Indexable(ms) && g < |ms| && c <= |ms[g]| && TotalKept(ms, g, c)
    ensures Indexable(Truncated(ms, g, c)) && CutPossible(LayoutFrom(ms, 0), LookupNo(g), EntryNo(g), c)
    ensures var ix := Cut(Index(LayoutFrom(ms, 0), total), LookupNo(g), EntryNo(g), c);
            ix.chain == LayoutFrom(Truncated(ms, g, c), 0) && TotalRight(ix.chain, ix.total)
  {
    hide LayoutFrom, Truncated, Bounded, Files, CutIndex;
    TruncateKeepsBounds(ms, g, c);
    NotLonger(ms, g, c);
    assert MAPS_PER_LOOKUP * LookupNo(g) + EntryNo(g) == g;
    CutTotal(ms, total, LookupNo(g), EntryNo(g), c);
  }

  lemma {:induction false} NoCut(ms: seq<Map>, g: nat, c: nat)
    requires g < |ms| && c <= |ms[g]| && AtTapeEnd(ms, g, c)
    ensures Truncated(ms, g, c) == ms
  {
    assert ms[g][..c] == ms[g] && ms == ms[..g] + [ms[g]];
  }

  /** Over every careful run of writes the index kept step by step is the layout of the maps that the run leaves,
      and its total is right. */
  lemma {:induction false} RunKeepsIndex(from: seq<Map>, total: nat, ops: seq<Op>, ms: seq<Map>) returns (total': nat)
    requires Bounded(from) && Reaches(from, ops, ms) && Careful(from, ops) && Offset(from, |from|) + |ops| < ID_LIMIT
    requires TotalRight(LayoutFrom(from, 0), total)
    ensures Indexable(from) && Indexable(ms) && TotalRight(LayoutFrom(ms, 0), total')
    ensures Keeps(from, Index(LayoutFrom(from, 0), total), ops, Index(LayoutFrom(ms, 0), total'))
    decreases |ops|
  {
    hide LayoutFrom, Cut, Add, Truncated, Appended, Bounded, Offset, CutPossible, AddPossible, TotalRight, TotalKept,
         AtTapeEnd;
    if ops == [] {
      total' := total;
    } else {
      var op, cut, ix := ops[0], from, Index(LayoutFrom(from, 0), total);
      if op.Overwrite? {
        if AtTapeEnd(from, op.g, op.c) {
          NoCut(from, op.g, op.c);
        } else {
          CutKeeps(from, total, op.g, op.c);
          NotLonger(from, op.g, op.c);
          cut, ix := Truncated(from, op.g, op.c), Cut(ix, LookupNo(op.g), EntryNo(op.g), op.c);
        }
      }
      AppendKeepsBounds(cut, op.b);
      OneLonger(cut, op.b);
      AddKeeps(cut, ix.total, op.b);
      total' := RunKeepsIndex(Appended(cut, op.b), Add(ix, op.b).total, ops[1..], ms);
    }
  }

  /** And so, after every careful run, the index is what SPACE and LOCATE need. */
  lemma {:induction false} RunIsIndexed(ops: seq<Op>, ms: seq<Map>)
    requires Reaches([], ops, ms) && ms != [] && Careful([], ops) && |ops| < ID_LIMIT
    ensures exists ix :: Keeps([], Index([], 0), ops, ix) && WellFormed(ix.chain) && Maps(ix.chain) == ms
  {
    var chain: seq<Lookup> := LayoutFrom([], 0);
    assert chain == [];
    var total := RunKeepsIndex([], 0, ops, ms);
    AnyRunIsIndexed(ops, ms);
  }
}
