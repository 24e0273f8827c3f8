/** The index that writing leaves: whatever is written and overwritten, the mark counts of every map fit
    the packed entries, and the lookups laid out from the maps are well formed. */
module TapeLayout {
  import opened TapeScan
  import opened TapeMaps
  import opened TapeWriter
  import opened TapeIndex

  /** tape_partition_add_map starts a new lookup when one slot of 253 would be left unused. */
  const MAPS_PER_LOOKUP := 252

  ghost predicate Bounded(ms: seq<Map>) {
    forall i :: 0 <= i < |ms| ==>
                  |ms[i]| <= MAX_ENTRIES && FilemarksIn(ms[i]) <= MAX_MARKS && SetmarksIn(ms[i]) <= MAX_MARKS
  }

  lemma {:induction false} AppendKeepsBounds(ms: seq<Map>, b: Block)
    requires Bounded(ms)
    ensures Bounded(Appended(ms, b))
  {
    hide Count;
    OneMore([], b);
    assert [] + [b] == [b] && FilemarksIn([]) == SetmarksIn([]) == 0;
    if ms != [] {
      OneMore(ms[|ms| - 1], b);
    }
  }

  lemma {:induction false} TruncateKeepsBounds(ms: seq<Map>, g: nat, c: nat)
    requires Bounded(ms) && g < |ms| && c <= |ms[g]|
    ensures Bounded(Truncated(ms, g, c))
  {
    hide Count;
    CountPrefix(ms[g], c, Code.Filemarks);
    CountPrefix(ms[g], c, Code.Setmarks);
    assert |ms[g][..c]| == c;
  }

  /** Every run keeps the counts within four bits. */
  lemma {:induction false} RunKeepsBounds(from: seq<Map>, ops: seq<Op>, ms: seq<Map>)
    requires Bounded(from) && Reaches(from, ops, ms)
    ensures Bounded(ms)
    decreases |ops|
  {
    hide Bounded;
    hide Appended;
    if ops != [] {
      var op := ops[0];
      if op.Overwrite? {
        TruncateKeepsBounds(from, op.g, op.c);
        AppendKeepsBounds(Truncated(from, op.g, op.c), op.b);
      } else {
        AppendKeepsBounds(from, op.b);
      }
      RunKeepsBounds(Apply(from, op), ops[1..], ms);
    }
  }

  // ----- Laying out the lookups

  /** The mark counts and logical ids fit the packed entries. */
  ghost predicate Indexable(ms: seq<Map>) {
    Bounded(ms) && Offset(ms, |ms|) < ID_LIMIT
  }

  function Min(a: nat, b: nat): nat { if a < b then a else b }

  ghost function EntryOf(ms: seq<Map>, g: nat): Entry
    requires g < |ms| && Indexable(ms)
  {
    OffsetMonotone(ms, g, |ms|);
    Pack(Offset(ms, g), FilemarksIn(ms[g]), SetmarksIn(ms[g]))
  }

  /** The lookup of maps lo..hi. */
  ghost function LookupOf(ms: seq<Map>, lo: nat, hi: nat): Lookup
    requires lo <= hi <= |ms| && Indexable(ms)
  {
    Lookup(Offset(ms, lo), FilemarksBefore(ms, lo),
           seq<Entry>(hi - lo, i requires 0 <= i < hi - lo => EntryOf(ms, lo + i)), ms[lo..hi])
  }

  ghost function LayoutFrom(ms: seq<Map>, lo: nat): seq<Lookup>
    requires lo <= |ms| && Indexable(ms)
    decreases |ms| - lo
  {
    if lo == |ms| then []
    else
      var hi := Min(lo + MAPS_PER_LOOKUP, |ms|);
      [LookupOf(ms, lo, hi)] + LayoutFrom(ms, hi)
  }

  lemma {:induction false} LayoutMaps(ms: seq<Map>, lo: nat, chain: seq<Lookup>, l: nat)
    requires lo <= |ms| && Indexable(ms)
    requires l <= |chain| && chain[l..] == LayoutFrom(ms, lo) && MapsTo(chain, l) == ms[..lo]
    ensures Maps(chain) == ms
    decreases |ms| - lo
  {
    if lo == |ms| {
      assert chain[..l] == chain && ms[..lo] == ms;
    } else {
      var hi := Min(lo + MAPS_PER_LOOKUP, |ms|);
      assert chain[l..][0] == chain[l] && chain[l..][1..] == chain[l + 1..];
      assert ms[..lo] + ms[lo..hi] == ms[..hi];
      LayoutMaps(ms, hi, chain, l + 1);
    }
  }

  lemma {:induction false} LayoutRight(ms: seq<Map>, lo: nat, chain: seq<Lookup>, l: nat)
    requires lo <= |ms| && Indexable(ms)
    requires l <= |chain| && chain[l..] == LayoutFrom(ms, lo) && MapsTo(chain, l) == ms[..lo] && Maps(chain) == ms
    ensures forall k :: l <= k < |chain| ==> LookupRight(chain, k)
    decreases |ms| - lo
  {
    if lo < |ms| {
      var hi := Min(lo + MAPS_PER_LOOKUP, |ms|);
      assert chain[l..][0] == chain[l] == LookupOf(ms, lo, hi) && chain[l..][1..] == chain[l + 1..];
      assert ms[..lo] + ms[lo..hi] == ms[..hi];
      OneLookupRight(ms, lo, hi, chain, l);
      LayoutRight(ms, hi, chain, l + 1);
    }
  }

  lemma {:induction false} OneLookupRight(ms: seq<Map>, lo: nat, hi: nat, chain: seq<Lookup>, l: nat)
    requires lo < hi <= |ms| && Indexable(ms)
    requires l < |chain| && chain[l] == LookupOf(ms, lo, hi) && |MapsTo(chain, l)| == lo && Maps(chain) == ms
    ensures LookupRight(chain, l)
  {
    hide Pack;
    hide LidStart;
    hide EntryFilemarks;
    hide EntrySetmarks;
    hide Maps;
    hide MapsTo;
    hide Offset;
    forall e | 0 <= e < hi - lo
      ensures EntryRight(chain, l, e)
    {
      assert chain[l].entries[e] == EntryOf(ms, lo + e);
    }
  }

  /** After any run at all, the lookups laid out from the maps are well formed. */
  lemma {:induction false} AnyRunIsIndexed(ops: seq<Op>, ms: seq<Map>)
    requires Reaches([], ops, ms) && ms != [] && Offset(ms, |ms|) < ID_LIMIT
    ensures Bounded(ms) && WellFormed(LayoutFrom(ms, 0)) && Maps(LayoutFrom(ms, 0)) == ms
  {
    hide LookupRight;
    RunKeepsBounds([], ops, ms);
    var chain := LayoutFrom(ms, 0);
    assert chain[0..] == chain && MapsTo(chain, 0) == ms[..0];
    LayoutMaps(ms, 0, chain, 0);
    LayoutRight(ms, 0, chain, 0);
  }
}
