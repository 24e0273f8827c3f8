/** The position index of a partition: a chain of lookups, each with one packed entry per map, and the
    SPACE and LOCATE commands on it.  The chain is as read from disk. */
module TapeIndex {
  import opened TapeScan
  import opened TapeMaps

  // ----- Packed entries

  /** Logical ids have 56 bits. */
  const ID_LIMIT := 0x100_0000_0000_0000

  /** Low 56 bits: logical id of the map's first element; then 4 bits of filemarks, 4 of setmarks. */
  type Entry = n: nat | n < 0x1_0000_0000_0000_0000

  function LidStart(e: Entry): nat { e % ID_LIMIT }

  function EntryFilemarks(e: Entry): nat { e / ID_LIMIT % 16 }

  function EntrySetmarks(e: Entry): nat { e / 0x1000_0000_0000_0000 % 16 }

  function Pack(lid: nat, f: nat, s: nat): (e: Entry)
    requires lid < ID_LIMIT && f < 16 && s < 16
    ensures LidStart(e) == lid && EntryFilemarks(e) == f && EntrySetmarks(e) == s
  {
    var e := s * 0x1000_0000_0000_0000 + f * ID_LIMIT + lid;
    assert e / ID_LIMIT == s * 16 + f;
    assert e / 0x1000_0000_0000_0000 == s;
    e
  }

  // ----- The chain

  /** maps[i] is the map that entries[i] points at. */
  datatype Lookup = Lookup(lidStart: nat, fileStart: nat, entries: seq<Entry>, maps: seq<Map>)

  function MapsTo(chain: seq<Lookup>, l: nat): seq<Map>
    requires l <= |chain|
  {
    if l == 0 then [] else MapsTo(chain, l - 1) + chain[l - 1].maps
  }

  /** The maps of the whole chain, in order. */
  function Maps(chain: seq<Lookup>): seq<Map> {
    MapsTo(chain, |chain|)
  }

  /** The number of the map of entry e of lookup l. */
  function Global(chain: seq<Lookup>, l: nat, e: nat): nat
    requires l <= |chain|
  {
    |MapsTo(chain, l)| + e
  }

  function FilemarksBefore(ms: seq<Map>, g: nat): nat
    requires g <= |ms|
  {
    if g == 0 then 0 else FilemarksBefore(ms, g - 1) + FilemarksIn(ms[g - 1])
  }

  predicate Exists(chain: seq<Lookup>, l: nat, e: nat) {
    l < |chain| && e < |chain[l].maps|
  }

  predicate EntryRight(chain: seq<Lookup>, l: nat, e: nat)
    requires Exists(chain, l, e) && |chain[l].entries| == |chain[l].maps|
  {
    var ms, g := Maps(chain), Global(chain, l, e);
    && g < |ms| && ms[g] == chain[l].maps[e]
    && LidStart(chain[l].entries[e]) == Offset(ms, g)
    && EntryFilemarks(chain[l].entries[e]) == FilemarksIn(ms[g])
    && EntrySetmarks(chain[l].entries[e]) == SetmarksIn(ms[g])
  }

  predicate LookupRight(chain: seq<Lookup>, l: nat)
    requires l < |chain|
  {
    var ms, g := Maps(chain), Global(chain, l, 0);
    && |chain[l].entries| == |chain[l].maps| > 0
    && g + |chain[l].maps| <= |ms|
    && chain[l].lidStart == Offset(ms, g)
    && chain[l].fileStart == FilemarksBefore(ms, g)
    && forall e :: 0 <= e < |chain[l].maps| ==> EntryRight(chain, l, e)
  }

  ghost predicate WellFormed(chain: seq<Lookup>) {
    chain != [] && forall l :: 0 <= l < |chain| ==> LookupRight(chain, l)
  }

  /** The last entry of the last lookup is the last map. */
  lemma {:induction false} GlobalStep(chain: seq<Lookup>, l: nat)
    requires l < |chain|
    ensures Global(chain, l + 1, 0) == Global(chain, l, |chain[l].maps|)
    ensures Global(chain, |chain|, 0) == |Maps(chain)|
  {
  }

  /** map_lookup_next_entry. */
  method NextEntry(chain: seq<Lookup>, l: nat, e: nat) returns (ok: bool, l': nat, e': nat)
    requires WellFormed(chain) && Exists(chain, l, e)
    ensures ok <==> Global(chain, l, e) + 1 < |Maps(chain)|
    ensures ok ==> Exists(chain, l', e') && Global(chain, l', e') == Global(chain, l, e) + 1
  {
    assert LookupRight(chain, l);
    GlobalStep(chain, l);
    l', e' := l, e + 1;
    ok := e < |chain[l].entries| - 1;
    if !ok && l + 1 < |chain| {
      assert LookupRight(chain, l + 1);
      ok, l', e' := true, l + 1, 0;
    }
  }

  /** map_lookup_prev_entry. */
  method PrevEntry(chain: seq<Lookup>, l: nat, e: nat) returns (ok: bool, l': nat, e': nat)
    requires WellFormed(chain) && Exists(chain, l, e)
    ensures ok <==> Global(chain, l, e) > 0
    ensures ok ==> Exists(chain, l', e') && Global(chain, l', e') == Global(chain, l, e) - 1
  {
    l', e' := l, e;
    ok := e > 0 || l > 0;
    if e > 0 {
      e' := e - 1;
    } else if l > 0 {
      assert LookupRight(chain, l - 1);
      GlobalStep(chain, l - 1);
      l', e' := l - 1, |chain[l - 1].entries| - 1;
    }
  }

  // ----- Scans inside a loaded map

  /** blk_map_space_forward. */
  method MapForward(m: Map, from: nat, code: Code, count: nat) returns (c: nat, todo: nat, error: Error)
    requires from <= |m| && count > 0
    ensures Landing(c, todo, error) == ScanForward(m, from, code, count)
    ensures ForwardLaw(m, from, code, count, Landing(c, todo, error))
  {
    ForwardIsLawful(m, from, code, count);
    hide ForwardLaw;
    c, todo, error := from, count, NoError;
    while c < |m|
      invariant from <= c <= |m| && todo > 0 && error == NoError
      invariant ScanForward(m, from, code, count) == ScanForward(m, c, code, todo)
    {
      ForwardStep(m, c, code, todo);
      todo := todo - Counted(m[c], code);
      error := Barrier(m[c], code);
      c := c + 1;
      if error != NoError || todo == 0 {
        return;
      }
    }
  }

  /** blk_map_space_backward. */
  method MapBackward(m: Map, from: nat, code: Code, count: nat) returns (c: nat, todo: nat, error: Error)
    requires from <= |m| && count > 0
    ensures Landing(c, todo, error) == ScanBackward(m, from, code, count)
    ensures BackwardLaw(m, from, code, count, Landing(c, todo, error))
  {
    BackwardIsLawful(m, from, code, count);
    hide BackwardLaw;
    c, todo, error := from, count, NoError;
    while c > 0
      invariant 0 <= c <= from && todo > 0 && error == NoError
      invariant ScanBackward(m, from, code, count) == ScanBackward(m, c, code, todo)
    {
      BackwardStep(m, c, code, todo);
      c := c - 1;
      todo := todo - Counted(m[c], code);
      error := Barrier(m[c], code);
      if error != NoError || todo == 0 {
        return;
      }
    }
  }

  // ----- Skipping whole maps

  /** map_lookup_space_forward, from the first element of map (l0, e0). */
  method WalkForward(chain: seq<Lookup>, l0: nat, e0: nat, code: Code, count: nat) returns (l: nat, e: nat, todo: nat)
    requires WellFormed(chain) && Exists(chain, l0, e0) && count > 0
    requires Global(chain, l0, e0) < |Maps(chain)|
    ensures Exists(chain, l, e) && todo > 0 && Global(chain, l, e) < |Maps(chain)|
    ensures var ms := Maps(chain);
            && Offset(ms, Global(chain, l0, e0)) <= |Flat(ms)| && Offset(ms, Global(chain, l, e)) <= |Flat(ms)|
            && ScanForward(Flat(ms), Offset(ms, Global(chain, l0, e0)), code, count)
                 == ScanForward(Flat(ms), Offset(ms, Global(chain, l, e)), code, todo)
            && (Global(chain, l, e) + 1 < |ms| ==>
                  !RunsThrough(ms[Global(chain, l, e)], 0, |ms[Global(chain, l, e)]|, code, todo))
  {
    hide ScanForward;
    hide Flat;
    hide Count;
    hide RunsThrough;
    hide LidStart;
    hide EntryFilemarks;
    hide EntrySetmarks;
    ghost var ms, g := Maps(chain), Global(chain, l0, e0);
    l, e, todo := l0, e0, count;
    OffsetMonotone(ms, g, |ms|);
    while true
      invariant Exists(chain, l, e) && todo > 0 && g == Global(chain, l, e) < |ms| && Offset(ms, g) <= |Flat(ms)|
      invariant ScanForward(Flat(ms), Offset(ms, Global(chain, l0, e0)), code, count)
                  == ScanForward(Flat(ms), Offset(ms, g), code, todo)
      decreases |ms| - g
    {
      var ok, l', e' := NextEntry(chain, l, e);
      if !ok {
        return;
      }
      assert LookupRight(chain, l) && LookupRight(chain, l');
      assert EntryRight(chain, l, e) && EntryRight(chain, l', e');
      var entry, next := chain[l].entries[e], chain[l'].entries[e'];
      var length, f, s := LidStart(next) - LidStart(entry), EntryFilemarks(entry), EntrySetmarks(entry);
      assert length == |ms[g]|;
      IndexTellsRun(ms[g], code, todo);
      if !IndexRunsThrough(length, f, s, code, todo) {
        return;
      }
      ForwardInMap(ms, g, 0, code, todo);
      l, e, todo, g := l', e', todo - IndexCount(length, f, s, code), g + 1;
    }
  }

  /** map_lookup_space_backward, from the last element of map (l0, e0). */
  method WalkBackward(chain: seq<Lookup>, l0: nat, e0: nat, code: Code, count: nat) returns (l: nat, e: nat, todo: nat)
    requires WellFormed(chain) && Exists(chain, l0, e0) && count > 0
    requires Global(chain, l0, e0) < |Maps(chain)|
    ensures Exists(chain, l, e)
    ensures (Global(chain, l, e), todo) == WalkBack(Maps(chain), Global(chain, l0, e0), code, count)
  {
    hide Count;
    hide LidStart;
    hide EntryFilemarks;
    hide EntrySetmarks;
    ghost var ms, g := Maps(chain), Global(chain, l0, e0);
    l, e, todo := l0, e0, count;
    while true
      invariant Exists(chain, l, e) && todo > 0 && g == Global(chain, l, e) < |ms|
      invariant WalkBack(ms, Global(chain, l0, e0), code, count) == WalkBack(ms, g, code, todo)
      decreases g
    {
      var ok, l', e' := PrevEntry(chain, l, e);
      if !ok {
        return;
      }
      assert LookupRight(chain, l) && LookupRight(chain, l');
      assert EntryRight(chain, l, e) && EntryRight(chain, l', e');
      var entry, prev := chain[l].entries[e], chain[l'].entries[e'];
      var length, f, s := LidStart(entry) - LidStart(prev), EntryFilemarks(entry), EntrySetmarks(entry);
      assert length == |ms[g - 1]|;
      if !IndexRunsThrough(length, f, s, code, todo) {
        return;
      }
      l, e, todo, g := l', e', todo - IndexCount(length, f, s, code), g - 1;
    }
  }

  // ----- Finding the map of an address

  /** map_lookup_locate: the last entry whose first logical id is not past the address. */
  method FindMap(chain: seq<Lookup>, addr: nat) returns (l: nat, e: nat)
    requires WellFormed(chain)
    ensures Exists(chain, l, e) && Global(chain, l, e) < |Maps(chain)|
    ensures Offset(Maps(chain), Global(chain, l, e)) <= addr
    ensures Global(chain, l, e) + 1 < |Maps(chain)| ==> addr < Offset(Maps(chain), Global(chain, l, e) + 1)
  {
    hide LidStart;
    hide EntryFilemarks;
    hide EntrySetmarks;
    hide WellFormed, EntryRight, LookupRight, Maps, MapsTo, Offset;
    l, e := 0, 0;
    FirstId(chain);
    while l + 1 < |chain| && chain[l + 1].lidStart <= addr
      invariant l < |chain| && chain[l].lidStart <= addr
    {
      l := l + 1;
    }
    FirstOfLookup(chain, l);
    while e + 1 < |chain[l].entries| && LidStart(chain[l].entries[e + 1]) <= addr
      invariant e < |chain[l].maps| && LidStart(chain[l].entries[e]) <= addr
    {
      e := e + 1;
    }
    MapFound(chain, l, e, addr);
  }

  lemma {:induction false} FirstId(chain: seq<Lookup>)
    requires WellFormed(chain)
    ensures chain != [] && chain[0].lidStart == 0
  {
    hide EntryRight;
    assert LookupRight(chain, 0);
  }

  lemma {:induction false} FirstOfLookup(chain: seq<Lookup>, l: nat)
    requires WellFormed(chain) && l < |chain|
    ensures |chain[l].entries| == |chain[l].maps| > 0 && LidStart(chain[l].entries[0]) == chain[l].lidStart
  {
    hide Maps, MapsTo, Offset, LidStart, EntryFilemarks, EntrySetmarks;
    assert LookupRight(chain, l) && EntryRight(chain, l, 0);
  }

  lemma {:induction false} MapFound(chain: seq<Lookup>, l: nat, e: nat, addr: nat)
    requires WellFormed(chain) && l < |chain| && e < |chain[l].entries| == |chain[l].maps|
             && LidStart(chain[l].entries[e]) <= addr
    requires e + 1 < |chain[l].entries| ==> addr < LidStart(chain[l].entries[e + 1])
    requires l + 1 < |chain| ==> addr < chain[l + 1].lidStart
    ensures var ms, g := Maps(chain), Global(chain, l, e);
            g < |ms| && Offset(ms, g) <= addr && (g + 1 < |ms| ==> addr < Offset(ms, g + 1))
  {
    hide Maps, MapsTo, Offset, LidStart, EntryFilemarks, EntrySetmarks, FilemarksBefore;
    GlobalStep(chain, l);
    assert LookupRight(chain, l) && EntryRight(chain, l, e);
    if e + 1 < |chain[l].maps| {
      assert EntryRight(chain, l, e + 1);
    } else if l + 1 < |chain| {
      assert LookupRight(chain, l + 1);
    }
  }

  /** Every lookup has entries, one for each of its maps. */
  predicate Shaped(chain: seq<Lookup>) {
    chain != [] && forall l :: 0 <= l < |chain| ==> |chain[l].entries| == |chain[l].maps| > 0
  }

  lemma {:induction false} WellFormedIsShaped(chain: seq<Lookup>)
    requires WellFormed(chain)
    ensures Shaped(chain)
  {
    hide EntryRight;
    forall l | 0 <= l < |chain|
      ensures |chain[l].entries| == |chain[l].maps| > 0
    {
      assert LookupRight(chain, l);
    }
  }

  /** From lookup l on, the lookup before the first that begins past filemark number `addr`. */
  function LookupFor(chain: seq<Lookup>, l: nat, addr: nat): (r: nat)
    requires l < |chain|
    ensures l <= r < |chain|
    decreases |chain| - l
  {
    if l + 1 < |chain| && chain[l + 1].fileStart <= addr then LookupFor(chain, l + 1, addr) else l
  }

  /** The filemarks before entry e, as the lookup counts them. */
  function FilesTo(look: Lookup, e: nat): nat
    requires e <= |look.entries|
  {
    if e == 0 then look.fileStart else FilesTo(look, e - 1) + EntryFilemarks(look.entries[e - 1])
  }

  /** From entry e on, the entry that holds filemark number `addr`, or the last one. */
  function EntryFor(look: Lookup, e: nat, addr: nat): (r: nat)
    requires e < |look.entries|
    ensures e <= r < |look.entries|
    decreases |look.entries| - e
  {
    if e + 1 < |look.entries| && FilesTo(look, e + 1) <= addr then EntryFor(look, e + 1, addr) else e
  }

  /** map_lookup_locate_file, on the index as it is. */
  method FindFileMap(chain: seq<Lookup>, addr: nat) returns (l: nat, e: nat)
    requires Shaped(chain)
    ensures l == LookupFor(chain, 0, addr) && e == EntryFor(chain[l], 0, addr)
  {
    l, e := 0, 0;
    while l + 1 < |chain| && chain[l + 1].fileStart <= addr
      invariant l < |chain| && LookupFor(chain, 0, addr) == LookupFor(chain, l, addr)
    {
      l := l + 1;
    }
    var before := chain[l].fileStart;
    while e + 1 < |chain[l].entries| && before + EntryFilemarks(chain[l].entries[e]) <= addr
      invariant e < |chain[l].entries| && before == FilesTo(chain[l], e)
                && EntryFor(chain[l], 0, addr) == EntryFor(chain[l], e, addr)
    {
      before := before + EntryFilemarks(chain[l].entries[e]);
      e := e + 1;
    }
  }

  /** map_lookup_get_ids_start. */
  method FilesBefore(chain: seq<Lookup>, l: nat, e: nat) returns (f: nat)
    requires Shaped(chain) && Exists(chain, l, e)
    ensures f == FilesTo(chain[l], e)
  {
    f := chain[l].fileStart;
    for i := 0 to e
      invariant f == FilesTo(chain[l], i)
    {
      f := f + EntryFilemarks(chain[l].entries[i]);
    }
  }

  /** In a right index, the count before an entry is the number of filemarks before its map. */
  lemma {:induction false} FilesToRight(chain: seq<Lookup>, l: nat, e: nat)
    requires l < |chain| && LookupRight(chain, l) && e <= |chain[l].maps|
    ensures Global(chain, l, e) <= |Maps(chain)|
            && FilesTo(chain[l], e) == FilemarksBefore(Maps(chain), Global(chain, l, e))
    decreases e
  {
    hide LidStart, EntryFilemarks, EntrySetmarks, FilemarksIn, Maps, MapsTo, Offset;
    if e > 0 {
      FilesToRight(chain, l, e - 1);
      assert EntryRight(chain, l, e - 1);
    }
  }

  /** LookupFor by what it is: the last lookup whose count is not past the address, when the counts grow. */
  lemma {:induction false} LookupForIs(chain: seq<Lookup>, l: nat, addr: nat)
    requires l < |chain|
    ensures var r := LookupFor(chain, l, addr);
            && (r > l ==> chain[r].fileStart <= addr) && (r + 1 < |chain| ==> addr < chain[r + 1].fileStart)
    decreases |chain| - l
  {
    if l + 1 < |chain| && chain[l + 1].fileStart <= addr {
      LookupForIs(chain, l + 1, addr);
    }
  }

  lemma {:induction false} EntryForIs(look: Lookup, e: nat, addr: nat)
    requires e < |look.entries| && FilesTo(look, e) <= addr
    ensures var r := EntryFor(look, e, addr);
            FilesTo(look, r) <= addr && (r + 1 < |look.entries| ==> addr < FilesTo(look, r + 1))
    decreases |look.entries| - e
  {
    hide FilesTo;
    if e + 1 < |look.entries| && FilesTo(look, e + 1) <= addr {
      EntryForIs(look, e + 1, addr);
    }
  }

  /** In a right index, the entry found holds that filemark, or is the last of all. */
  lemma {:induction false} FileMapRight(chain: seq<Lookup>, addr: nat)
    requires WellFormed(chain) && Shaped(chain)
    ensures var l := LookupFor(chain, 0, addr);
            var e := EntryFor(chain[l], 0, addr);
            var ms, g := Maps(chain), Global(chain, l, e);
            && g < |ms| && ms[g] == chain[l].maps[e] && FilesTo(chain[l], e) == FilemarksBefore(ms, g) <= addr
            && (addr < FilemarksBefore(ms, g + 1) || g + 1 == |ms|)
  {
    hide *;
    FirstFile(chain);
    var l := LookupFor(chain, 0, addr);
    LookupForIs(chain, 0, addr);
    ShapedAt(chain, l);
    assert FilesTo(chain[l], 0) <= addr by {
      FilesToNone(chain[l]);
    }
    EntryForIs(chain[l], 0, addr);
    FileEntryRight(chain, l, EntryFor(chain[l], 0, addr), addr);
  }

  lemma {:induction false} FirstFile(chain: seq<Lookup>)
    requires WellFormed(chain)
    ensures chain != [] && chain[0].fileStart == 0
  {
    hide EntryRight;
    assert LookupRight(chain, 0);
  }

  lemma {:induction false} ShapedAt(chain: seq<Lookup>, l: nat)
    requires Shaped(chain) && l < |chain|
    ensures |chain[l].entries| == |chain[l].maps| > 0
  {
  }

  lemma {:induction false} FilesToNone(look: Lookup)
    ensures FilesTo(look, 0) == look.fileStart
  {
  }

  lemma {:induction false} FileEntryRight(chain: seq<Lookup>, l: nat, e: nat, addr: nat)
    requires WellFormed(chain) && l < |chain| && e < |chain[l].entries| == |chain[l].maps|
             && FilesTo(chain[l], e) <= addr
    requires e + 1 < |chain[l].entries| ==> addr < FilesTo(chain[l], e + 1)
    requires l + 1 < |chain| ==> addr < chain[l + 1].fileStart
    ensures var ms, g := Maps(chain), Global(chain, l, e);
            && g < |ms| && ms[g] == chain[l].maps[e] && FilesTo(chain[l], e) == FilemarksBefore(ms, g)
            && (addr < FilemarksBefore(ms, g + 1) || g + 1 == |ms|)
  {
    assert LookupRight(chain, l) && EntryRight(chain, l, e);
    if e + 1 == |chain[l].maps| && l + 1 < |chain| {
      assert LookupRight(chain, l + 1);
    }
    GlobalStep(chain, l);
    hide WellFormed, EntryRight, Maps, MapsTo, FilemarksBefore, FilesTo, Offset;
    FilesToRight(chain, l, e);
    FilesToRight(chain, l, e + 1);
  }

  lemma {:induction false} CountMonotone(s: seq<Block>, lo: nat, hi: nat)
    requires lo <= hi <= |s|
    ensures Count(s, 0, lo, Code.Filemarks) <= Count(s, 0, hi, Code.Filemarks)
    decreases hi
  {
    if lo < hi {
      CountMonotone(s, lo, hi - 1);
    }
  }

  /** From element c on, the filemark of `m` with number `addr`, when `before` come before it; else the end. */
  function MarkFor(m: Map, c: nat, before: nat, addr: nat): (r: nat)
    requires c <= |m|
    ensures c <= r <= |m|
    decreases |m| - c
  {
    if c == |m| then c
    else if m[c] != Filemark then MarkFor(m, c + 1, before, addr)
    else if before == addr then c
    else MarkFor(m, c + 1, before + 1, addr)
  }

  /** blk_map_locate_file. */
  method FindFilemark(m: Map, before: nat, addr: nat) returns (found: bool, c: nat)
    ensures c == MarkFor(m, 0, before, addr) && (found <==> c < |m|)
  {
    c := 0;
    var f := before;
    while c < |m|
      invariant 0 <= c <= |m| && MarkFor(m, 0, before, addr) == MarkFor(m, c, f, addr)
    {
      if m[c] == Filemark {
        if f == addr {
          return true, c;
        }
        f := f + 1;
      }
      c := c + 1;
    }
    found := false;
  }

  lemma {:induction false} MarkForIs(m: Map, c: nat, before: nat, addr: nat)
    requires c <= |m|
    ensures var r := MarkFor(m, c, before, addr);
            && (r < |m| <==> before <= addr < before + Count(m, c, |m|, Code.Filemarks))
            && (r < |m| ==> m[r] == Filemark && before + Count(m, c, r, Code.Filemarks) == addr)
    decreases |m| - c
  {
    if c < |m| {
      CountFirst(m, c, |m|, Code.Filemarks);
      var b := before + Counted(m[c], Code.Filemarks);
      MarkForIs(m, c + 1, b, addr);
      var r := MarkFor(m, c + 1, b, addr);
      if r < |m| {
        CountFirst(m, c, r, Code.Filemarks);
      }
      hide Count;
    }
  }

  /** Where LOCATE by file ends: entry e of lookup l, element c of its map. */
  datatype Spot = Spot(l: nat, e: nat, c: nat, error: Error)

  function FileSpot(chain: seq<Lookup>, addr: nat): (p: Spot)
    requires Shaped(chain)
    ensures Exists(chain, p.l, p.e) && p.c <= |chain[p.l].maps[p.e]|
  {
    var l := LookupFor(chain, 0, addr);
    var e := EntryFor(chain[l], 0, addr);
    var c := MarkFor(chain[l].maps[e], 0, FilesTo(chain[l], e), addr);
    Spot(l, e, c, if c < |chain[l].maps[e]| then NoError else EodReached)
  }

  /** LOCATE by file is right about an address: it ends at the filemark with exactly so many before it, or, if
      there is none, at the end of the tape. */
  ghost predicate FileSpotRight(chain: seq<Lookup>, addr: nat)
    requires Shaped(chain)
  {
    var p := FileSpot(chain, addr);
    AtFile(Maps(chain), Global(chain, p.l, p.e), p.c, p.error, addr)
  }

  /** Element c of map g is that filemark, or the end of the tape. */
  ghost predicate AtFile(ms: seq<Map>, g: nat, c: nat, error: Error, addr: nat) {
    g < |ms| &&
    var flat, pos := Flat(ms), Offset(ms, g) + c;
    pos <= |flat| &&
    if addr < Count(flat, 0, |flat|, Code.Filemarks)
    then error == NoError && pos < |flat| && flat[pos] == Filemark && Count(flat, 0, pos, Code.Filemarks) == addr
    else error == EodReached && pos == |flat|
  }

  /** In a right index it is right about every address. */
  lemma {:induction false} RightIndexLocates(chain: seq<Lookup>, addr: nat)
    requires WellFormed(chain) && Shaped(chain)
    ensures FileSpotRight(chain, addr)
  {
    hide Flat, Count, FilemarksBefore, WellFormed, Maps, MapsTo, LookupFor, EntryFor, MarkFor, Offset, FilesTo;
    var ms, p := Maps(chain), FileSpot(chain, addr);
    var m, g := chain[p.l].maps[p.e], Global(chain, p.l, p.e);
    FileMapRight(chain, addr);
    MarkForIs(m, 0, FilesTo(chain[p.l], p.e), addr);
    FileLocated(ms, g, p.c, addr);
  }

  /** What the map found and the element found in it mean on the flat tape. */
  lemma {:induction false} FileLocated(ms: seq<Map>, g: nat, c: nat, addr: nat)
    requires g < |ms| && c <= |ms[g]| && FilemarksBefore(ms, g) <= addr
    requires addr < FilemarksBefore(ms, g + 1) || g + 1 == |ms|
    requires if addr < FilemarksBefore(ms, g) + FilemarksIn(ms[g])
             then c < |ms[g]| && ms[g][c] == Filemark
                  && FilemarksBefore(ms, g) + Count(ms[g], 0, c, Code.Filemarks) == addr
             else c == |ms[g]|
    ensures var flat, pos := Flat(ms), Offset(ms, g) + c;
            && pos <= |flat|
            && if addr < Count(flat, 0, |flat|, Code.Filemarks)
               then pos < |flat| && flat[pos] == Filemark && Count(flat, 0, pos, Code.Filemarks) == addr
               else pos == |flat|
    ensures addr < Count(Flat(ms), 0, |Flat(ms)|, Code.Filemarks)
            <==> addr < FilemarksBefore(ms, g) + FilemarksIn(ms[g])
  {
    hide Flat;
    StretchOfMap(ms, g);
    FilemarksOfFlat(ms, g, c);
    if addr < FilemarksBefore(ms, g) + FilemarksIn(ms[g]) {
      FileExists(ms, g, c);
      assert Flat(ms)[Offset(ms, g) + c] == ms[g][c];
    }
  }

  /** A filemark is counted by everything behind it. */
  lemma {:induction false} FileExists(ms: seq<Map>, g: nat, c: nat)
    requires g < |ms| && c < |ms[g]| && ms[g][c] == Filemark
    ensures Offset(ms, g) + c < |Flat(ms)|
    ensures Count(Flat(ms), 0, Offset(ms, g) + c, Code.Filemarks) < Count(Flat(ms), 0, |Flat(ms)|, Code.Filemarks)
  {
    StretchOfMap(ms, g);
    assert Flat(ms)[Offset(ms, g) + c] == Filemark;
    CountMonotone(Flat(ms), Offset(ms, g) + c + 1, |Flat(ms)|);
  }

  lemma {:induction false} OffsetStrict(ms: seq<Map>, g: nat, h: nat)
    requires NonEmpty(ms) && g < h < |ms|
    ensures Offset(ms, g) < Offset(ms, h)
  {
    assert ms[g] != [];
    OffsetMonotone(ms, g + 1, h);
  }

  /** Filemarks of the flat tape, counted map by map. */
  lemma {:induction false} FilemarksOfFlat(ms: seq<Map>, g: nat, c: nat)
    requires g < |ms| && c <= |ms[g]|
    ensures Offset(ms, g) + c <= |Flat(ms)|
    ensures Count(Flat(ms), 0, Offset(ms, g) + c, Code.Filemarks)
              == FilemarksBefore(ms, g) + Count(ms[g], 0, c, Code.Filemarks)
    decreases g, c
  {
    hide Flat;
    StretchOfMap(ms, g);
    if c > 0 {
      assert Flat(ms)[Offset(ms, g) + (c - 1)] == ms[g][c - 1];
      FilemarksOfFlat(ms, g, c - 1);
    } else if g > 0 {
      FilemarksOfFlat(ms, g - 1, |ms[g - 1]|);
    }
  }

  // ----- The partition's position

  class Partition {
    const chain: seq<Lookup>
    var l: nat
    var e: nat
    /** Current element of the current map; its length when there is none. */
    var c: nat

    ghost predicate Valid()
      reads this
    {
      && WellFormed(chain) && Exists(chain, l, e) && c <= |chain[l].maps[e]|
      && Global(chain, l, e) < |Maps(chain)| && Maps(chain)[Global(chain, l, e)] == chain[l].maps[e]
    }

    ghost function Position(): nat
      reads this
      requires Valid()
    {
      Offset(Maps(chain), Global(chain, l, e)) + c
    }

    constructor (chain: seq<Lookup>)
      requires WellFormed(chain)
      ensures Valid() && this.chain == chain && Position() == 0
    {
      this.chain := chain;
      l, e, c := 0, 0, 0;
      assert LookupRight(chain, 0);
      assert EntryRight(chain, 0, 0);
    }

    /** Loads another map and positions at one of its ends. */
    method Load(l': nat, e': nat, atEnd: bool)
      requires WellFormed(chain) && Exists(chain, l', e')
      modifies this
      ensures Valid() && l == l' && e == e' && c == if atEnd then |chain[l'].maps[e']| else 0
    {
      assert LookupRight(chain, l');
      assert EntryRight(chain, l', e');
      l, e := l', e';
      c := if atEnd then |chain[l'].maps[e']| else 0;
    }

    /** SPACE forward ends where the scan of the flat tape ends, with the same residual.  Running off
        the end is reported as end of data only when the command began in the last map. */
    method SpaceForward(code: Code, count: nat) returns (todo: nat, error: Error)
      requires Valid() && count > 0
      modifies this
      ensures Valid()
      ensures old(Position()) <= |Flat(Maps(chain))|
      ensures var scan := ScanForward(Flat(Maps(chain)), old(Position()), code, count);
              && Position() == scan.pos && todo == scan.todo
              && error == if scan.error == NoError && scan.todo > 0 && old(Global(chain, l, e)) + 1 == |Maps(chain)|
                          then EodReached else scan.error
      ensures ForwardLaw(Flat(Maps(chain)), old(Position()), code, count,
                         Landing(Position(), todo, if error == EodReached then NoError else error))
    {
      hide ScanForward, Flat, WellFormed, Maps, Offset, ForwardLaw;
      todo, error := ForwardByIndex(code, count);
      ForwardIsLawful(Flat(Maps(chain)), old(Position()), code, count);
      ForwardReports(Flat(Maps(chain)), old(Position()), code, count);
    }

    /** The map at hand, and the rest by the index. */
    method ForwardByIndex(code: Code, count: nat) returns (todo: nat, error: Error)
      requires Valid() && count > 0
      modifies this
      ensures Valid()
      ensures old(Position()) <= |Flat(Maps(chain))|
      ensures var scan := ScanForward(Flat(Maps(chain)), old(Position()), code, count);
              && Position() == scan.pos && todo == scan.todo
              && error == if scan.error == NoError && scan.todo > 0 && old(Global(chain, l, e)) + 1 == |Maps(chain)|
                          then EodReached else scan.error
    {
      hide ScanForward, Flat, RunsThrough, Count, WellFormed, Maps, Offset, ForwardLaw;
      ghost var ms, g := Maps(chain), Global(chain, l, e);
      StretchOfMap(ms, g);
      ForwardInMap(ms, g, c, code, count);
      c, todo, error := MapForward(chain[l].maps[e], c, code, count);
      if error != NoError || todo == 0 {
        return;
      }
      var ok, l', e' := NextEntry(chain, l, e);
      if ok {
        todo, error := ContinueForward(l', e', code, todo);
      } else {
        ScanFromEnds(Flat(ms), code, todo);
        error := EodReached;
      }
    }

    /** The rest of SPACE forward, from the first element of map (l0, e0). */
    method ContinueForward(l0: nat, e0: nat, code: Code, count: nat) returns (todo: nat, error: Error)
      requires WellFormed(chain) && Exists(chain, l0, e0) && count > 0
      requires Global(chain, l0, e0) < |Maps(chain)|
      modifies this
      ensures Valid()
      ensures Offset(Maps(chain), Global(chain, l0, e0)) <= |Flat(Maps(chain))|
      ensures Landing(Position(), todo, error)
                == ScanForward(Flat(Maps(chain)), Offset(Maps(chain), Global(chain, l0, e0)), code, count)
      ensures ForwardLaw(Flat(Maps(chain)), Offset(Maps(chain), Global(chain, l0, e0)), code, count,
                         Landing(Position(), todo, error))
    {
      hide ScanForward, Flat, RunsThrough, Count, ForwardLaw;
      ghost var ms := Maps(chain);
      StretchOfMap(ms, Global(chain, l0, e0));
      ForwardIsLawful(Flat(ms), Offset(ms, Global(chain, l0, e0)), code, count);
      var l', e', left := WalkForward(chain, l0, e0, code, count);
      Load(l', e', false);
      ghost var g := Global(chain, l, e);
      ForwardInMap(ms, g, 0, code, left);
      c, todo, error := MapForward(chain[l].maps[e], c, code, left);
      if g + 1 == |ms| && todo > 0 {
        ScanFromEnds(Flat(ms), code, todo);
      }
    }

    /** SPACE backward ends where the scan of the flat tape ends, with the same residual and error: always for
        marks, and for blocks on an evenly cut tape.  On any tape it is the walk by the index. */
    method SpaceBackward(code: Code, count: nat) returns (todo: nat, error: Error)
      requires Valid() && count > 0
      modifies this
      ensures Valid()
      ensures Place(Global(chain, l, e), c, todo, error)
                == BackwardByIndex(Maps(chain), old(Global(chain, l, e)), old(c), code, count)
      ensures old(Position()) <= |Flat(Maps(chain))|
      ensures code != Blocks || (NonEmpty(Maps(chain)) && EvenlyCut(Maps(chain))) ==>
                var scan := ScanBackward(Flat(Maps(chain)), old(Position()), code, count);
                && Position() == scan.pos && todo == scan.todo
                && error == if old(Global(chain, l, e)) == 0 && scan.error == NoError && scan.todo > 0 then BomReached
                            else scan.error
      ensures code != Blocks || (NonEmpty(Maps(chain)) && EvenlyCut(Maps(chain))) ==>
                BackwardLaw(Flat(Maps(chain)), old(Position()), code, count,
                            Landing(Position(), todo, if error == BomReached then NoError else error))
    {
      hide ScanBackward, BackwardByIndex, NonEmpty, EvenlyCut, Flat, BackwardLaw;
      ghost var ms, g := Maps(chain), Global(chain, l, e);
      StretchOfMap(ms, g);
      BackwardOnTape(ms, g, c, code, count);
      BackwardIsLawful(Flat(ms), Offset(ms, g) + c, code, count);
      BackwardReports(Flat(ms), Offset(ms, g) + c, code, count);
      todo, error := SpaceBackwardByIndex(code, count);
    }

    method SpaceBackwardByIndex(code: Code, count: nat) returns (todo: nat, error: Error)
      requires Valid() && count > 0
      modifies this
      ensures Valid()
      ensures Place(Global(chain, l, e), c, todo, error)
                == BackwardByIndex(Maps(chain), old(Global(chain, l, e)), old(c), code, count)
    {
      hide ScanBackward, WalkBack, BackwardLaw;
      c, todo, error := MapBackward(chain[l].maps[e], c, code, count);
      if error != NoError || todo == 0 {
        return;
      }
      var ok, l', e' := PrevEntry(chain, l, e);
      if !ok {
        error := BomReached;
        return;
      }
      l', e', todo := WalkBackward(chain, l', e', code, todo);
      Load(l', e', true);
      c, todo, error := MapBackward(chain[l].maps[e], c, code, todo);
    }

    /** Loads map (l', e') unless its first logical id is that of the map at hand. */
    method Select(l': nat, e': nat)
      requires Valid() && NonEmpty(Maps(chain)) && Exists(chain, l', e')
      modifies this
      ensures Valid() && Global(chain, l, e) == Global(chain, l', e') && chain[l].maps[e] == chain[l'].maps[e']
    {
      hide LidStart;
      assert LookupRight(chain, l) && LookupRight(chain, l');
      assert EntryRight(chain, l, e) && EntryRight(chain, l', e');
      if LidStart(chain[l'].entries[e']) != LidStart(chain[l].entries[e]) {
        Load(l', e', false);
      } else {
        ghost var ms, g, g' := Maps(chain), Global(chain, l, e), Global(chain, l', e');
        if g < g' {
          OffsetStrict(ms, g, g');
        } else if g' < g {
          OffsetStrict(ms, g', g);
        }
      }
    }

    /** LOCATE by block address: the element with that logical id; one past the last is the end of data,
        reported as success unless the last map is empty; anything larger is an error there. */
    method LocateBlock(addr: nat) returns (error: Error)
      requires Valid() && NonEmpty(Maps(chain))
      modifies this
      ensures Valid()
      ensures var ms := Maps(chain);
              if addr < |Flat(ms)| then Position() == addr && c < |chain[l].maps[e]| && error == NoError
              else Position() == |Flat(ms)|
                   && error == if addr == |Flat(ms)| && ms[|ms| - 1] != [] then NoError else EodReached
    {
      hide Flat;
      ghost var ms := Maps(chain);
      var l', e' := FindMap(chain, addr);
      Select(l', e');
      ghost var g := Global(chain, l, e);
      OffsetMonotone(ms, g + 1, |ms|);
      var m, lid := chain[l].maps[e], LidStart(chain[l].entries[e]) by {
        assert LookupRight(chain, l);
      }
      assert lid == Offset(ms, g) by {
        assert LookupRight(chain, l) && EntryRight(chain, l, e);
      }
      c := 0;
      while c < |m|
        invariant 0 <= c <= |m| && Valid() && lid + c <= addr && m == chain[l].maps[e] && Global(chain, l, e) == g
      {
        if lid + c == addr {
          return NoError;
        }
        c := c + 1;
      }
      error := if m != [] && addr == lid + |m| then NoError else EodReached;
    }

    /** LOCATE by file: the filemark with exactly `addr` filemarks before it, else the end of data. */
    method LocateFile(addr: nat) returns (error: Error)
      requires Valid() && NonEmpty(Maps(chain))
      modifies this
      ensures Valid() && Position() <= |Flat(Maps(chain))|
      ensures var flat := Flat(Maps(chain));
              if addr < Count(flat, 0, |flat|, Code.Filemarks)
              then error == NoError && Position() < |flat| && flat[Position()] == Filemark
                   && Count(flat, 0, Position(), Code.Filemarks) == addr
              else error == EodReached && Position() == |flat|
    {
      hide Flat, Count, WellFormed, Maps, LookupFor, EntryFor, MarkFor, FilesTo, LidStart;
      WellFormedIsShaped(chain);
      RightIndexLocates(chain, addr);
      var l', e' := FindFileMap(chain, addr);
      var before := FilesBefore(chain, l', e');
      Select(l', e');
      var found;
      found, c := FindFilemark(chain[l].maps[e], before, addr);
      error := if found then NoError else EodReached;
    }
  }
}
