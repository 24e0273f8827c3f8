/** A tape as a flat sequence of blocks and marks, and what SPACE means on it: a scan, one element at a
    time.  The scan is the specification of the indexed commands. */
module TapeScan {

  datatype Block = Data | Filemark | Setmark

  datatype Code = Blocks | Filemarks | Setmarks

  datatype Error = NoError | FilemarkHit | SetmarkHit | EodReached | BomReached

  /** iter_space_valid: the error that ends the scan at `b`, if any. */
  function Barrier(b: Block, code: Code): Error {
    match code
    case Blocks => (match b case Data => NoError case Filemark => FilemarkHit case Setmark => SetmarkHit)
    case Filemarks => if b == Setmark then SetmarkHit else NoError
    case Setmarks => NoError
  }

  /** iter_space_count. */
  function Counted(b: Block, code: Code): nat {
    match code
    case Blocks => if b == Data then 1 else 0
    case Filemarks => if b == Filemark then 1 else 0
    case Setmarks => if b == Setmark then 1 else 0
  }

  /** Counted elements of s[lo..hi]. */
  function Count(s: seq<Block>, lo: nat, hi: nat, code: Code): (n: nat)
    requires lo <= hi <= |s|
    ensures n <= hi - lo
    decreases hi - lo
  {
    if lo == hi then 0 else Count(s, lo, hi - 1, code) + Counted(s[hi - 1], code)
  }

  /** Where a scan ends, what is left of the count, and the mark that stopped it. */
  datatype Landing = Landing(pos: nat, todo: nat, error: Error)

  function ScanForward(s: seq<Block>, pos: nat, code: Code, todo: nat): (r: Landing)
    requires pos <= |s| && todo > 0
    ensures pos <= r.pos <= |s| && r.todo <= todo
    decreases |s| - pos
  {
    if pos == |s| then Landing(pos, todo, NoError)
    else
      var left := todo - Counted(s[pos], code);
      if Barrier(s[pos], code) != NoError || left == 0 then Landing(pos + 1, left, Barrier(s[pos], code))
      else ScanForward(s, pos + 1, code, left)
  }

  function ScanBackward(s: seq<Block>, pos: nat, code: Code, todo: nat): (r: Landing)
    requires pos <= |s| && todo > 0
    ensures r.pos <= pos && r.todo <= todo
    decreases pos
  {
    if pos == 0 then Landing(pos, todo, NoError)
    else
      var left := todo - Counted(s[pos - 1], code);
      if Barrier(s[pos - 1], code) != NoError || left == 0 then Landing(pos - 1, left, Barrier(s[pos - 1], code))
      else ScanBackward(s, pos - 1, code, left)
  }

  // ----- What a landing means, in the kinds of elements alone

  /** The kind of element that a code counts. */
  function CodeKind(code: Code): Block {
    match code
    case Blocks => Data
    case Filemarks => Filemark
    case Setmarks => Setmark
  }

  /** A scan for the code ends at such an element. */
  predicate Stops(b: Block, code: Code) {
    (code == Blocks && b != Data) || (code == Filemarks && b == Setmark)
  }

  /** SPACE forward from pos to `r.pos`: the mark reported is the last element passed, nothing before it stops the
      scan, the count is used up by elements of the code's kind, the last of them last, and otherwise the scan goes on
      to the end. */
  ghost predicate ForwardLaw(s: seq<Block>, pos: nat, code: Code, todo: nat, r: Landing) {
    && pos <= r.pos <= |s|
    && (r.error == FilemarkHit <==> r.pos > pos && code == Blocks && s[r.pos - 1] == Filemark)
    && (r.error == SetmarkHit <==> r.pos > pos && code != Setmarks && s[r.pos - 1] == Setmark)
    && (r.error == NoError || r.error == FilemarkHit || r.error == SetmarkHit)
    && (forall k :: pos <= k < r.pos - 1 ==> !Stops(s[k], code))
    && r.todo == todo - Passed(s, pos, r.pos, CodeKind(code))
    && (r.todo == 0 ==> r.pos > pos && s[r.pos - 1] == CodeKind(code))
    && (r.todo > 0 && r.error == NoError ==> r.pos == |s|)
  }

  /** The same backwards: the mark reported is the element at r.pos. */
  ghost predicate BackwardLaw(s: seq<Block>, pos: nat, code: Code, todo: nat, r: Landing) {
    && r.pos <= pos <= |s|
    && (r.error == FilemarkHit <==> r.pos < pos && code == Blocks && s[r.pos] == Filemark)
    && (r.error == SetmarkHit <==> r.pos < pos && code != Setmarks && s[r.pos] == Setmark)
    && (r.error == NoError || r.error == FilemarkHit || r.error == SetmarkHit)
    && (forall k :: r.pos < k < pos ==> !Stops(s[k], code))
    && r.todo == todo - Passed(s, r.pos, pos, CodeKind(code))
    && (r.todo == 0 ==> r.pos < pos && s[r.pos] == CodeKind(code))
    && (r.todo > 0 && r.error == NoError ==> r.pos == 0)
  }

  /** Elements of kind x in s[lo..hi]. */
  ghost function Passed(s: seq<Block>, lo: nat, hi: nat, x: Block): nat
    requires lo <= hi <= |s|
  {
    multiset(s[lo..hi])[x]
  }

  lemma {:induction false} PassedFirst(s: seq<Block>, lo: nat, hi: nat, x: Block)
    requires lo < hi <= |s|
    ensures Passed(s, lo, hi, x) == (if s[lo] == x then 1 else 0) + Passed(s, lo + 1, hi, x)
  {
    assert s[lo..hi] == [s[lo]] + s[lo + 1..hi];
  }

  lemma {:induction false} PassedLast(s: seq<Block>, lo: nat, hi: nat, x: Block)
    requires lo < hi <= |s|
    ensures Passed(s, lo, hi, x) == Passed(s, lo, hi - 1, x) + if s[hi - 1] == x then 1 else 0
  {
    assert s[lo..hi] == s[lo..hi - 1] + [s[hi - 1]];
  }

  lemma {:induction false} PassedNone(s: seq<Block>, lo: nat, x: Block)
    requires lo <= |s|
    ensures Passed(s, lo, lo, x) == 0
  {
  }

  /** What the code looks at in an element, in kinds. */
  lemma {:induction false} ElementLaw(b: Block, code: Code)
    ensures Counted(b, code) == if b == CodeKind(code) then 1 else 0
    ensures Barrier(b, code) == if !Stops(b, code) then NoError else if b == Filemark then FilemarkHit else SetmarkHit
  {
  }

  lemma {:induction false} ForwardLawStep(s: seq<Block>, pos: nat, code: Code, todo: nat, r: Landing)
    requires pos < |s| && !Stops(s[pos], code)
    requires todo > if s[pos] == CodeKind(code) then 1 else 0
    requires ForwardLaw(s, pos + 1, code, todo - if s[pos] == CodeKind(code) then 1 else 0, r)
    ensures ForwardLaw(s, pos, code, todo, r)
  {
    hide Passed;
    PassedFirst(s, pos, r.pos, CodeKind(code));
  }

  lemma {:induction false} ForwardIsLawful(s: seq<Block>, pos: nat, code: Code, todo: nat)
    requires pos <= |s| && todo > 0
    ensures ForwardLaw(s, pos, code, todo, ScanForward(s, pos, code, todo))
    decreases |s| - pos
  {
    hide Counted, Barrier, Passed;
    if pos == |s| {
      PassedNone(s, pos, CodeKind(code));
    } else {
      ElementLaw(s[pos], code);
      var left := todo - Counted(s[pos], code);
      var r := ScanForward(s, pos, code, todo);
      if Barrier(s[pos], code) == NoError && left > 0 {
        ForwardIsLawful(s, pos + 1, code, left);
        ForwardLawStep(s, pos, code, todo, r);
      } else {
        PassedNone(s, pos + 1, CodeKind(code));
        PassedFirst(s, pos, r.pos, CodeKind(code));
      }
    }
  }

  lemma {:induction false} BackwardIsLawful(s: seq<Block>, pos: nat, code: Code, todo: nat)
    requires pos <= |s| && todo > 0
    ensures BackwardLaw(s, pos, code, todo, ScanBackward(s, pos, code, todo))
    decreases pos
  {
    hide Counted, Barrier, Passed;
    if pos == 0 {
      PassedNone(s, 0, CodeKind(code));
    } else {
      ElementLaw(s[pos - 1], code);
      var left := todo - Counted(s[pos - 1], code);
      var r := ScanBackward(s, pos, code, todo);
      if Barrier(s[pos - 1], code) == NoError && left > 0 {
        BackwardIsLawful(s, pos - 1, code, left);
      } else {
        PassedNone(s, pos - 1, CodeKind(code));
      }
      PassedLast(s, r.pos, pos, CodeKind(code));
    }
  }

  lemma {:induction false} ForwardReports(s: seq<Block>, pos: nat, code: Code, todo: nat)
    requires pos <= |s| && todo > 0
    ensures ScanForward(s, pos, code, todo).error in {NoError, FilemarkHit, SetmarkHit}
  {
    ForwardIsLawful(s, pos, code, todo);
    hide ScanForward, Passed, Stops;
  }

  lemma {:induction false} BackwardReports(s: seq<Block>, pos: nat, code: Code, todo: nat)
    requires pos <= |s| && todo > 0
    ensures ScanBackward(s, pos, code, todo).error in {NoError, FilemarkHit, SetmarkHit}
  {
    BackwardIsLawful(s, pos, code, todo);
    hide ScanBackward, Passed, Stops;
  }

  lemma {:induction false} PassedMore(s: seq<Block>, lo: nat, mid: nat, hi: nat, x: Block)
    requires lo <= mid <= hi <= |s|
    ensures Passed(s, lo, hi, x) == Passed(s, lo, mid, x) + Passed(s, mid, hi, x)
  {
    assert s[lo..hi] == s[lo..mid] + s[mid..hi];
  }

  /** The laws leave nothing open: no two landings obey them. */
  lemma {:induction false} OneForward(s: seq<Block>, pos: nat, code: Code, todo: nat, a: Landing, b: Landing)
    requires todo > 0 && ForwardLaw(s, pos, code, todo, a) && ForwardLaw(s, pos, code, todo, b)
    ensures a == b
  {
    hide ForwardLaw;
    ForwardNoFurther(s, pos, code, todo, a, b);
    ForwardNoFurther(s, pos, code, todo, b, a);
    ForwardSame(s, pos, code, todo, a, b);
  }

  lemma {:induction false} ForwardSame(s: seq<Block>, pos: nat, code: Code, todo: nat, a: Landing, b: Landing)
    requires ForwardLaw(s, pos, code, todo, a) && ForwardLaw(s, pos, code, todo, b) && a.pos == b.pos
    ensures a == b
  {
    hide Passed, Stops;
  }

  lemma {:induction false} ForwardNoFurther(s: seq<Block>, pos: nat, code: Code, todo: nat, a: Landing, b: Landing)
    requires todo > 0 && ForwardLaw(s, pos, code, todo, a) && ForwardLaw(s, pos, code, todo, b)
    ensures b.pos <= a.pos
  {
    hide Passed;
    if a.pos < b.pos {
      PassedMore(s, pos, a.pos, b.pos, CodeKind(code));
      PassedLast(s, a.pos, b.pos, CodeKind(code));
    }
  }

  lemma {:induction false} OneBackward(s: seq<Block>, pos: nat, code: Code, todo: nat, a: Landing, b: Landing)
    requires todo > 0 && BackwardLaw(s, pos, code, todo, a) && BackwardLaw(s, pos, code, todo, b)
    ensures a == b
  {
    hide BackwardLaw;
    BackwardNoFurther(s, pos, code, todo, a, b);
    BackwardNoFurther(s, pos, code, todo, b, a);
    BackwardSame(s, pos, code, todo, a, b);
  }

  lemma {:induction false} BackwardSame(s: seq<Block>, pos: nat, code: Code, todo: nat, a: Landing, b: Landing)
    requires BackwardLaw(s, pos, code, todo, a) && BackwardLaw(s, pos, code, todo, b) && a.pos == b.pos
    ensures a == b
  {
    hide Passed, Stops;
  }

  lemma {:induction false} BackwardNoFurther(s: seq<Block>, pos: nat, code: Code, todo: nat, a: Landing, b: Landing)
    requires todo > 0 && BackwardLaw(s, pos, code, todo, a) && BackwardLaw(s, pos, code, todo, b)
    ensures a.pos <= b.pos
  {
    hide Passed;
    if b.pos < a.pos {
      PassedMore(s, b.pos, a.pos, pos, CodeKind(code));
      PassedFirst(s, b.pos, a.pos, CodeKind(code));
    }
  }

  /** A scan over s[lo..hi] neither meets a barrier nor uses up the count. */
  ghost predicate RunsThrough(s: seq<Block>, lo: nat, hi: nat, code: Code, todo: nat)
    requires lo <= hi <= |s|
  {
    Count(s, lo, hi, code) < todo && forall k :: lo <= k < hi ==> Barrier(s[k], code) == NoError
  }

  function Shift(l: Landing, n: nat): Landing {
    l.(pos := l.pos + n)
  }

  lemma {:induction false} CountFirst(s: seq<Block>, lo: nat, hi: nat, code: Code)
    requires lo < hi <= |s|
    ensures Count(s, lo, hi, code) == Counted(s[lo], code) + Count(s, lo + 1, hi, code)
    decreases hi
  {
    if lo + 1 < hi {
      CountFirst(s, lo, hi - 1, code);
    }
  }

  /** Running through a stretch is passing its first element and running through the rest. */
  lemma {:induction false} RunsFirst(m: seq<Block>, c: nat, code: Code, todo: nat)
    requires c < |m| && todo > 0
    ensures Count(m, c, |m|, code) == Counted(m[c], code) + Count(m, c + 1, |m|, code) && Counted(m[c], code) <= todo
    ensures RunsThrough(m, c, |m|, code, todo)
            <==> Barrier(m[c], code) == NoError && RunsThrough(m, c + 1, |m|, code, todo - Counted(m[c], code))
    ensures RunsThrough(m, c, |m|, code, todo) ==> todo - Counted(m[c], code) > 0
  {
    CountFirst(m, c, |m|, code);
    hide Count, Barrier;
  }

  /** The same from the other end. */
  lemma {:induction false} RunsLast(m: seq<Block>, c: nat, code: Code, todo: nat)
    requires 0 < c <= |m| && todo > 0
    ensures Count(m, 0, c, code) == Count(m, 0, c - 1, code) + Counted(m[c - 1], code)
            && Counted(m[c - 1], code) <= todo
    ensures RunsThrough(m, 0, c, code, todo)
            <==> Barrier(m[c - 1], code) == NoError && RunsThrough(m, 0, c - 1, code, todo - Counted(m[c - 1], code))
    ensures RunsThrough(m, 0, c, code, todo) ==> todo - Counted(m[c - 1], code) > 0
  {
    hide Barrier;
  }

  lemma {:induction false} ForwardStep(s: seq<Block>, pos: nat, code: Code, todo: nat)
    requires pos < |s| && todo > 0
    ensures var left := todo - Counted(s[pos], code);
            ScanForward(s, pos, code, todo)
            == if Barrier(s[pos], code) != NoError || left == 0 then Landing(pos + 1, left, Barrier(s[pos], code))
               else ScanForward(s, pos + 1, code, left)
  {
  }

  lemma {:induction false} BackwardStep(s: seq<Block>, pos: nat, code: Code, todo: nat)
    requires 0 < pos <= |s| && todo > 0
    ensures var left := todo - Counted(s[pos - 1], code);
            ScanBackward(s, pos, code, todo)
            == if Barrier(s[pos - 1], code) != NoError || left == 0
               then Landing(pos - 1, left, Barrier(s[pos - 1], code))
               else ScanBackward(s, pos - 1, code, left)
  {
  }

  /** A scan that reaches an end of the tape stays there. */
  lemma {:induction false} ScanFromEnds(s: seq<Block>, code: Code, todo: nat)
    requires todo > 0
    ensures ScanForward(s, |s|, code, todo) == Landing(|s|, todo, NoError)
    ensures ScanBackward(s, 0, code, todo) == Landing(0, todo, NoError)
  {
  }

  /** `m` is the part of `s` that starts at `at`. */
  ghost predicate Stretch(s: seq<Block>, at: nat, m: seq<Block>) {
    at + |m| <= |s| && forall k :: 0 <= k < |m| ==> m[k] == s[at + k]
  }

  lemma {:induction false} SameElement(s: seq<Block>, at: nat, m: seq<Block>, k: nat)
    requires Stretch(s, at, m) && k < |m|
    ensures at + |m| <= |s| && m[k] == s[at + k]
  {
  }

  lemma {:induction false} NoneRun(m: seq<Block>, code: Code, todo: nat)
    requires todo > 0
    ensures RunsThrough(m, 0, 0, code, todo) && RunsThrough(m, |m|, |m|, code, todo)
  {
  }

  lemma {:induction false} NoneCounted(m: seq<Block>, c: nat, code: Code)
    requires c <= |m|
    ensures Count(m, c, c, code) == 0
  {
  }

  /** A scan that runs through the rest of a stretch goes on behind it with the count reduced. */
  lemma {:induction false} ForwardThrough(s: seq<Block>, at: nat, m: seq<Block>, c: nat, code: Code, todo: nat)
    requires Stretch(s, at, m) && c <= |m| && todo > 0 && RunsThrough(m, c, |m|, code, todo)
    ensures ScanForward(s, at + c, code, todo) == ScanForward(s, at + |m|, code, todo - Count(m, c, |m|, code))
    decreases |m| - c
  {
    hide *;
    NoneCounted(m, |m|, code);
    if c < |m| {
      RunsFirst(m, c, code, todo);
      SameElement(s, at, m, c);
      ForwardStep(s, at + c, code, todo);
      ForwardThrough(s, at, m, c + 1, code, todo - Counted(m[c], code));
    }
  }

  /** A scan that does not, ends inside the stretch just as it would on the stretch alone. */
  lemma {:induction false} ForwardInside(s: seq<Block>, at: nat, m: seq<Block>, c: nat, code: Code, todo: nat)
    requires Stretch(s, at, m) && c <= |m| && todo > 0 && !RunsThrough(m, c, |m|, code, todo)
    ensures ScanForward(s, at + c, code, todo) == Shift(ScanForward(m, c, code, todo), at)
    ensures ScanForward(m, c, code, todo).error != NoError || ScanForward(m, c, code, todo).todo == 0
    decreases |m| - c
  {
    NoneRun(m, code, todo);
    hide ScanForward, Counted, Barrier, Stretch, RunsThrough;
    if c < |m| {
      RunsFirst(m, c, code, todo);
      ForwardStep(m, c, code, todo);
      SameElement(s, at, m, c);
      ForwardStep(s, at + c, code, todo);
      var left := todo - Counted(m[c], code);
      if Barrier(m[c], code) == NoError && left > 0 {
        ForwardInside(s, at, m, c + 1, code, left);
      }
    }
  }

  lemma {:induction false} BackwardThrough(s: seq<Block>, at: nat, m: seq<Block>, c: nat, code: Code, todo: nat)
    requires Stretch(s, at, m) && c <= |m| && todo > 0 && RunsThrough(m, 0, c, code, todo)
    ensures ScanBackward(s, at + c, code, todo) == ScanBackward(s, at, code, todo - Count(m, 0, c, code))
    decreases c
  {
    hide *;
    NoneCounted(m, 0, code);
    if c > 0 {
      RunsLast(m, c, code, todo);
      SameElement(s, at, m, c - 1);
      BackwardStep(s, at + c, code, todo);
      BackwardThrough(s, at, m, c - 1, code, todo - Counted(m[c - 1], code));
    }
  }

  lemma {:induction false} BackwardInside(s: seq<Block>, at: nat, m: seq<Block>, c: nat, code: Code, todo: nat)
    requires Stretch(s, at, m) && c <= |m| && todo > 0 && !RunsThrough(m, 0, c, code, todo)
    ensures ScanBackward(s, at + c, code, todo) == Shift(ScanBackward(m, c, code, todo), at)
    ensures ScanBackward(m, c, code, todo).error != NoError || ScanBackward(m, c, code, todo).todo == 0
    decreases c
  {
    NoneRun(m, code, todo);
    hide ScanBackward, Counted, Barrier, Stretch, RunsThrough;
    if c > 0 {
      RunsLast(m, c, code, todo);
      BackwardStep(m, c, code, todo);
      SameElement(s, at, m, c - 1);
      BackwardStep(s, at + c, code, todo);
      var left := todo - Counted(m[c - 1], code);
      if Barrier(m[c - 1], code) == NoError && left > 0 {
        BackwardInside(s, at, m, c - 1, code, left);
      }
    }
  }

  // ----- What the counts kept in the index say about a map

  /** From the numbers of filemarks and setmarks of a map, as the index keeps them: does a scan run
      through the map? */
  predicate IndexRunsThrough(length: nat, filemarks: nat, setmarks: nat, code: Code, todo: nat) {
    match code
    case Blocks => filemarks == 0 && setmarks == 0 && length < todo
    case Filemarks => setmarks == 0 && filemarks < todo
    case Setmarks => setmarks < todo
  }

  function IndexCount(length: nat, filemarks: nat, setmarks: nat, code: Code): nat {
    match code
    case Blocks => length
    case Filemarks => filemarks
    case Setmarks => setmarks
  }

  lemma {:induction false} CountBounds(m: seq<Block>, hi: nat, code: Code)
    requires hi <= |m|
    ensures Count(m, 0, hi, code) == 0 <==> forall k :: 0 <= k < hi ==> Counted(m[k], code) == 0
    ensures Count(m, 0, hi, code) == hi <==> forall k :: 0 <= k < hi ==> Counted(m[k], code) == 1
    decreases hi
  {
    if hi > 0 {
      CountBounds(m, hi - 1, code);
    }
  }

  /** The index decides exactly whether a scan runs through a map, and by how much. */
  lemma {:induction false} IndexTellsRun(m: seq<Block>, code: Code, todo: nat)
    ensures var f, s := Count(m, 0, |m|, Filemarks), Count(m, 0, |m|, Setmarks);
            && (IndexRunsThrough(|m|, f, s, code, todo) <==> RunsThrough(m, 0, |m|, code, todo))
            && (RunsThrough(m, 0, |m|, code, todo) ==> IndexCount(|m|, f, s, code) == Count(m, 0, |m|, code))
  {
    CountBounds(m, |m|, Filemarks);
    CountBounds(m, |m|, Setmarks);
    CountBounds(m, |m|, Blocks);
    match code
    case Blocks =>
      assert forall k :: 0 <= k < |m| ==> (Barrier(m[k], Blocks) == NoError <==> Counted(m[k], Blocks) == 1);
      assert forall k :: 0 <= k < |m| ==>
                           (Counted(m[k], Blocks) == 1
                            <==> Counted(m[k], Filemarks) == 0 && Counted(m[k], Setmarks) == 0);
    case Filemarks =>
      assert forall k :: 0 <= k < |m| ==> (Barrier(m[k], Filemarks) == NoError <==> Counted(m[k], Setmarks) == 0);
    case Setmarks =>
  }
}
