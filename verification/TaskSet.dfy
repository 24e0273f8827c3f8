/** The task set of an initiator (struct initiator_state): commands in arrival order, some dispatched, some
    waiting, and the counters that decide which. */
module TaskSet {

  datatype Attribute = Simple | HeadOfQueue | Ordered | Aca

  datatype Task = Task(id: nat, attribute: Attribute, queued: bool) {
    /** An ordered (or ACA) task in flight. */
    predicate InOrder() {
      queued && attribute != Simple && attribute != HeadOfQueue
    }

    predicate AtHead() {
      queued && attribute == HeadOfQueue
    }
  }

  datatype Counters = Counters(queued: nat, pending: nat, ordered: nat, head: nat)

  /** What one task adds to the counters. */
  function Add(c: Counters, t: Task): Counters {
    Counters(c.queued + (if t.queued then 1 else 0), c.pending + (if t.queued then 0 else 1),
             c.ordered + (if t.InOrder() then 1 else 0), c.head + (if t.AtHead() then 1 else 0))
  }

  /** The counters as they should be. */
  function Tally(q: seq<Task>): Counters {
    if q == [] then Counters(0, 0, 0, 0) else Add(Tally(q[..|q| - 1]), q[|q| - 1])
  }

  function Without(q: seq<Task>, i: nat): seq<Task>
    requires i < |q|
  {
    q[..i] + q[i + 1..]
  }

  lemma {:induction false} TallyAppend(q: seq<Task>, t: Task)
    ensures Tally(q + [t]) == Add(Tally(q), t)
  {
    assert (q + [t])[..|q|] == q;
  }

  lemma {:induction false} TallyRemove(q: seq<Task>, i: nat)
    requires i < |q|
    ensures Add(Tally(Without(q, i)), q[i]) == Tally(q)
    decreases |q|
  {
    var n := |q| - 1;
    if i == n {
      assert Without(q, i) == q[..n];
    } else {
      assert Without(q, i)[..n - 1] == Without(q[..n], i);
      TallyRemove(q[..n], i);
    }
  }

  /** Dispatching task i. */
  lemma {:induction false} TallyDispatch(q: seq<Task>, i: nat)
    requires i < |q| && !q[i].queued && q[i].attribute != HeadOfQueue
    ensures var t := q[i].(queued := true);
            var c := Tally(q);
            c.pending > 0
            && Tally(q[i := t])
                 == Counters(c.queued + 1, c.pending - 1, c.ordered + (if t.InOrder() then 1 else 0), c.head)
    decreases |q|
  {
    var n := |q| - 1;
    var t := q[i].(queued := true);
    if i == n {
      assert q[i := t][..n] == q[..n];
    } else {
      assert q[i := t][..n] == q[..n][i := t];
      TallyDispatch(q[..n], i);
    }
  }

  lemma {:induction false} TallyPositive(q: seq<Task>, i: nat)
    requires i < |q|
    ensures var c := Tally(q);
            && (q[i].queued ==> c.queued > 0) && (!q[i].queued ==> c.pending > 0)
            && (q[i].InOrder() ==> c.ordered > 0) && (q[i].AtHead() ==> c.head > 0)
  {
    TallyRemove(q, i);
  }

  lemma {:induction false} TallyAllQueued(q: seq<Task>)
    requires Tally(q).pending == 0
    ensures forall i :: 0 <= i < |q| ==> q[i].queued
  {
    forall i | 0 <= i < |q|
      ensures q[i].queued
    {
      TallyPositive(q, i);
    }
  }

  /** What holds of every reachable task set: the oldest task is in flight, an ordered task in flight is the
      oldest, and a head-of-queue task never waits. */
  ghost predicate Fair(q: seq<Task>) {
    && (q != [] ==> q[0].queued)
    && (forall i :: 0 < i < |q| ==> !q[i].InOrder())
    && (forall i :: 0 <= i < |q| && q[i].attribute == HeadOfQueue ==> q[i].queued)
  }

  /** No ordered or head-of-queue task is in flight. */
  ghost predicate NothingHolds(q: seq<Task>) {
    forall i :: 0 <= i < |q| ==> !q[i].InOrder() && !q[i].AtHead()
  }

  /** q' is q with tasks released in arrival order: everything before place c is in flight, everything from c
      on is as it was. */
  ghost predicate ReleasedTo(q: seq<Task>, q': seq<Task>, c: nat) {
    && |q'| == |q| && c <= |q|
    && (forall i :: 0 <= i < c ==> q'[i] == q[i].(queued := true))
    && (forall i :: c <= i < |q| ==> q'[i] == q[i])
  }

  /** The tasks of q before place c that were waiting. */
  function Waiting(q: seq<Task>, c: nat): seq<nat>
    requires c <= |q|
  {
    if c == 0 then [] else Waiting(q, c - 1) + if q[c - 1].queued then [] else [q[c - 1].id]
  }

  /** Task c of q' may not start yet. */
  ghost predicate Blocked(q': seq<Task>, c: nat)
    requires c < |q'|
  {
    match q'[c].attribute
    case Simple => exists i :: 0 <= i < c && q'[i].attribute != Simple
    case HeadOfQueue => true
    case _ => c > 0
  }

  /** A waiting task that may start: it is the oldest, or it and all older ones are simple. */
  ghost predicate MayStart(q: seq<Task>, k: nat)
    requires k < |q|
  {
    k == 0 || forall i :: 0 <= i <= k ==> q[i].attribute == Simple
  }

  class Initiator {
    var queue: seq<Task>
    var counters: Counters

    ghost predicate Valid()
      reads this
    {
      counters == Tally(queue) && Fair(queue)
    }

    constructor ()
      ensures Valid() && queue == []
    {
      queue, counters := [], Counters(0, 0, 0, 0);
    }

    /** istate_queue_cmd. */
    method Queue(id: nat, attribute: Attribute) returns (exec: bool)
      requires Valid()
      modifies this
      ensures Valid()
      ensures queue == old(queue) + [Task(id, attribute, exec)]
      ensures exec <==> match attribute
                        case Simple => NothingHolds(old(queue))
                        case HeadOfQueue => true
                        case _ => old(queue) == []
      ensures old(InTurn(queue)) ==>
                (InTurn(queue) <==> !(attribute == Simple && OrderedWaits(old(queue)) && NothingHolds(old(queue))))
    {
      exec := match attribute
        case Simple => counters.ordered == 0 && counters.head == 0
        case HeadOfQueue => true
        case _ => counters.queued == 0;
      TallyZero(queue);
      TallyAppend(queue, Task(id, attribute, exec));
      if InTurn(queue) {
        OvertakesIff(queue, Task(id, attribute, exec));
      }
      hide InTurn, OrderedWaits;
      counters := Add(counters, Task(id, attribute, exec));
      queue := queue + [Task(id, attribute, exec)];
    }

    /** istate_remove_cmd, up to the removal: the counters give up the task. */
    method Take(i: nat)
      requires Valid() && i < |queue| && queue[i].queued
      modifies this
      ensures queue == Without(old(queue), i) && counters == Tally(queue)
    {
      TallyRemove(queue, i);
      var t := queue[i];
      counters := counters.(queued := counters.queued - 1);
      if t.attribute == HeadOfQueue {
        counters := counters.(head := counters.head - 1);
      } else if t.attribute != Simple {
        counters := counters.(ordered := counters.ordered - 1);
      }
      queue := Without(queue, i);
    }

    /** istate_remove_cmd, the scan: release waiting tasks from the front. */
    method Release() returns (released: seq<nat>, ghost c: nat)
      requires counters == Tally(queue)
      requires forall i :: 0 <= i < |queue| ==>
                             !queue[i].InOrder() && (queue[i].attribute == HeadOfQueue ==> queue[i].queued)
      modifies this
      ensures Valid()
      ensures ReleasedTo(old(queue), queue, c) && released == Waiting(old(queue), c)
      ensures c < |queue| ==> !queue[c].queued && Blocked(queue, c)
      ensures forall k :: 0 <= k < |queue| && !old(queue)[k].queued ==> (queue[k].queued <==> MayStart(old(queue), k))
    {
      hide Tally;
      ghost var q := queue;
      released := [];
      var ordered, queued: nat := 0, 0;
      var k: nat := 0;
      while k < |queue|
        invariant k <= |queue| && ReleasedTo(q, queue, k) && released == Waiting(q, k)
        invariant counters == Tally(queue)
        invariant forall j :: 0 <= j < k && !q[j].queued ==> MayStart(q, j)
        invariant queued > 0 <==> k > 0
        invariant ordered > 0 <==> exists i :: 0 <= i < k && queue[i].attribute != Simple
        invariant forall i :: 0 < i < |queue| ==> !queue[i].InOrder()
      {
        var t := queue[k];
        if !t.queued {
          if t.attribute == Simple {
            if ordered > 0 {
              break;
            }
          } else if t.attribute == HeadOfQueue || queued > 0 {
            break;
          }
          TallyDispatch(queue, k);
          queue := queue[k := t.(queued := true)];
          counters := counters.(queued := counters.queued + 1, pending := counters.pending - 1);
          if t.attribute != Simple {
            counters := counters.(ordered := counters.ordered + 1);
          }
          released := released + [t.id];
        }
        queued := queued + 1;
        if t.attribute != Simple {
          ordered := ordered + 1;
        }
        k := k + 1;
      }
      c := k;
    }

    /** istate_remove_cmd: a task in flight completes. */
    method Remove(i: nat) returns (released: seq<nat>, ghost c: nat)
      requires Valid() && i < |queue| && queue[i].queued
      modifies this
      ensures Valid()
      ensures i > 0 ==> queue == Without(old(queue), i) && released == []
      ensures i == 0 ==> && ReleasedTo(old(queue)[1..], queue, c) && released == Waiting(old(queue)[1..], c)
                         && (c < |queue| ==> !queue[c].queued && Blocked(queue, c))
                         && (forall k :: 0 <= k < |queue| && !old(queue)[1..][k].queued ==>
                               (queue[k].queued <==> MayStart(old(queue)[1..], k)))
      ensures old(InTurn(queue)) ==> InTurn(queue)
    {
      hide Tally, Waiting, InTurn, Blocked, Fair, ReleasedTo, MayStart;
      FairRest(queue, i);
      var pending := counters.pending;
      Take(i);
      if pending == 0 || i != 0 {
        released, c := [], |queue|;
        if i == 0 {
          AllInFlight(old(queue));
        }
        TurnAfter(old(queue), i, queue, 0);
        return;
      }
      released, c := Release();
      TurnAfter(old(queue), 0, queue, c);
    }
  }

  /** What is left behind when a task leaves. */
  lemma {:induction false} FairRest(q: seq<Task>, i: nat)
    requires Fair(q) && i < |q|
    ensures i > 0 ==> Fair(Without(q, i))
    ensures i == 0 ==> Without(q, i) == q[1..]
    ensures ReleasedTo(Without(q, i), Without(q, i), 0)
    ensures i == 0 ==> forall k :: 0 <= k < |q| - 1 ==>
                                     !q[1..][k].InOrder() && (q[1..][k].attribute == HeadOfQueue ==> q[1..][k].queued)
  {
  }

  lemma {:induction false} TurnAfter(q: seq<Task>, i: nat, q': seq<Task>, c: nat)
    requires i < |q| && ReleasedTo(Without(q, i), q', c)
    ensures InTurn(q) ==> InTurn(q')
  {
    if InTurn(q) {
      CompletionKeepsTurn(q, i, q', c);
    }
  }

  // ----- Every task is started, once and in arrival order

  lemma {:induction false} WaitingTail(q: seq<Task>, c: nat)
    requires 0 < c <= |q| && q[0].queued
    ensures Waiting(q, c) == Waiting(q[1..], c - 1)
    decreases c
  {
    if c > 1 {
      WaitingTail(q, c - 1);
    }
  }

  lemma {:induction false} WaitingSplit(q: seq<Task>, q': seq<Task>, c: nat, n: nat)
    requires ReleasedTo(q, q', c) && c <= n <= |q|
    ensures Waiting(q, n) == Waiting(q, c) + Waiting(q', n)
    decreases n
  {
    if n == c {
      NoneWaiting(q', c);
    } else {
      WaitingSplit(q, q', c, n - 1);
    }
  }

  /** When the oldest task completes again and again, the queue drains, and every task that was waiting is
      started on the way: none twice, none before an older one. */
  method Drain(s: Initiator) returns (started: seq<nat>)
    requires s.Valid()
    modifies s
    ensures s.Valid() && s.queue == []
    ensures started == Waiting(old(s.queue), |old(s.queue)|)
  {
    started := [];
    ghost var q := s.queue;
    while s.queue != []
      invariant s.Valid()
      invariant Waiting(q, |q|) == started + Waiting(s.queue, |s.queue|)
      decreases |s.queue|
    {
      WaitingTail(s.queue, |s.queue|);
      ghost var rest := s.queue[1..];
      var released, c := s.Remove(0);
      WaitingSplit(rest, s.queue, c, |rest|);
      started := started + released;
    }
  }

  // ----- Overtaking

  /** No simple task is in flight behind an ordered task that waits. */
  ghost predicate InTurn(q: seq<Task>) {
    forall i, j :: 0 <= i < j < |q| && !q[i].queued && q[i].attribute != Simple && q[j].attribute == Simple ==>
                     !q[j].queued
  }

  ghost predicate OrderedWaits(q: seq<Task>) {
    exists i :: 0 <= i < |q| && !q[i].queued && q[i].attribute != Simple
  }

  /** Exactly which arrivals overtake: a simple task that is started while an ordered one waits. */
  lemma {:induction false} OvertakesIff(q: seq<Task>, t: Task)
    requires InTurn(q)
    ensures InTurn(q + [t]) <==> !(t.attribute == Simple && t.queued && OrderedWaits(q))
  {
    var r := q + [t];
    assert r[|q|] == t && forall i :: 0 <= i < |q| ==> r[i] == q[i];
    if t.attribute == Simple && t.queued && OrderedWaits(q) {
      var i :| 0 <= i < |q| && !q[i].queued && q[i].attribute != Simple;
      assert !r[i].queued && r[|q|].queued;
    }
  }

  /** A completion never makes a task overtake. */
  lemma {:induction false} CompletionKeepsTurn(q: seq<Task>, i: nat, q': seq<Task>, c: nat)
    requires InTurn(q) && i < |q| && ReleasedTo(Without(q, i), q', c)
    ensures InTurn(q')
  {
    var r := Without(q, i);
    assert forall j :: 0 <= j < |r| ==> r[j] == q[if j < i then j else j + 1];
  }

  /** An arriving simple task does overtake: it is held back by tasks in flight, not by tasks that wait. */
  method Overtake() returns (s: Initiator)
    ensures fresh(s) && s.Valid() && !InTurn(s.queue)
    ensures s.queue == [Task(0, Simple, true), Task(1, Ordered, false), Task(2, Simple, true)]
  {
    s := new Initiator();
    var a := s.Queue(0, Simple);
    var b := s.Queue(1, Ordered);
    var c := s.Queue(2, Simple);
    assert s.queue == [Task(0, Simple, true), Task(1, Ordered, false), Task(2, Simple, true)];
    assert !s.queue[1].queued && s.queue[2].queued;
  }

  lemma {:induction false} AllInFlight(q: seq<Task>)
    requires q != [] && Fair(q) && Tally(q).pending == 0
    ensures Fair(q[1..]) && ReleasedTo(q[1..], q[1..], |q| - 1) && Waiting(q[1..], |q| - 1) == []
    ensures forall k :: 0 <= k < |q[1..]| ==> q[1..][k].queued
  {
    TallyAllQueued(q);
    NoneWaiting(q[1..], |q| - 1);
  }

  lemma {:induction false} NoneWaiting(q: seq<Task>, c: nat)
    requires c <= |q| && forall i :: 0 <= i < c ==> q[i].queued
    ensures Waiting(q, c) == []
  {
    if c > 0 {
      NoneWaiting(q, c - 1);
    }
  }

  lemma {:induction false} TallyZero(q: seq<Task>)
    ensures Tally(q).queued == 0 <==> forall i :: 0 <= i < |q| ==> !q[i].queued
    ensures Tally(q).ordered == 0 <==> forall i :: 0 <= i < |q| ==> !q[i].InOrder()
    ensures Tally(q).head == 0 <==> forall i :: 0 <= i < |q| ==> !q[i].AtHead()
    decreases |q|
  {
    if q != [] {
      var n := |q| - 1;
      TallyZero(q[..n]);
      assert q == q[..n] + [q[n]];
    }
  }
}
