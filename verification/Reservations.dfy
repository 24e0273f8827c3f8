/** Persistent reservations of a device (reservation.c).  A nexus stands for the initiator port, target port
    and interface that a command comes through. */
module Reservations {

  datatype Registration = Registration(nexus: nat, key: nat)

  datatype Kind =
    | WriteExclusive
    | ExclusiveAccess
    | WriteExclusiveRo
    | ExclusiveAccessRo
    | WriteExclusiveAr
    | ExclusiveAccessAr

  datatype Holder = None | Held(nexus: nat, key: nat, kind: Kind)

  datatype Status = Good | Conflict | Illegal

  /** An all-registrants reservation is held by every registered nexus. */
  predicate AllRegistrants(h: Holder) {
    h.Held? && (h.kind == WriteExclusiveAr || h.kind == ExclusiveAccessAr)
  }

  predicate Registered(regs: seq<Registration>, nexus: nat) {
    exists i :: 0 <= i < |regs| && regs[i].nexus == nexus
  }

  predicate Has(regs: seq<Registration>, nexus: nat, key: nat) {
    Registration(nexus, key) in regs
  }

  /** is_persistent_reservation_holder. */
  predicate Holds(regs: seq<Registration>, h: Holder, nexus: nat) {
    h.Held? && if AllRegistrants(h) then Registered(regs, nexus) else h.nexus == nexus
  }

  /** One registration for each nexus, none with key 0. */
  ghost predicate WellFormed(regs: seq<Registration>) {
    && (forall i, j :: 0 <= i < j < |regs| ==> regs[i].nexus != regs[j].nexus)
    && (forall i :: 0 <= i < |regs| ==> regs[i].key != 0)
  }

  /** A reservation for one nexus is backed by the registration of that nexus, under the reservation's key. */
  ghost predicate Backed(regs: seq<Registration>, h: Holder) {
    h.Held? && !AllRegistrants(h) ==> Has(regs, h.nexus, h.key)
  }

  function Removed(regs: seq<Registration>, i: nat): seq<Registration>
    requires i < |regs|
  {
    regs[..i] + regs[i + 1..]
  }

  /** What a lost registration does to the reservation (persistent_reservation_remove_registration). */
  function AfterLeaving(h: Holder, regs: seq<Registration>, nexus: nat): Holder {
    if h.None? then None
    else if AllRegistrants(h) then (if regs == [] then None else h)
    else if h.nexus == nexus then None else h
  }

  /** A registration that PREEMPT from a nexus with a service action key takes away. */
  predicate Preempted(r: Registration, ar: bool, nexus: nat, actionKey: nat) {
    r.nexus != nexus && (r.key == actionKey || (ar && actionKey == 0))
  }

  function Survivors(regs: seq<Registration>, ar: bool, nexus: nat, actionKey: nat): seq<Registration> {
    if regs == [] then []
    else (if Preempted(regs[0], ar, nexus, actionKey) then [] else [regs[0]])
           + Survivors(regs[1..], ar, nexus, actionKey)
  }

  lemma {:induction false} SurvivorsStep(regs: seq<Registration>, i: nat, ar: bool, nexus: nat, actionKey: nat)
    requires i < |regs|
    ensures |Removed(regs, i)| == |regs| - 1
    ensures Preempted(regs[i], ar, nexus, actionKey) ==>
              regs[..i] + Survivors(regs[i..], ar, nexus, actionKey)
              == Removed(regs, i)[..i] + Survivors(Removed(regs, i)[i..], ar, nexus, actionKey)
    ensures !Preempted(regs[i], ar, nexus, actionKey) ==>
              regs[..i] + Survivors(regs[i..], ar, nexus, actionKey)
              == regs[..i + 1] + Survivors(regs[i + 1..], ar, nexus, actionKey)
  {
    assert regs[i..][1..] == regs[i + 1..];
    assert Removed(regs, i)[..i] == regs[..i] && Removed(regs, i)[i..] == regs[i + 1..];
  }

  lemma {:induction false} NoSurvivors(ar: bool, nexus: nat, actionKey: nat)
    ensures Survivors([], ar, nexus, actionKey) == []
  {
  }

  lemma {:induction false} RemovedIs(regs: seq<Registration>, i: nat)
    requires i < |regs| && WellFormed(regs)
    ensures WellFormed(Removed(regs, i))
    ensures forall r :: r in Removed(regs, i) <==> r in regs && r.nexus != regs[i].nexus
  {
    var s := Removed(regs, i);
    assert forall j :: 0 <= j < |s| ==> s[j] == regs[if j < i then j else j + 1];
    forall r | r in regs && r.nexus != regs[i].nexus
      ensures r in s
    {
      var j :| 0 <= j < |regs| && regs[j] == r;
      assert s[if j < i then j else j - 1] == r;
    }
  }

  /** PREEMPT keeps exactly the registrations that it should, in order. */
  lemma {:induction false} SurvivorsAre(regs: seq<Registration>, ar: bool, nexus: nat, actionKey: nat)
    ensures forall r :: r in Survivors(regs, ar, nexus, actionKey) <==> r in regs && !Preempted(r, ar, nexus, actionKey)
    ensures WellFormed(regs) ==> WellFormed(Survivors(regs, ar, nexus, actionKey))
    decreases |regs|
  {
    if regs != [] {
      SurvivorsAre(regs[1..], ar, nexus, actionKey);
      var rest := Survivors(regs[1..], ar, nexus, actionKey);
      assert forall r :: r in regs <==> r == regs[0] || r in regs[1..];
      if WellFormed(regs) {
        assert forall r :: r in regs[1..] ==> r.nexus != regs[0].nexus;
        forall j | 0 <= j < |rest|
          ensures rest[j].nexus != regs[0].nexus
        {
          assert rest[j] in rest;
        }
      }
    }
  }

  class Device {
    var regs: seq<Registration>
    var holder: Holder
    var generation: nat

    /** Holds after every command. */
    ghost predicate Valid()
      reads this
    {
      && WellFormed(regs)
      && (AllRegistrants(holder) ==> regs != [])
    }

    constructor ()
      ensures Valid() && regs == [] && holder == None && Backed(regs, holder)
    {
      regs, holder, generation := [], None, 0;
    }

    method Find(nexus: nat) returns (i: nat)
      ensures i <= |regs|
      ensures i < |regs| ==> regs[i].nexus == nexus
      ensures i == |regs| <==> !Registered(regs, nexus)
    {
      i := 0;
      while i < |regs| && regs[i].nexus != nexus
        invariant i <= |regs|
        invariant forall j :: 0 <= j < i ==> regs[j].nexus != nexus
      {
        i := i + 1;
      }
    }

    /** The part that REGISTER and REGISTER AND IGNORE share: a registered nexus changes its key or leaves. */
    method Rekey(i: nat, newKey: nat)
      requires Valid() && i < |regs|
      modifies this
      ensures Valid() && generation == old(generation) + 1
      ensures newKey == 0 ==> regs == Removed(old(regs), i)
      ensures newKey == 0 ==>
                holder == if || old(holder).None?
                             || (old(holder).kind in {WriteExclusiveAr, ExclusiveAccessAr} && regs != [])
                             || (old(holder).kind !in {WriteExclusiveAr, ExclusiveAccessAr}
                                 && old(holder).nexus != old(regs)[i].nexus)
                          then old(holder) else None
      ensures newKey != 0 ==> regs == old(regs)[i := Registration(old(regs)[i].nexus, newKey)] && holder == old(holder)
      ensures old(Backed(regs, holder)) ==>
                (Backed(regs, holder) <==> !(newKey != 0 && old(holder).Held? && !AllRegistrants(old(holder))
                                             && old(holder).nexus == old(regs)[i].nexus && newKey != old(holder).key))
    {
      var nexus := regs[i].nexus;
      if newKey == 0 {
        RemovedIs(regs, i);
        regs := Removed(regs, i);
        holder := AfterLeaving(holder, regs, nexus);
      } else {
        RekeyedIs(regs, i, newKey);
        regs := regs[i := Registration(nexus, newKey)];
      }
      generation := generation + 1;
    }

    /** REGISTER.  A registration is found by its nexus; prevKey must then be its key. */
    method Register(nexus: nat, prevKey: nat, newKey: nat) returns (status: Status)
      requires Valid()
      modifies this
      ensures Valid()
      ensures status == if Registered(old(regs), nexus) then (if Has(old(regs), nexus, prevKey) then Good else Conflict)
                        else if prevKey == 0 then Good else Conflict
      ensures status != Good ==> regs == old(regs) && holder == old(holder) && generation == old(generation)
      ensures status == Good ==> generation == old(generation) + 1
      ensures status == Good ==>
                forall r :: r in regs <==> if r.nexus == nexus then newKey != 0 && r.key == newKey else r in old(regs)
      ensures holder == if || status != Good || newKey != 0 || !Registered(old(regs), nexus) || old(holder).None?
                           || (old(holder).kind in {WriteExclusiveAr, ExclusiveAccessAr} && regs != [])
                           || (old(holder).kind !in {WriteExclusiveAr, ExclusiveAccessAr} && old(holder).nexus != nexus)
                        then old(holder) else None
      ensures old(Backed(regs, holder)) ==>
                (Backed(regs, holder)
                 <==> !(status == Good && newKey != 0 && old(holder).Held? && !AllRegistrants(old(holder))
                                             && old(holder).nexus == nexus && newKey != old(holder).key))
    {
      var i := Find(nexus);
      if i < |regs| {
        KeyOf(regs, i, prevKey);
        if regs[i].key != prevKey {
          return Conflict;
        }
        if newKey == 0 {
          RemovedIs(regs, i);
        } else {
          RekeyedIs(regs, i, newKey);
        }
        Rekey(i, newKey);
        return Good;
      }
      if prevKey != 0 {
        return Conflict;
      }
      if newKey != 0 {
        regs := [Registration(nexus, newKey)] + regs;
      }
      generation := generation + 1;
      return Good;
    }

    /** REGISTER AND IGNORE EXISTING KEY. */
    method RegisterAndIgnore(nexus: nat, newKey: nat)
      requires Valid()
      modifies this
      ensures Valid() && generation == old(generation) + 1
      ensures forall r :: r in regs <==> if r.nexus == nexus then newKey != 0 && r.key == newKey else r in old(regs)
      ensures holder == if || newKey != 0 || !Registered(old(regs), nexus) || old(holder).None?
                           || (old(holder).kind in {WriteExclusiveAr, ExclusiveAccessAr} && regs != [])
                           || (old(holder).kind !in {WriteExclusiveAr, ExclusiveAccessAr} && old(holder).nexus != nexus)
                        then old(holder) else None
      ensures old(Backed(regs, holder)) ==>
                (Backed(regs, holder) <==> !(newKey != 0 && old(holder).Held? && !AllRegistrants(old(holder))
                                             && old(holder).nexus == nexus && newKey != old(holder).key))
    {
      var i := Find(nexus);
      if i < |regs| {
        if newKey == 0 {
          RemovedIs(regs, i);
        } else {
          RekeyedIs(regs, i, newKey);
        }
        Rekey(i, newKey);
        return;
      }
      if newKey != 0 {
        regs := [Registration(nexus, newKey)] + regs;
      }
      generation := generation + 1;
    }

    /** RESERVE. */
    method Reserve(nexus: nat, key: nat, kind: Kind) returns (status: Status)
      requires Valid()
      modifies `holder
      ensures Valid()
      ensures status == Good <==>
                (Has(regs, nexus, key)
                 && (old(holder).None?
                     || (old(holder).key == key && old(holder).kind == kind
                         && (old(holder).nexus == nexus || kind in {WriteExclusiveAr, ExclusiveAccessAr}))))
      ensures status != Good ==> status == Conflict
      ensures holder == if status == Good && old(holder).None? then Held(nexus, key, kind) else old(holder)
      ensures old(Backed(regs, holder)) ==> Backed(regs, holder)
    {
      if !Has(regs, nexus, key) {
        return Conflict;
      }
      if holder.Held? && !Holds(regs, holder, nexus) {
        return Conflict;
      }
      if holder.Held? && (holder.key != key || holder.kind != kind) {
        return Conflict;
      }
      if holder.None? {
        holder := Held(nexus, key, kind);
      }
      return Good;
    }

    /** RELEASE. */
    method Release(nexus: nat, key: nat, kind: Kind, scope: nat) returns (status: Status)
      requires Valid()
      modifies `holder
      ensures Valid()
      ensures holder == old(holder) || holder == None
      ensures old(holder).Held? ==>
                (holder == None <==> Has(regs, nexus, key) && scope == 0 && old(holder).kind == kind
                                     && (AllRegistrants(old(holder))
                                         || (old(holder).nexus == nexus && old(holder).key == key)))
      ensures status == if old(holder).None? then Good
                        else if !Has(regs, nexus, key) then Conflict
                        else if !AllRegistrants(old(holder)) && old(holder).nexus != nexus then Good
                        else if !AllRegistrants(old(holder)) && old(holder).key != key then Conflict
                        else if scope != 0 || old(holder).kind != kind then Illegal
                        else Good
      ensures old(Backed(regs, holder)) ==> Backed(regs, holder)
    {
      if holder.None? {
        return Good;
      }
      if !Has(regs, nexus, key) {
        return Conflict;
      }
      if !AllRegistrants(holder) {
        if holder.nexus != nexus {
          return Good;
        }
        if holder.key != key {
          return Conflict;
        }
      }
      if scope != 0 || holder.kind != kind {
        return Illegal;
      }
      holder := None;
      return Good;
    }

    /** CLEAR. */
    method Clear(nexus: nat, key: nat) returns (status: Status)
      requires Valid()
      modifies this
      ensures Valid()
      ensures status == if Has(old(regs), nexus, key) then Good else Conflict
      ensures if status == Good then regs == [] && holder == None && generation == old(generation) + 1
              else regs == old(regs) && holder == old(holder) && generation == old(generation)
      ensures old(Backed(regs, holder)) ==> Backed(regs, holder)
    {
      if !Has(regs, nexus, key) {
        return Conflict;
      }
      regs, holder, generation := [], None, generation + 1;
      return Good;
    }

    /** The removal loop of PREEMPT. */
    method TakeAway(ar: bool, nexus: nat, actionKey: nat)
      modifies `regs
      ensures regs == Survivors(old(regs), ar, nexus, actionKey)
    {
      var i := 0;
      assert regs[0..] == regs;
      hide Survivors, Removed, Preempted;
      while i < |regs|
        invariant 0 <= i <= |regs|
        invariant Survivors(old(regs), ar, nexus, actionKey) == regs[..i] + Survivors(regs[i..], ar, nexus, actionKey)
        decreases |regs| - i
      {
        SurvivorsStep(regs, i, ar, nexus, actionKey);
        if Preempted(regs[i], ar, nexus, actionKey) {
          regs := Removed(regs, i);
        } else {
          i := i + 1;
        }
      }
      assert regs[..i] == regs && regs[i..] == [];
      NoSurvivors(ar, nexus, actionKey);
    }

    /** PREEMPT and PREEMPT AND ABORT. */
    method Preempt(nexus: nat, key: nat, actionKey: nat, kind: Kind) returns (status: Status)
      requires Valid()
      modifies this
      ensures Valid()
      ensures status == if !Has(old(regs), nexus, key) then Conflict
                        else if old(holder).Held? && old(holder).key != key then Conflict
                        else if old(holder).Held? && !AllRegistrants(old(holder)) && actionKey == 0 then Illegal
                        else Good
      ensures status != Good ==> regs == old(regs) && holder == old(holder) && generation == old(generation)
      ensures status == Good ==> generation == old(generation) + 1
      ensures status == Good ==>
                forall r :: r in regs
                            <==> r in old(regs)
                                 && (r.nexus == nexus
                                     || (r.key != actionKey && !(actionKey == 0 && AllRegistrants(old(holder)))))
      ensures status == Good ==>
                holder == if old(holder).Held?
                             && (if AllRegistrants(old(holder)) then actionKey == 0 else old(holder).key == actionKey)
                          then Held(nexus, key, kind) else old(holder)
      ensures old(Backed(regs, holder)) ==> Backed(regs, holder)
    {
      if !Has(regs, nexus, key) {
        return Conflict;
      }
      if holder.Held? && holder.key != key {
        return Conflict;
      }
      var ar := AllRegistrants(holder);
      if !ar && holder.Held? && actionKey == 0 {
        return Illegal;
      }
      SurvivorsAre(regs, ar, nexus, actionKey);
      TakeAway(ar, nexus, actionKey);
      assert Registration(nexus, key) in regs;
      if (holder.Held? && !ar && holder.key == actionKey) || (ar && actionKey == 0) {
        holder := Held(nexus, key, kind);
      }
      generation := generation + 1;
      return Good;
    }
  }

  // ----- Runs

  datatype Command =
    | Register(nexus: nat, prevKey: nat, newKey: nat)
    | RegisterAndIgnore(nexus: nat, newKey: nat)
    | Reserve(nexus: nat, key: nat, kind: Kind)
    | Release(nexus: nat, key: nat, kind: Kind, scope: nat)
    | Clear(nexus: nat, key: nat)
    | Preempt(nexus: nat, key: nat, actionKey: nat, kind: Kind)

  /** One command, of any kind and from any nexus.  Only a CLEAR or PREEMPT, a RELEASE of one who holds it, or the
      leaving of its holder, which for an all-registrants reservation is the last registrant, ends a reservation or
      passes it on. */
  method Execute(d: Device, cmd: Command) returns (status: Status)
    requires d.Valid()
    modifies d
    ensures d.Valid()
    ensures old(d.holder).Held? && d.holder != old(d.holder) ==>
              match cmd
              case Clear(nexus, key) => Registration(nexus, key) in old(d.regs)
              case Preempt(nexus, key, _, _) => Registration(nexus, key) in old(d.regs) && old(d.holder).key == key
              case Release(nexus, key, kind, _) =>
                Registration(nexus, key) in old(d.regs) && kind == old(d.holder).kind
                && (nexus == old(d.holder).nexus || kind in {WriteExclusiveAr, ExclusiveAccessAr})
              case Register(nexus, _, newKey) => newKey == 0 && Ends(old(d.holder), nexus, d.regs)
              case RegisterAndIgnore(nexus, newKey) => newKey == 0 && Ends(old(d.holder), nexus, d.regs)
              case Reserve(_, _, _) => false
    ensures cmd.Register? || cmd.RegisterAndIgnore? || cmd.Reserve? || cmd.Release? ==>
              forall r :: r in old(d.regs) && r.nexus != cmd.nexus ==> r in d.regs
  {
    match cmd
    case Register(nexus, prevKey, newKey) => status := d.Register(nexus, prevKey, newKey);
    case RegisterAndIgnore(nexus, newKey) =>
      d.RegisterAndIgnore(nexus, newKey);
      status := Good;
    case Reserve(nexus, key, kind) => status := d.Reserve(nexus, key, kind);
    case Release(nexus, key, kind, scope) => status := d.Release(nexus, key, kind, scope);
    case Clear(nexus, key) => status := d.Clear(nexus, key);
    case Preempt(nexus, key, actionKey, kind) => status := d.Preempt(nexus, key, actionKey, kind);
  }

  /** With the registrations that are left, the leaving of a nexus ends the reservation. */
  ghost predicate Ends(h: Holder, nexus: nat, left: seq<Registration>)
    requires h.Held?
  {
    if h.kind in {WriteExclusiveAr, ExclusiveAccessAr} then left == [] else h.nexus == nexus
  }

  /** Over every run of commands of others, none of them CLEAR or PREEMPT, a reservation stays: that of one nexus if
      the nexus gives no command, that of all registrants if nobody releases it and some registrant gives none. */
  method Run(d: Device, cmds: seq<Command>, stays: nat) returns (statuses: seq<Status>)
    requires d.Valid()
    modifies d
    ensures d.Valid() && |statuses| == |cmds|
    ensures && old(d.holder).Held? && (forall i :: 0 <= i < |cmds| ==> !cmds[i].Clear? && !cmds[i].Preempt?)
            && (forall i :: 0 <= i < |cmds| ==> cmds[i].nexus != stays)
            && (if old(d.holder).kind in {WriteExclusiveAr, ExclusiveAccessAr}
                then Registered(old(d.regs), stays) && forall i :: 0 <= i < |cmds| ==> !cmds[i].Release?
                else old(d.holder).nexus == stays)
            ==> d.holder == old(d.holder)
  {
    statuses := [];
    ghost var alone := && old(d.holder).Held?
                       && (forall i :: 0 <= i < |cmds| ==> !cmds[i].Clear? && !cmds[i].Preempt?)
                       && (forall i :: 0 <= i < |cmds| ==> cmds[i].nexus != stays)
                       && (if old(d.holder).kind in {WriteExclusiveAr, ExclusiveAccessAr}
                           then Registered(old(d.regs), stays) && forall i :: 0 <= i < |cmds| ==> !cmds[i].Release?
                           else old(d.holder).nexus == stays);
    for k := 0 to |cmds|
      invariant d.Valid() && |statuses| == k
      invariant alone ==> d.holder == old(d.holder)
      invariant alone && old(d.holder).kind in {WriteExclusiveAr, ExclusiveAccessAr} ==> Registered(d.regs, stays)
    {
      ghost var before := d.regs;
      var status := Execute(d, cmds[k]);
      statuses := statuses + [status];
      if alone && Registered(before, stays) {
        ghost var i :| 0 <= i < |before| && before[i].nexus == stays;
        assert before[i] in d.regs;
      }
    }
  }

  /** A holder that registers another key can lose its registration and keep the reservation, which it can
      then neither use nor release. */
  method HolderLost() returns (d: Device)
    ensures fresh(d) && d.Valid()
    ensures d.holder == Held(0, 1, WriteExclusive) && !Registered(d.regs, 0) && !Backed(d.regs, d.holder)
  {
    d := new Device();
    var s := d.Register(0, 0, 1);
    assert Registration(0, 1) in d.regs;
    s := d.Register(1, 0, 1);
    s := d.Reserve(0, 1, WriteExclusive);
    s := d.Register(0, 1, 2);
    assert Registration(0, 2) in d.regs && Registration(1, 1) in d.regs;
    s := d.Preempt(1, 1, 2, WriteExclusive);
    assert forall r :: r in d.regs ==> r.nexus != 0;
  }

  lemma {:induction false} RekeyedIs(regs: seq<Registration>, i: nat, key: nat)
    requires i < |regs| && WellFormed(regs) && key != 0
    ensures var s := regs[i := Registration(regs[i].nexus, key)];
            WellFormed(s) && forall r :: r in s <==> if r.nexus == regs[i].nexus then r.key == key else r in regs
  {
    var s := regs[i := Registration(regs[i].nexus, key)];
    assert s[i] == Registration(regs[i].nexus, key);
    forall r | r in regs && r.nexus != regs[i].nexus
      ensures r in s
    {
      var j :| 0 <= j < |regs| && regs[j] == r;
      assert s[j] == r;
    }
  }

  lemma {:induction false} KeyOf(regs: seq<Registration>, i: nat, key: nat)
    requires i < |regs| && WellFormed(regs)
    ensures Has(regs, regs[i].nexus, key) <==> regs[i].key == key
  {
    assert regs[i] == Registration(regs[i].nexus, regs[i].key);
  }
}
