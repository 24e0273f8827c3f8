/** What lzf_compress makes of an input, step by step: the table it looks positions up in, the matches it takes, the
    items it writes, and the checks on the way. */
module LzfParse {
  import opened Bytes
  import opened LzfFormat

  const HSIZE := 8192
  const U32 := 0x1_0000_0000

  function First(src: seq<byte>, p: nat): nat
    requires p + 2 <= |src|
  {
    256 * src[p] as int + src[p + 1] as int
  }

  function Next(v: nat, src: seq<byte>, p: nat): nat
    requires p + 3 <= |src|
  {
    (256 * v + src[p + 2] as int) % U32
  }

  function Index(h: nat): (i: nat)
    ensures i < HSIZE
  {
    (h / 2048 - 5 * h) % HSIZE
  }

  /** A proposal of the table that is used: not the first byte, near enough, and the same three bytes. */
  ghost predicate Proposed(src: seq<byte>, ip: nat, ref: nat)
    requires ip + 3 <= |src|
  {
    0 < ref < ip <= ref + MAX_OFF && Periodic(src, ip, ip + 3, ip - ref)
  }

  /** Where counting a match stops at the latest: 264 bytes, or two bytes before the end of the input, but not before
      the unrolled steps are through. */
  function Most(src: seq<byte>, ip: nat): (n: nat)
    requires ip + 3 <= |src|
    ensures 3 <= n <= MAX_REF && ip + n <= |src|
  {
    var most := |src| - ip - 2;
    if most > MAX_REF then MAX_REF
    else if most >= 19 then most
    else if most > 16 then 19
    else if most > 3 then most
    else 3
  }

  /** The bytes that agree, up to there. */
  function LengthOf(src: seq<byte>, ip: nat, d: nat, len: nat): (n: nat)
    requires 1 <= d <= ip && ip + 3 <= |src| && len <= Most(src, ip) && Periodic(src, ip, ip + len, d)
    ensures len <= n <= Most(src, ip) && Periodic(src, ip, ip + n, d)
    ensures n == Most(src, ip) || src[ip + n] != src[ip + n - d]
    decreases Most(src, ip) - len
  {
    if len < Most(src, ip) && src[ip + len] == src[ip + len - d] then LengthOf(src, ip, d, len + 1) else len
  }

  lemma {:induction false} IsLength(src: seq<byte>, ip: nat, d: nat, n: nat)
    requires 1 <= d <= ip && ip + 3 <= |src| && Periodic(src, ip, ip + 3, d)
    requires 3 <= n <= Most(src, ip) && Periodic(src, ip, ip + n, d)
    requires n == Most(src, ip) || src[ip + n] != src[ip + n - d]
    ensures LengthOf(src, ip, d, 3) == n
  {
    hide LengthOf, Most;
  }

  // ----- Items

  ghost predicate AllWellFormed(xs: seq<Item>) {
    forall i :: 0 <= i < |xs| ==> WellFormed(xs[i])
  }

  ghost function Written(xs: seq<Item>): seq<byte>
    requires AllWellFormed(xs)
  {
    if xs == [] then [] else Written(xs[..|xs| - 1]) + Serialize(xs[|xs| - 1])
  }

  lemma {:induction false} WrittenIsSerialized(xs: seq<Item>)
    requires Valid(xs)
    ensures AllWellFormed(xs) && Written(xs) == SerializeAll(xs)
    decreases |xs|
  {
    hide Serialize;
    if xs != [] {
      WrittenIsSerialized(xs[..|xs| - 1]);
    }
  }

  // ----- The machine

  /** Where the encoder stands: the table, the hash so far, the position, the finished items, and how many literals
      before the position are in none of them yet. */
  datatype State = State(table: seq<nat>, hval: nat, ip: nat, items: seq<Item>, lit: nat)

  ghost predicate Good(src: seq<byte>, s: State) {
    |s.table| == HSIZE && s.lit <= s.ip <= |src| && s.lit < MAX_LIT && AllWellFormed(s.items)
  }

  /** The open run of literals becomes an item, if there is one. */
  function Closed(src: seq<byte>, ip: nat, items: seq<Item>, lit: nat): (xs: seq<Item>)
    requires lit <= ip <= |src|
  {
    if lit == 0 then items else items + [Run(src[ip - lit..ip])]
  }

  lemma {:induction false} ClosedIsWellFormed(src: seq<byte>, ip: nat, items: seq<Item>, lit: nat)
    requires lit <= ip <= |src| && lit <= MAX_LIT && AllWellFormed(items)
    ensures AllWellFormed(Closed(src, ip, items, lit))
  {
  }

  /** One more literal; a full run is closed at once. */
  function Literal(src: seq<byte>, ip: nat, items: seq<Item>, lit: nat): (seq<Item>, nat)
    requires lit <= ip < |src|
  {
    if lit + 1 == MAX_LIT then (Closed(src, ip + 1, items, MAX_LIT), 0) else (items, lit + 1)
  }

  /** A back reference at distance off + 1. */
  function Reference(off: nat, len: nat): (x: Item)
    requires off < MAX_OFF && 3 <= len <= MAX_REF
    ensures WellFormed(x) && x.Ref? && x.Distance() == off + 1 && x.n == len
  {
    Ref(off / 256, off % 256, len)
  }

  /** The table when the two positions before the end of a match have been entered. */
  function Entered(src: seq<byte>, table: seq<nat>, ip: nat): (r: seq<nat>)
    requires |table| == HSIZE && 2 <= ip && ip + 2 < |src|
    ensures |r| == HSIZE
  {
    var h := Next(First(src, ip - 2), src, ip - 2);
    table[Index(h) := ip - 2][Index(Next(h, src, ip - 1)) := ip - 1]
  }

  /** The state behind a match that ends at `end`. */
  function Behind(src: seq<byte>, s: State, items: seq<Item>, end: nat): State
    requires |s.table| == HSIZE && s.ip + 2 < |src| && 2 <= end <= |src|
  {
    var h := Next(s.hval, src, s.ip);
    var table := s.table[Index(h) := s.ip];
    if end + 2 >= |src| then State(table, h, end, items, 0)
    else State(Entered(src, table, end), Next(Next(First(src, end - 2), src, end - 2), src, end - 1), end, items, 0)
  }

  /** A round that takes a match: the run of literals is closed, the reference follows. */
  ghost function TakeMatch(src: seq<byte>, s: State, ref: nat): (r: State)
    requires Good(src, s) && s.ip + 2 < |src| && Proposed(src, s.ip, ref)
    ensures Good(src, r) && s.ip < r.ip
  {
    var len := LengthOf(src, s.ip, s.ip - ref, 3);
    ClosedIsWellFormed(src, s.ip, s.items, s.lit);
    Behind(src, s, Closed(src, s.ip, s.items, s.lit) + [Reference(s.ip - ref - 1, len)], s.ip + len)
  }

  /** A round that takes a literal. */
  ghost function TakeLiteral(src: seq<byte>, s: State): (r: State)
    requires Good(src, s) && s.ip + 2 < |src|
    ensures Good(src, r) && s.ip < r.ip
  {
    var h := Next(s.hval, src, s.ip);
    ClosedIsWellFormed(src, s.ip + 1, s.items, s.lit + 1);
    var (items, lit) := Literal(src, s.ip, s.items, s.lit);
    State(s.table[Index(h) := s.ip], h, s.ip + 1, items, lit)
  }

  /** One round of the main loop. */
  ghost function Advance(src: seq<byte>, s: State): (r: State)
    requires Good(src, s) && s.ip + 2 < |src|
    ensures Good(src, r) && s.ip < r.ip
  {
    var ref := s.table[Index(Next(s.hval, src, s.ip))];
    if Proposed(src, s.ip, ref) then TakeMatch(src, s, ref) else TakeLiteral(src, s)
  }

  /** The check of that round, with so much room for output. */
  ghost predicate Allowed(src: seq<byte>, s: State, room: nat)
    requires Good(src, s) && s.ip + 2 < |src|
  {
    var head := |Written(s.items)|;
    if Proposed(src, s.ip, s.table[Index(Next(s.hval, src, s.ip))]) then
      head + 1 + s.lit - (if s.lit == 0 then 1 else 0) + 3 + 1 < room
    else head + 1 + s.lit < room
  }

  /** The state when the main loop is through. */
  ghost function Through(src: seq<byte>, s: State): (r: State)
    requires Good(src, s)
    ensures Good(src, r) && r.ip + 2 >= |src|
    decreases |src| - s.ip
  {
    if s.ip + 2 >= |src| then s else Through(src, Advance(src, s))
  }

  /** Every check passes, the last one included. */
  ghost predicate Admitted(src: seq<byte>, s: State, room: nat)
    requires Good(src, s)
    decreases |src| - s.ip
  {
    if s.ip + 2 >= |src| then |Written(s.items)| + 1 + s.lit + 3 <= room
    else Allowed(src, s, room) && Admitted(src, Advance(src, s), room)
  }

  /** The items once the literals that are left are through. */
  function Rest(src: seq<byte>, ip: nat, items: seq<Item>, lit: nat): seq<Item>
    requires lit <= ip <= |src|
    decreases |src| - ip
  {
    if ip == |src| then Closed(src, ip, items, lit)
    else
      var (items', lit') := Literal(src, ip, items, lit);
      Rest(src, ip + 1, items', lit')
  }

  lemma {:induction false} RestIsWellFormed(src: seq<byte>, ip: nat, items: seq<Item>, lit: nat)
    requires lit <= ip <= |src| && lit < MAX_LIT && AllWellFormed(items)
    ensures AllWellFormed(Rest(src, ip, items, lit))
    decreases |src| - ip
  {
    hide Closed;
    ClosedIsWellFormed(src, ip, items, lit);
    if ip < |src| {
      ClosedIsWellFormed(src, ip + 1, items, lit + 1);
      var (items', lit') := Literal(src, ip, items, lit);
      RestIsWellFormed(src, ip + 1, items', lit');
    }
  }

  /** The state to begin with. */
  function Start(src: seq<byte>, table: seq<nat>): State {
    State(table, if |src| >= 2 then First(src, 0) else 0, 0, [], 0)
  }

  /** The bytes that are written for an input, from a table. */
  ghost function Block(src: seq<byte>, table: seq<nat>): seq<byte>
    requires |table| == HSIZE
  {
    var s := Through(src, Start(src, table));
    RestIsWellFormed(src, s.ip, s.items, s.lit);
    Written(Rest(src, s.ip, s.items, s.lit))
  }

  /** A round moves on by one byte exactly when the table proposes nothing that can be used; otherwise by a match that
      cannot be longer, and to the byte where it ends. */
  lemma {:induction false} AdvanceIsGreedy(src: seq<byte>, s: State)
    requires Good(src, s) && s.ip + 2 < |src|
    ensures var ref := s.table[Index(Next(s.hval, src, s.ip))];
            var r := Advance(src, s);
            if !(0 < ref < s.ip <= ref + 8192 && src[ref..ref + 3] == src[s.ip..s.ip + 3]) then r.ip == s.ip + 1
            else
              && s.ip + 3 <= r.ip <= s.ip + 264 && (forall k :: s.ip <= k < r.ip ==> src[k] == src[k - (s.ip - ref)])
              && (r.ip == s.ip + 264 || r.ip + 2 >= |src| || src[r.ip] != src[r.ip - (s.ip - ref)])
  {
    hide Index, Next, First, Entered, LengthOf, Closed, AllWellFormed, Reference, Literal;
    var ref := s.table[Index(Next(s.hval, src, s.ip))];
    if 0 < ref < s.ip {
      ThreeBytes(src, s.ip, ref);
    }
  }

  lemma {:induction false} ThreeBytes(src: seq<byte>, ip: nat, ref: nat)
    requires ref < ip && ip + 3 <= |src|
    ensures Periodic(src, ip, ip + 3, ip - ref) <==> src[ref..ref + 3] == src[ip..ip + 3]
  {
    var a, b := src[ref..ref + 3], src[ip..ip + 3];
    if a == b {
      assert a[0] == b[0] && a[1] == b[1] && a[2] == b[2];
    }
  }
}
