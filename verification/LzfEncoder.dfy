/** lzf_compress (VERY_FAST, HLOG 13, offsets in the table, table not cleared).  Whatever the table
    holds to begin with, the bytes written decode to the input. */
module LzfEncoder {
  import opened Bytes
  import opened LzfFormat
  import opened LzfParse

  /** The table's proposal is used: near enough, not the first byte, and the same three bytes. */
  predicate IsMatch(src: seq<byte>, ip: nat, ref: nat)
    requires ip + 2 < |src|
    ensures IsMatch(src, ip, ref) <==> Proposed(src, ip, ref)
  {
    && 0 < ref < ip && ip - ref - 1 < MAX_OFF
    && src[ref + 2] == src[ip + 2] && src[ref] == src[ip] && src[ref + 1] == src[ip + 1]
  }

  /** Length of the match at distance `d`: sixteen unrolled steps, then a loop up to the limit. */
  method MatchLength(src: seq<byte>, ip: nat, d: nat) returns (len: nat)
    requires 1 <= d <= ip && ip + 3 <= |src| && Periodic(src, ip, ip + 3, d)
    ensures 3 <= len <= MAX_REF && ip + len <= |src| && Periodic(src, ip, ip + len, d)
    ensures len == MAX_REF || ip + len + 2 >= |src| || src[ip + len] != src[ip + len - d]
    ensures len <= Most(src, ip) && (len == Most(src, ip) || src[ip + len] != src[ip + len - d])
  {
    len := 2;
    var most := |src| - ip - len;
    most := if most > MAX_REF then MAX_REF else most;
    if most > 16 {
      while len < 18
        invariant 2 <= len <= 18 && Periodic(src, ip, ip + len + 1, d)
      {
        len := len + 1;
        if src[ip + len - d] != src[ip + len] {
          return;
        }
      }
    }
    len := len + 1;
    while len < most && src[ip + len - d] == src[ip + len]
      invariant 3 <= len <= Most(src, ip) && ip + len <= |src| && Periodic(src, ip, ip + len, d)
    {
      len := len + 1;
    }
  }

  // ----- The output so far: finished items, then an open run of `lit` literals

  /** dst[..head] serializes items that stand for src[..ip - lit]; the header of the open run is at
      `head`, not written yet, and its literals follow. */
  ghost predicate Open(dst: array<byte>, head: nat, lit: nat, xs: seq<Item>, src: seq<byte>, ip: nat)
    reads dst
  {
    && lit <= ip <= |src| && lit <= MAX_LIT && head <= dst.Length
    && Valid(xs) && Text(xs) == src[..ip - lit] && dst[..head] == SerializeAll(xs)
    && (lit > 0 ==> head + 1 + lit <= dst.Length && dst[head + 1..head + 1 + lit] == src[ip - lit..ip])
  }

  /** One more literal in the open run. */
  method PutLiteral(dst: array<byte>, head: nat, lit: nat, src: seq<byte>, ip: nat, ghost xs: seq<Item>)
    requires Open(dst, head, lit, xs, src, ip) && lit < MAX_LIT && ip < |src|
    requires head + 1 + lit < dst.Length
    modifies dst
    ensures Open(dst, head, lit + 1, xs, src, ip + 1)
  {
    hide Valid, Text, SerializeAll;
    ghost var run := dst[head + 1..head + 1 + lit];
    assert lit == 0 ==> run == [] == src[ip..ip];
    dst[head + 1 + lit] := src[ip];
    assert dst[..head] == old(dst[..head]);
    assert dst[head + 1..head + 1 + lit] == run;
    assert dst[head + 1..head + 1 + lit + 1] == dst[head + 1..head + 1 + lit] + [dst[head + 1 + lit]];
    assert src[ip - lit..ip + 1] == src[ip - lit..ip] + [src[ip]];
  }

  /** Writes the header of the open run, which closes it; an empty run leaves no item. */
  method CloseRun(dst: array<byte>, head: nat, lit: nat, src: seq<byte>, ip: nat, ghost xs: seq<Item>)
      returns (op: nat, ghost ys: seq<Item>)
    requires Open(dst, head, lit, xs, src, ip) && head < dst.Length
    modifies dst
    ensures op == head + 1 + lit - (if lit == 0 then 1 else 0)
    ensures Open(dst, op, 0, ys, src, ip) && lit <= ip <= |src| && ys == Closed(src, ip, xs, lit)
  {
    hide Valid;
    hide Text;
    hide SerializeAll;
    dst[head] := if lit == 0 then 255 else lit - 1;
    assert dst[..head] == old(dst[..head]);
    op, ys := head, xs;
    if lit > 0 {
      ghost var x := Run(src[ip - lit..ip]);
      op, ys := head + 1 + lit, xs + [x];
      assert dst[head + 1..op] == old(dst[head + 1..op]);
      assert dst[..op] == dst[..head] + ([dst[head]] + dst[head + 1..op]);
      RunExtends(xs, src, ip - lit, ip);
    }
  }

  lemma {:induction false} RunExtends(xs: seq<Item>, src: seq<byte>, from: nat, ip: nat)
    requires Valid(xs) && from < ip <= |src| && ip - from <= MAX_LIT && Text(xs) == src[..from]
    ensures var x := Run(src[from..ip]);
            && Valid(xs + [x]) && Text(xs + [x]) == src[..ip]
            && SerializeAll(xs + [x]) == SerializeAll(xs) + ([ip - from - 1] + src[from..ip])
  {
    hide Valid;
    hide Text;
    hide SerializeAll;
    Append(xs, Run(src[from..ip]));
    assert src[..from] + src[from..ip] == src[..ip];
  }

  /** Writes a back reference of `len` bytes at distance off + 1. */
  method PutRef(dst: array<byte>, from: nat, off: nat, len: nat, src: seq<byte>, ip: nat, ghost xs: seq<Item>)
      returns (op: nat, ghost ys: seq<Item>)
    requires Open(dst, from, 0, xs, src, ip) && from + 3 <= dst.Length
    requires off < MAX_OFF && off + 1 <= ip && 3 <= len <= MAX_REF && ip + len <= |src|
    requires Periodic(src, ip, ip + len, off + 1)
    modifies dst
    ensures op == from + if len < 9 then 2 else 3
    ensures Open(dst, op, 0, ys, src, ip + len) && ys == xs + [Reference(off, len)]
  {
    hide Valid, Text, SerializeAll, Serialize, MatchCopy;
    ghost var x := Ref(off / 256, off % 256, len);
    op := WriteRef(dst, from, off, len);
    ys := xs + [x];
    RefExtends(xs, x, src, ip);
  }

  /** The two or three bytes of a back reference. */
  method WriteRef(dst: array<byte>, from: nat, off: nat, len: nat) returns (op: nat)
    requires from + 3 <= dst.Length && off < MAX_OFF && 3 <= len <= MAX_REF
    modifies dst
    ensures op == from + if len < 9 then 2 else 3
    ensures dst[..op] == old(dst[..from]) + Serialize(Ref(off / 256, off % 256, len))
  {
    hide Control;
    if len - 2 < 7 {
      dst[from] := Control(len - 2, off / 256);
      dst[from + 1] := off % 256;
      op := from + 2;
    } else {
      dst[from] := Control(7, off / 256);
      dst[from + 1] := len - 2 - 7;
      dst[from + 2] := off % 256;
      op := from + 3;
    }
  }

  lemma {:induction false} RefExtends(xs: seq<Item>, x: Item, src: seq<byte>, ip: nat)
    requires Valid(xs) && ip <= |src| && Text(xs) == src[..ip]
    requires x.Ref? && WellFormed(x) && x.Distance() <= ip && ip + x.n <= |src|
    requires Periodic(src, ip, ip + x.n, x.Distance())
    ensures Valid(xs + [x]) && Text(xs + [x]) == src[..ip + x.n]
    ensures SerializeAll(xs + [x]) == SerializeAll(xs) + Serialize(x)
  {
    hide Valid;
    hide Text;
    hide SerializeAll;
    hide Serialize;
    hide MatchCopy;
    assert |Text(xs)| == ip;
    Append(xs, x);
    assert src[..ip + x.n][..ip] == src[..ip];
    PeriodicIsMatchCopy(src[..ip], x.Distance(), src[..ip + x.n]);
  }

  lemma {:induction false} Complete(xs: seq<Item>, src: seq<byte>)
    requires Valid(xs) && Text(xs) == src && src != []
    ensures SerializeAll(xs) != [] && Decode(SerializeAll(xs), |src|) == Decoded(src)
  {
    assert xs != [];
    DecodesAll(xs, |src|);
  }

  /** The literals after the last position that is looked up: two at most. */
  method PutLast(dst: array<byte>, from: nat, lits: nat, src: seq<byte>, start: nat, ghost items: seq<Item>)
      returns (n: nat)
    requires Open(dst, from, lits, items, src, start) && lits < MAX_LIT && start + 2 >= |src|
    requires src != [] && from + 1 + lits + 3 <= dst.Length
    modifies dst
    ensures 0 < n <= dst.Length && Decode(dst[..n], |src|) == Decoded(src)
    ensures n <= from + lits + 4
    ensures lits <= start <= |src| && AllWellFormed(Rest(src, start, items, lits))
            && dst[..n] == Written(Rest(src, start, items, lits))
  {
    hide Decode, Open, Closed;
    InInput(dst, from, lits, items, src, start);
    var ip, head: nat, lit: nat := start, from, lits;
    ghost var xs, restarted := items, false;
    while ip < |src|
      invariant start <= ip <= |src| && lit < MAX_LIT && lit <= ip
      invariant Open(dst, head, lit, xs, src, ip) && Rest(src, ip, xs, lit) == Rest(src, start, items, lits)
      invariant !restarted ==> lit == lits + (ip - start) && head == from
      invariant restarted ==> lit <= ip - start && head + lit == from + lits + 1 + (ip - start)
    {
      PutLiteral(dst, head, lit, src, ip, xs);
      ip, lit := ip + 1, lit + 1;
      if lit == MAX_LIT {
        head, xs := CloseRun(dst, head, lit, src, ip, xs);
        lit, restarted := 0, true;
      }
    }
    n, xs := CloseRun(dst, head, lit, src, ip, xs);
    OpenAtEnd(dst, n, xs, src);
  }

  lemma {:induction false} InInput(dst: array<byte>, head: nat, lit: nat, xs: seq<Item>, src: seq<byte>, ip: nat)
    requires Open(dst, head, lit, xs, src, ip)
    ensures lit <= ip <= |src| && Valid(xs) && AllWellFormed(xs) && head == |Written(xs)|
  {
    WrittenIsSerialized(xs);
  }

  /** What is written when the input is used up. */
  lemma {:induction false} OpenAtEnd(dst: array<byte>, n: nat, xs: seq<Item>, src: seq<byte>)
    requires Open(dst, n, 0, xs, src, |src|) && src != []
    ensures 0 < n <= dst.Length && Decode(dst[..n], |src|) == Decoded(src)
    ensures AllWellFormed(xs) && dst[..n] == Written(xs)
  {
    hide Decode, Valid, Text, SerializeAll;
    WrittenIsSerialized(xs);
    assert src[..|src|] == src;
    Complete(xs, src);
  }

  /** A match at distance off + 1: closes the run and writes the reference. */
  method PutMatch(dst: array<byte>, head: nat, lit: nat, off: nat, src: seq<byte>, ip: nat, ghost xs: seq<Item>)
      returns (ok: bool, op: nat, end: nat, ghost ys: seq<Item>)
    requires Open(dst, head, lit, xs, src, ip) && ip + 3 <= |src|
    requires off < MAX_OFF && off + 1 <= ip && Periodic(src, ip, ip + 3, off + 1)
    modifies dst
    ensures ok <==> head + 1 + lit - (if lit == 0 then 1 else 0) + 3 + 1 < dst.Length
    ensures ok ==> ip + 3 <= end <= |src| && Open(dst, op, 0, ys, src, end)
    ensures ok ==> op == head + 1 + lit - (if lit == 0 then 1 else 0) + if end - ip < 9 then 2 else 3
    ensures ok ==> end - ip <= MAX_REF && lit <= ip && end - ip == LengthOf(src, ip, off + 1, 3)
    ensures ok ==> ys == Closed(src, ip, xs, lit) + [Reference(off, end - ip)]
    ensures ok ==> end - ip == MAX_REF || end + 2 >= |src| || src[end] != src[end - off - 1]
  {
    hide Open, Periodic, Most, LengthOf, Closed;
    op, end, ys := head, ip, xs;
    ok := head + 1 + lit - (if lit == 0 then 1 else 0) + 3 + 1 < dst.Length;
    if ok {
      op, ys := CloseRun(dst, head, lit, src, ip, xs);
      var len := MatchLength(src, ip, off + 1);
      IsLength(src, ip, off + 1, len);
      op, ys := PutRef(dst, op, off, len, src, ip, ys);
      end := ip + len;
    }
  }

  /** A literal in the main loop; a full run is closed at once. */
  method PutOne(dst: array<byte>, head: nat, lit: nat, src: seq<byte>, ip: nat, ghost xs: seq<Item>)
      returns (ok: bool, op: nat, lit': nat, ghost ys: seq<Item>)
    requires Open(dst, head, lit, xs, src, ip) && lit < MAX_LIT && ip < |src|
    modifies dst
    ensures ok <==> head + 1 + lit < dst.Length
    ensures ok ==> lit' < MAX_LIT && Open(dst, op, lit', ys, src, ip + 1)
    ensures ok ==> if lit == MAX_LIT - 1 then lit' == 0 && op == head + 33 else lit' == lit + 1 && op == head
    ensures ok ==> lit <= ip && (ys, lit') == Literal(src, ip, xs, lit)
  {
    hide Open, Closed;
    InInput(dst, head, lit, xs, src, ip);
    op, lit', ys := head, lit, xs;
    ok := head + 1 + lit < dst.Length;
    if ok {
      PutLiteral(dst, head, lit, src, ip, xs);
      lit' := lit + 1;
      if lit' == MAX_LIT {
        op, ys := CloseRun(dst, head, lit', src, ip + 1, xs);
        lit' := 0;
      }
    }
  }

  /** The two positions before the end of a match are entered in the table. */
  method EnterTwo(src: seq<byte>, ip: nat, table: array<nat>) returns (hval: nat)
    requires 2 <= ip && ip + 2 < |src| && table.Length == HSIZE
    modifies table
    ensures hval == Next(Next(First(src, ip - 2), src, ip - 2), src, ip - 1)
    ensures table[..] == old(table[..])[Index(Next(First(src, ip - 2), src, ip - 2)) := ip - 2][Index(hval) := ip - 1]
  {
    hval := First(src, ip - 2);
    hval := Next(hval, src, ip - 2);
    table[Index(hval)] := ip - 2;
    hval := Next(hval, src, ip - 1);
    table[Index(hval)] := ip - 1;
  }

  // ----- How long the output gets

  /** An extra byte for every full run of literals: a reference never takes more bytes than it stands for, and one
      less when a run had to be closed for it. */
  ghost predicate Sized(ip: nat, head: nat, lit: nat) {
    lit <= ip && head <= (ip - lit) + (ip - lit) / MAX_LIT
  }

  lemma {:induction false} SizedMatch(ip: nat, head: nat, lit: nat, end: nat, op: nat)
    requires Sized(ip, head, lit) && ip + 3 <= end
    requires op == head + 1 + lit - (if lit == 0 then 1 else 0) + if end - ip < 9 then 2 else 3
    ensures Sized(end, op, 0)
  {
  }

  lemma {:induction false} SizedLiteral(ip: nat, head: nat, lit: nat, op: nat, lit': nat)
    requires Sized(ip, head, lit) && lit < MAX_LIT
    requires if lit == MAX_LIT - 1 then lit' == 0 && op == head + 33 else lit' == lit + 1 && op == head
    ensures Sized(ip + 1, op, lit')
  {
  }

  // ----- Equal bytes

  /** All bytes are equal. */
  ghost predicate Equal(src: seq<byte>) {
    src != [] && Periodic(src, 1, |src|, 1)
  }

  lemma {:induction false} EqualBytes(src: seq<byte>, k: nat)
    requires Equal(src) && k < |src|
    ensures src[k] == src[0]
    decreases k
  {
    if k > 0 {
      EqualBytes(src, k - 1);
    }
  }

  /** The table cell of three equal bytes. */
  function Slot(b: byte): (i: nat)
    ensures i < HSIZE
  {
    Index(0x1_0101 * b as int)
  }

  lemma {:induction false} Multiples(a: int, k: int)
    ensures (a + HSIZE * k) % HSIZE == a % HSIZE
  {
  }

  /** The cell depends on the last three bytes only. */
  lemma {:induction false} LastThree(h: nat)
    ensures Index(h) == Index(h % 0x100_0000)
  {
    var q, r := h / 0x100_0000, h % 0x100_0000;
    assert h / 2048 - 5 * h == (r / 2048 - 5 * r) + HSIZE * (q - 10240 * q);
    Multiples(r / 2048 - 5 * r, q - 10240 * q);
  }

  lemma {:induction false} NextOfEqual(src: seq<byte>, v: nat, p: nat)
    requires Equal(src) && p + 3 <= |src| && v % 0x1_0000 == 0x101 * src[0] as int
    ensures Index(Next(v, src, p)) == Slot(src[0]) && Next(v, src, p) % 0x1_0000 == 0x101 * src[0] as int
  {
    hide Index, Equal;
    EqualBytes(src, p + 2);
    LastThree(Next(v, src, p));
    Shifted(v, src[0]);
  }

  lemma {:induction false} Remainder32(w: nat, q: nat, r: nat)
    requires w == U32 * q + r && r < U32
    ensures w % U32 == r
  {
  }

  lemma {:induction false} Remainder24(w: nat, q: nat, r: nat)
    requires w == 0x100_0000 * q + r && r < 0x100_0000
    ensures w % 0x100_0000 == r
  {
  }

  lemma {:induction false} Remainder16(w: nat, q: nat, r: nat)
    requires w == 0x1_0000 * q + r && r < 0x1_0000
    ensures w % 0x1_0000 == r
  {
  }

  lemma {:induction false} Shifted(v: nat, b: byte)
    requires v % 0x1_0000 == 0x101 * b as int
    ensures (256 * v + b as int) % U32 % 0x100_0000 == 0x1_0101 * b as int
    ensures (256 * v + b as int) % U32 % 0x1_0000 == 0x101 * b as int
  {
    var q, c: nat := v / 0x1_0000, 0x1_0101 * b as int;
    var q1, q0 := q / 256, q % 256;
    Remainder32(256 * v + b as int, q1, 0x100_0000 * q0 + c);
    Remainder24(0x100_0000 * q0 + c, q0, c);
    Remainder16(0x100_0000 * q0 + c, 256 * q0 + b as int, 0x101 * b as int);
  }

  lemma {:induction false} FirstOfEqual(src: seq<byte>, p: nat)
    requires Equal(src) && p + 2 <= |src|
    ensures First(src, p) == 0x101 * src[0] as int && First(src, p) % 0x1_0000 == 0x101 * src[0] as int
  {
    EqualBytes(src, p);
    EqualBytes(src, p + 1);
  }

  /** Equal bytes: two literals, then references of 264 bytes at distance one. */
  ghost predicate Steady(src: seq<byte>, table: seq<nat>, hval: nat, ip: nat, head: nat, lit: nat) {
    Equal(src) ==>
      && |table| == HSIZE
      && (ip + 2 < |src| ==>
            && hval % 0x1_0000 == 0x101 * src[0] as int && (ip >= 1 ==> table[Slot(src[0])] == ip - 1)
            && (ip > 2 ==> (ip - 2) % MAX_REF == 0))
      && (ip <= 2 ==> head == 0 && lit == ip)
      && (ip > 2 ==> lit == 0 && head <= 3 + 3 * ((ip + 261) / MAX_REF))
  }

  /** What the lookup at ip finds, from the third position on. */
  lemma {:induction false} SteadyFinds(src: seq<byte>, table: seq<nat>, hval: nat, ip: nat, head: nat, lit: nat)
    requires Steady(src, table, hval, ip, head, lit) && ip + 2 < |src| && |table| == HSIZE
    ensures Equal(src) ==>
              var slot := Index(Next(hval, src, ip));
              && slot == Slot(src[0]) && Next(hval, src, ip) % 0x1_0000 == 0x101 * src[0] as int
              && (IsMatch(src, ip, table[slot]) ==> ip >= 2 && table[slot] == ip - 1)
              && (ip >= 2 ==> IsMatch(src, ip, table[slot]))
  {
    hide Index, Next, Equal, Slot;
    if Equal(src) {
      NextOfEqual(src, hval, ip);
      EqualBytes(src, ip);
      EqualBytes(src, ip + 1);
      EqualBytes(src, ip + 2);
      if ip >= 1 {
        EqualBytes(src, ip - 1);
      }
    }
  }

  lemma {:induction false} SteadyLiteral(src: seq<byte>, table: seq<nat>, hval: nat, ip: nat, head: nat, lit: nat,
                                         op: nat, lit': nat)
    requires Steady(src, table, hval, ip, head, lit) && ip + 2 < |src| && |table| == HSIZE
    requires !IsMatch(src, ip, table[Index(Next(hval, src, ip))])
    requires if lit == MAX_LIT - 1 then lit' == 0 && op == head + 33 else lit' == lit + 1 && op == head
    ensures var h := Next(hval, src, ip); Steady(src, table[Index(h) := ip], h, ip + 1, op, lit')
  {
    hide Index, Next, Equal, IsMatch, Slot;
    SteadyFinds(src, table, hval, ip, head, lit);
  }

  lemma {:induction false} NextQuotient(end: nat, k: nat)
    requires 5 + MAX_REF * k <= end <= 2 + MAX_REF * (k + 1)
    ensures (end + 261) / MAX_REF == k + 1
  {
  }

  lemma {:induction false} SteadySize(ip: nat, head: nat, lit: nat, end: nat, op: nat)
    requires if ip == 2 then head == 0 && lit == 2 else ip > 2 && lit == 0 && head <= 3 + 3 * ((ip + 261) / MAX_REF)
    requires (ip - 2) % MAX_REF == 0 && ip + 3 <= end <= ip + MAX_REF
    requires op <= head + 1 + lit - (if lit == 0 then 1 else 0) + 3
    ensures op <= 3 + 3 * ((end + 261) / MAX_REF)
  {
    var k := (ip - 2) / MAX_REF;
    WholeQuotient(ip, k);
    NextQuotient(end, k);
  }

  lemma {:induction false} SteadyMatch(src: seq<byte>, s: State, head: nat, ref: nat, items: seq<Item>, end: nat,
                                       op: nat)
    requires |s.table| == HSIZE && Steady(src, s.table, s.hval, s.ip, head, s.lit) && s.ip + 2 < |src|
    requires ref == s.table[Index(Next(s.hval, src, s.ip))] && IsMatch(src, s.ip, ref)
    requires s.ip + 3 <= end <= |src| && end <= s.ip + MAX_REF
    requires end - s.ip == MAX_REF || end + 2 >= |src| || src[end] != src[end - (s.ip - ref - 1) - 1]
    requires op <= head + 1 + s.lit - (if s.lit == 0 then 1 else 0) + 3
    ensures var r := Behind(src, s, items, end); Steady(src, r.table, r.hval, end, op, 0)
  {
    hide Index, Next, First, Equal, IsMatch, Slot;
    SteadyFinds(src, s.table, s.hval, s.ip, head, s.lit);
    if Equal(src) {
      SteadySize(s.ip, head, s.lit, end, op);
      if end + 2 < |src| {
        EqualBytes(src, end);
        EqualBytes(src, end - 1);
        AfterWhole(s.ip, end);
        FirstOfEqual(src, end - 2);
        NextOfEqual(src, First(src, end - 2), end - 2);
        NextOfEqual(src, Next(First(src, end - 2), src, end - 2), end - 1);
      }
    }
  }

  lemma {:induction false} AfterWhole(ip: nat, end: nat)
    requires ip >= 2 && (ip - 2) % MAX_REF == 0 && end == ip + MAX_REF
    ensures (end - 2) % MAX_REF == 0
  {
  }

  /** Room enough for any input, and for equal bytes. */
  ghost predicate Roomy(src: seq<byte>, room: nat) {
    room >= |src| + |src| / MAX_LIT + 4 || (Equal(src) && room >= 3 * (|src| / MAX_REF) + 10)
  }

  /** No check fails where there is room enough. */
  lemma {:induction false} RoomLasts(src: seq<byte>, table: seq<nat>, hval: nat, ip: nat, head: nat, lit: nat,
                                     room: nat)
    requires Sized(ip, head, lit) && Steady(src, table, hval, ip, head, lit) && ip <= |src|
    ensures Roomy(src, room) ==> head + 1 + lit + 3 <= room
    ensures Roomy(src, room) && ip + 2 < |src| ==>
              head + 1 + lit < room && head + 1 + lit - (if lit == 0 then 1 else 0) + 3 + 1 < room
  {
    hide Equal, Slot;
    Quotients(ip - lit, |src|);
    Quotients(ip, |src|);
    if ip > 2 {
      Quotients(ip - 2, |src|);
      if (ip - 2) % MAX_REF == 0 {
        WholeQuotient(ip, (ip - 2) / MAX_REF);
      }
    }
  }

  lemma {:induction false} WholeQuotient(ip: nat, k: nat)
    requires ip == 2 + MAX_REF * k
    ensures (ip + 261) / MAX_REF == k
  {
  }

  /** One round of the main loop. */
  method Round(src: seq<byte>, dst: array<byte>, table: array<nat>, hval: nat, ip: nat, head: nat, lit: nat,
               ghost xs: seq<Item>, ghost all: State)
      returns (ok: bool, hval': nat, ip': nat, head': nat, lit': nat, ghost ys: seq<Item>)
    requires table.Length == HSIZE && table as object != dst
    requires ip + 2 < |src| && lit < MAX_LIT && Open(dst, head, lit, xs, src, ip)
    requires Sized(ip, head, lit) && Steady(src, table[..], hval, ip, head, lit)
    requires SameFuture(src, all, State(table[..], hval, ip, xs, lit), dst.Length)
    modifies dst, table
    ensures !ok ==> Good(src, all) && !Admitted(src, all, dst.Length) && !Roomy(src, dst.Length)
    ensures ok ==> ip < ip' <= |src| && lit' < MAX_LIT && Open(dst, head', lit', ys, src, ip')
    ensures ok ==> Sized(ip', head', lit') && Steady(src, table[..], hval', ip', head', lit')
    ensures ok ==> SameFuture(src, all, State(table[..], hval', ip', ys, lit'), dst.Length)
  {
    hide Open, Index, Next, First, IsMatch, Sized, Steady, Equal, Roomy, Periodic, Admitted, Good, AllWellFormed,
         Written, SameFuture, Proposed, Closed, LengthOf, Literal, Most, Behind, Reference;
    ghost var was := table[..];
    ghost var s := State(was, hval, ip, xs, lit);
    RoomLasts(src, was, hval, ip, head, lit, dst.Length);
    InInput(dst, head, lit, xs, src, ip);
    IsGood(src, all, s, dst.Length);
    hval' := Next(hval, src, ip);
    var slot := Index(hval');
    var ref := table[slot];
    table[slot] := ip;
    assert table[..] == was[slot := ip];
    if IsMatch(src, ip, ref) {
      MatchIs(src, ip, ref);
      ok, head', ip', ys := PutMatch(dst, head, lit, ip - ref - 1, src, ip, xs);
      MatchAdvances(src, all, s, dst.Length, ref, ok, ys, ip');
      lit' := 0;
      if ok {
        SizedMatch(ip, head, lit, ip', head');
        SteadyMatch(src, s, head, ref, ys, ip', head');
        hval' := EnterEnd(src, s, table, ys, ip', hval');
      }
    } else {
      ok, head', lit', ys := PutOne(dst, head, lit, src, ip, xs);
      ip' := ip + 1;
      LiteralAdvances(src, all, s, dst.Length, ok, ys, lit');
      if ok {
        SizedLiteral(ip, head, lit, head', lit');
        SteadyLiteral(src, was, hval, ip, head, lit, head', lit');
      }
    }
  }

  /** Behind a match that does not end the loop the positions before its end are entered. */
  method EnterEnd(src: seq<byte>, ghost s: State, table: array<nat>, ghost items: seq<Item>, end: nat, h: nat)
      returns (hval: nat)
    requires table.Length == HSIZE == |s.table| && s.ip + 2 < |src| && 2 <= end <= |src|
    requires h == Next(s.hval, src, s.ip) && table[..] == s.table[Index(h) := s.ip]
    modifies table
    ensures State(table[..], hval, end, items, 0) == Behind(src, s, items, end)
  {
    hide Index, Next, First;
    hval := h;
    if end + 2 < |src| {
      hval := EnterTwo(src, end, table);
    }
  }

  lemma {:induction false} IsGood(src: seq<byte>, all: State, s: State, room: nat)
    requires SameFuture(src, all, s, room)
    ensures Good(src, all) && Good(src, s) && |s.table| == HSIZE && s.lit <= s.ip <= |src|
  {
    hide Through, Admitted;
  }

  /** lzf_compress: n > 0 bytes that decode to the input, or 0: what the machine writes, exactly when every check
      passes.  It succeeds when the output has room for the input and a byte in 32; equal bytes take three bytes in
      264. */
  method Compress(src: seq<byte>, dst: array<byte>, table: array<nat>) returns (n: nat)
    requires table.Length == HSIZE && table as object != dst
    modifies dst, table
    ensures n <= dst.Length
    ensures n > 0 ==> Decode(dst[..n], |src|) == Decoded(src)
    ensures n > 0 <==> src != [] && dst.Length > 0 && Admitted(src, Start(src, old(table[..])), dst.Length)
    ensures n > 0 ==> dst[..n] == Block(src, old(table[..]))
    ensures src != [] && dst.Length >= |src| + |src| / 32 + 4 ==> 0 < n <= |src| + |src| / 32 + 4
    ensures src != [] && Periodic(src, 1, |src|, 1) && dst.Length >= 3 * (|src| / 264) + 10 ==>
              0 < n <= 3 * (|src| / 264) + 10
  {
    hide Open, Decode, Index, Next, First, IsMatch, Sized, Steady, Equal, Roomy, Periodic, Through, Admitted, Advance,
         Allowed, Good, Start, Block, AllWellFormed, Rest, Written;
    RoomyIs(src, dst.Length);
    ghost var all := Start(src, table[..]);
    if src == [] || dst.Length == 0 {
      return 0;
    }
    var ip: nat, head: nat, lit: nat := 0, 0, 0;
    ghost var xs: seq<Item> := [];
    NothingYet(dst, src);
    var hval: nat := if |src| >= 2 then First(src, 0) else 0;
    SteadyStart(src, table[..], hval);
    StartsSame(src, table[..], hval, dst.Length);
    while ip + 2 < |src|
      invariant 0 <= ip <= |src| && lit < MAX_LIT
      invariant Open(dst, head, lit, xs, src, ip)
      invariant Sized(ip, head, lit) && Steady(src, table[..], hval, ip, head, lit)
      invariant SameFuture(src, all, State(table[..], hval, ip, xs, lit), dst.Length)
      decreases |src| - ip
    {
      var ok;
      ok, hval, ip, head, lit, xs := Round(src, dst, table, hval, ip, head, lit, xs, all);
      if !ok {
        return 0;
      }
    }
    RoomLasts(src, table[..], hval, ip, head, lit, dst.Length);
    AtMost(src, table[..], hval, ip, head, lit);
    InInput(dst, head, lit, xs, src, ip);
    FutureEnds(src, old(table[..]), State(table[..], hval, ip, xs, lit), dst.Length);
    if head + 1 + lit + 3 > dst.Length {
      return 0;
    }
    n := PutLast(dst, head, lit, src, ip, xs);
  }

  /** From both states the machine comes to the same, and passes the same checks. */
  ghost predicate SameFuture(src: seq<byte>, a: State, b: State, room: nat) {
    && Good(src, a) && Good(src, b) && Through(src, a) == Through(src, b)
    && (Admitted(src, a, room) <==> Admitted(src, b, room))
  }

  lemma {:induction false} StartsSame(src: seq<byte>, table: seq<nat>, hval: nat, room: nat)
    requires |table| == HSIZE && hval == if |src| >= 2 then First(src, 0) else 0
    ensures SameFuture(src, Start(src, table), State(table, hval, 0, [], 0), room)
  {
    hide First, Through, Admitted;
  }

  lemma {:induction false} OneRound(src: seq<byte>, all: State, s: State, room: nat)
    requires SameFuture(src, all, s, room) && s.ip + 2 < |src|
    ensures Good(src, s) && Good(src, all)
    ensures if Allowed(src, s, room) then SameFuture(src, all, Advance(src, s), room) else !Admitted(src, all, room)
  {
    hide Advance, Allowed, Good;
  }

  lemma {:induction false} MatchAdvances(src: seq<byte>, all: State, s: State, room: nat, ref: nat, ok: bool,
                                         items: seq<Item>, end: nat)
    requires SameFuture(src, all, s, room) && s.ip + 2 < |src| && ref == s.table[Index(Next(s.hval, src, s.ip))]
    requires Proposed(src, s.ip, ref)
    requires ok <==> |Written(s.items)| + 1 + s.lit - (if s.lit == 0 then 1 else 0) + 3 + 1 < room
    requires ok ==> end == s.ip + LengthOf(src, s.ip, s.ip - ref, 3)
    requires ok ==> items == Closed(src, s.ip, s.items, s.lit) + [Reference(s.ip - ref - 1, end - s.ip)]
    ensures !ok ==> !Admitted(src, all, room)
    ensures ok ==> 2 <= end <= |src| && SameFuture(src, all, Behind(src, s, items, end), room)
  {
    hide Index, Next, First, LengthOf, Closed, SameFuture, Written, Periodic, Admitted, AllWellFormed, Behind,
         Reference;
    OneRound(src, all, s, room);
  }

  lemma {:induction false} LiteralAdvances(src: seq<byte>, all: State, s: State, room: nat, ok: bool, items: seq<Item>,
                                           lit: nat)
    requires SameFuture(src, all, s, room) && s.ip + 2 < |src|
    requires !Proposed(src, s.ip, s.table[Index(Next(s.hval, src, s.ip))])
    requires ok <==> |Written(s.items)| + 1 + s.lit < room
    requires ok ==> (items, lit) == Literal(src, s.ip, s.items, s.lit)
    ensures !ok ==> !Admitted(src, all, room)
    ensures ok ==>
              var h := Next(s.hval, src, s.ip);
              SameFuture(src, all, State(s.table[Index(h) := s.ip], h, s.ip + 1, items, lit), room)
  {
    hide Index, Next, First, LengthOf, Closed, SameFuture, Written, Periodic, Admitted, AllWellFormed;
    OneRound(src, all, s, room);
  }

  lemma {:induction false} FutureEnds(src: seq<byte>, table: seq<nat>, s: State, room: nat)
    requires |table| == HSIZE && SameFuture(src, Start(src, table), s, room) && s.ip + 2 >= |src|
    ensures Admitted(src, Start(src, table), room) <==> |Written(s.items)| + 1 + s.lit + 3 <= room
    ensures AllWellFormed(Rest(src, s.ip, s.items, s.lit))
            && Block(src, table) == Written(Rest(src, s.ip, s.items, s.lit))
  {
    hide Start, Written, Rest, Advance, Allowed;
    RestIsWellFormed(src, s.ip, s.items, s.lit);
  }

  lemma {:induction false} RoomyIs(src: seq<byte>, room: nat)
    ensures room >= |src| + |src| / 32 + 4 ==> Roomy(src, room)
    ensures src != [] && Periodic(src, 1, |src|, 1) ==> Equal(src)
    ensures src != [] && Periodic(src, 1, |src|, 1) && room >= 3 * (|src| / 264) + 10 ==> Roomy(src, room)
    ensures Roomy(src, room) ==> room > 0
  {
  }

  lemma {:induction false} MatchIs(src: seq<byte>, ip: nat, ref: nat)
    requires ip + 2 < |src| && IsMatch(src, ip, ref)
    ensures ref < ip && ip - ref - 1 < MAX_OFF && Periodic(src, ip, ip + 3, ip - ref)
  {
  }

  lemma {:induction false} NothingYet(dst: array<byte>, src: seq<byte>)
    ensures Open(dst, 0, 0, [], src, 0) && Sized(0, 0, 0)
  {
  }

  lemma {:induction false} SteadyStart(src: seq<byte>, table: seq<nat>, hval: nat)
    requires |table| == HSIZE && (|src| >= 2 ==> hval == First(src, 0))
    ensures Steady(src, table, hval, 0, 0, 0)
  {
    hide Equal, First;
    if Equal(src) && |src| >= 2 {
      FirstOfEqual(src, 0);
    }
  }

  /** What the last literals can bring it to. */
  lemma {:induction false} AtMost(src: seq<byte>, table: seq<nat>, hval: nat, ip: nat, head: nat, lit: nat)
    requires Sized(ip, head, lit) && Steady(src, table, hval, ip, head, lit) && ip <= |src|
    ensures head + lit + 4 <= |src| + |src| / 32 + 4
    ensures Equal(src) ==> head + lit + 4 <= 3 * (|src| / 264) + 10
  {
    hide Equal, Slot;
    Quotients(ip - lit, |src|);
    Quotients(ip, |src|);
  }

  lemma {:induction false} Quotients(ip: nat, n: nat)
    requires ip <= n
    ensures ip / MAX_LIT <= n / MAX_LIT && (ip + 261) / MAX_REF <= n / MAX_REF + 1 && ip / MAX_REF <= n / MAX_REF
  {
  }
}
