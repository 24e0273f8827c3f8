/** The LZF format: a plain byte-at-a-time decoder, the serialization of runs and back references,
    and the proof that the decoder undoes the serialization.

      000LLLLL <L+1>               literal run of 1..32 bytes
      LLLooooo oooooooo            back reference of L+2 bytes, L = 1..6
      111ooooo LLLLLLLL oooooooo   back reference of L+9 bytes
*/
module LzfFormat {
  import opened Bytes

  const MAX_LIT := 32
  const MAX_OFF := 8192
  const MAX_REF := 264

  datatype Result = Decoded(out: seq<byte>) | Rejected

  datatype Step = Stop | More(s: seq<byte>, out: seq<byte>)

  function RunStep(n: nat, s: seq<byte>, out: seq<byte>, cap: nat): (r: Step)
    ensures r.More? ==> |r.s| <= |s| && |r.out| <= cap
  {
    if |out| + n > cap || n > |s| then Stop else More(s[n..], out + s[..n])
  }

  /** A reference of `n` bytes; `s` starts at the low byte of its offset. */
  function RefStep(n: nat, hi: nat, s: seq<byte>, out: seq<byte>, cap: nat): (r: Step)
    ensures r.More? ==> |r.s| <= |s| && |r.out| <= cap
  {
    if s == [] then Stop
    else
      var d := 256 * hi + s[0] as int + 1;
      if |out| + n > cap || d > |out| then Stop else More(s[1..], MatchCopy(out, d, n))
  }

  function ItemStep(s: seq<byte>, out: seq<byte>, cap: nat): (r: Step)
    requires |s| >= 1
    ensures r.More? ==> |r.s| < |s| && |r.out| <= cap
  {
    if s[0] < 32 then RunStep(s[0] + 1, s[1..], out, cap)
    else if s[0] / 32 < 7 then RefStep(s[0] / 32 + 2, s[0] % 32, s[1..], out, cap)
    else if |s| == 1 then Stop
    else RefStep(s[1] as int + 9, s[0] % 32, s[2..], out, cap)
  }

  function DecodeFrom(s: seq<byte>, out: seq<byte>, cap: nat): (r: Result)
    requires |s| >= 1
    ensures r.Decoded? ==> |r.out| <= cap
    decreases |s|
  {
    match ItemStep(s, out, cap)
    case Stop => Rejected
    case More(s', out') => if s' == [] then Decoded(out') else DecodeFrom(s', out', cap)
  }

  function Decode(s: seq<byte>, cap: nat): Result
    requires |s| >= 1
  {
    DecodeFrom(s, [], cap)
  }

  // ----- Serialization

  datatype Item = Run(bytes: seq<byte>) | Ref(hi: byte, lo: byte, n: nat) {
    function Distance(): nat
      requires Ref?
    {
      256 * hi as int + lo as int + 1
    }
  }

  predicate WellFormed(x: Item) {
    match x
    case Run(bytes) => 1 <= |bytes| <= MAX_LIT
    case Ref(hi, _, n) => hi < 32 && 3 <= n <= MAX_REF
  }

  function Control(l: nat, hi: byte): (r: byte)
    requires 1 <= l <= 7 && hi < 32
    ensures r >= 32 && r / 32 == l && r % 32 == hi
  {
    hi as int + 32 * l
  }

  function Serialize(x: Item): seq<byte>
    requires WellFormed(x)
  {
    match x
    case Run(bytes) => [|bytes| - 1] + bytes
    case Ref(hi, lo, n) =>
      if n - 2 < 7 then [Control(n - 2, hi), lo] else [Control(7, hi), n - 2 - 7, lo]
  }

  ghost function Size(xs: seq<Item>): nat {
    if xs == [] then 0
    else
      var x := xs[|xs| - 1];
      Size(xs[..|xs| - 1]) + if x.Run? then |x.bytes| else x.n
  }

  ghost predicate Valid(xs: seq<Item>) {
    xs == [] || (
      var x := xs[|xs| - 1];
      Valid(xs[..|xs| - 1]) && WellFormed(x) && (x.Ref? ==> x.Distance() <= Size(xs[..|xs| - 1])))
  }

  /** What one item adds to the text. */
  function Apply(out: seq<byte>, x: Item): seq<byte>
    requires x.Ref? ==> x.Distance() <= |out|
  {
    if x.Run? then out + x.bytes else MatchCopy(out, x.Distance(), x.n)
  }

  ghost function Text(xs: seq<Item>): (r: seq<byte>)
    requires Valid(xs)
    ensures |r| == Size(xs)
  {
    if xs == [] then [] else Apply(Text(xs[..|xs| - 1]), xs[|xs| - 1])
  }

  ghost function SerializeAll(xs: seq<Item>): seq<byte>
    requires Valid(xs)
  {
    if xs == [] then [] else SerializeAll(xs[..|xs| - 1]) + Serialize(xs[|xs| - 1])
  }

  lemma {:induction false} Append(xs: seq<Item>, x: Item)
    requires Valid(xs) && WellFormed(x) && (x.Ref? ==> x.Distance() <= Size(xs))
    ensures Valid(xs + [x]) && Text(xs + [x]) == Apply(Text(xs), x)
    ensures SerializeAll(xs + [x]) == SerializeAll(xs) + Serialize(x)
  {
    assert (xs + [x])[..|xs|] == xs;
  }

  // ----- The decoder undoes the serialization

  lemma {:induction false} ReadsRun(bytes: seq<byte>, tail: seq<byte>, out: seq<byte>, cap: nat)
    requires 1 <= |bytes| <= MAX_LIT && |out| + |bytes| <= cap
    ensures ItemStep([|bytes| - 1] + bytes + tail, out, cap) == More(tail, out + bytes)
  {
    var s := [|bytes| - 1] + bytes + tail;
    assert s[1..] == bytes + tail;
    assert (bytes + tail)[|bytes|..] == tail && (bytes + tail)[..|bytes|] == bytes;
  }

  lemma {:induction false} ReadsRef(n: nat, hi: nat, lo: byte, tail: seq<byte>, out: seq<byte>, cap: nat)
    requires |out| + n <= cap && 256 * hi + lo as int + 1 <= |out|
    ensures RefStep(n, hi, [lo] + tail, out, cap) == More(tail, MatchCopy(out, 256 * hi + lo as int + 1, n))
  {
    assert ([lo] + tail)[1..] == tail;
  }

  lemma {:induction false} ReadsItem(x: Item, tail: seq<byte>, out: seq<byte>, cap: nat)
    requires WellFormed(x) && (x.Ref? ==> x.Distance() <= |out|)
    requires |Apply(out, x)| <= cap
    ensures ItemStep(Serialize(x) + tail, out, cap) == More(tail, Apply(out, x))
  {
    hide RefStep, RunStep, MatchCopy, Control;
    if x.Run? {
      ReadsRun(x.bytes, tail, out, cap);
    } else {
      var s := Serialize(x) + tail;
      ReadsRef(x.n, x.hi, x.lo, tail, out, cap);
      if x.n - 2 < 7 {
        assert s[0] == Control(x.n - 2, x.hi);
        assert s[1..] == [x.lo] + tail;
      } else {
        assert s[0] == Control(7, x.hi) && s[1] == x.n - 2 - 7;
        assert s[2..] == [x.lo] + tail;
      }
    }
  }

  lemma {:induction false} ReadsAll(xs: seq<Item>, tail: seq<byte>, cap: nat)
    requires Valid(xs) && Size(xs) <= cap && tail != []
    ensures DecodeFrom(SerializeAll(xs) + tail, [], cap) == DecodeFrom(tail, Text(xs), cap)
    decreases |xs|
  {
    if xs == [] {
      assert SerializeAll(xs) + tail == tail;
    } else {
      var x, front := xs[|xs| - 1], xs[..|xs| - 1];
      assert SerializeAll(xs) + tail == SerializeAll(front) + (Serialize(x) + tail);
      ReadsAll(front, Serialize(x) + tail, cap);
      ReadsItem(x, tail, Text(front), cap);
    }
  }

  /** A non-empty list of items decodes to exactly the text it stands for. */
  lemma {:induction false} DecodesAll(xs: seq<Item>, cap: nat)
    requires Valid(xs) && xs != [] && Size(xs) <= cap
    ensures SerializeAll(xs) != [] && Decode(SerializeAll(xs), cap) == Decoded(Text(xs))
  {
    var x, front := xs[|xs| - 1], xs[..|xs| - 1];
    ReadsAll(front, Serialize(x), cap);
    assert Serialize(x) + [] == Serialize(x);
    ReadsItem(x, [], Text(front), cap);
  }
}
