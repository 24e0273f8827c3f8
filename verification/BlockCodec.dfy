/** qs_deflate_block and qs_inflate_block: how a tape block is stored compressed.  Four bytes hold the
    compressed size and the algorithm; the disk holds the block padded to whole sectors. */
module BlockCodec {
  import opened Bytes
  import Lz4Format
  import Lz4Encoder
  import Lz4Decoder
  import LzfFormat
  import LzfParse
  import LzfEncoder
  import LzfDecoder
  import EntryBits

  datatype Algorithm = Lzf | Lz4

  const ALG_SHIFT := 0x1000_0000

  function Code(a: Algorithm): nat {
    if a == Lzf then 0 else 1
  }

  /** A 32-bit little-endian word. */
  function Word(b: seq<byte>): nat
    requires |b| >= 4
  {
    b[0] as int + 0x100 * b[1] as int + 0x1_0000 * b[2] as int + 0x100_0000 * b[3] as int
  }

  lemma {:induction false} FourBytes(w: nat)
    requires w < 0x1_0000_0000
    ensures var a := w / 0x100;
            var b := a / 0x100;
            && w == w % 0x100 + 0x100 * a && a == a % 0x100 + 0x100 * b && b == b % 0x100 + 0x100 * (b / 0x100)
            && b / 0x100 < 0x100
  {
    var a := w / 0x100;
    OneByte(w);
    OneByte(a);
    OneByte(a / 0x100);
  }

  lemma {:induction false} OneByte(w: nat)
    ensures w == w % 0x100 + 0x100 * (w / 0x100) && 0 <= w % 0x100 < 0x100
  {
  }

  function WordBytes(w: nat): (b: seq<byte>)
    requires w < 0x1_0000_0000
    ensures |b| == 4 && Word(b) == w
  {
    FourBytes(w);
    [w % 0x100, w / 0x100 % 0x100, w / 0x100 / 0x100 % 0x100, w / 0x100 / 0x100 / 0x100]
  }

  function StoredSize(b: seq<byte>): nat
    requires |b| >= 4
  {
    Word(b) % ALG_SHIFT
  }

  /** What the reader needs: a size of at least one byte, all of it in the buffer. */
  predicate Readable(b: seq<byte>) {
    |b| >= 4 && 1 <= StoredSize(b) <= |b| - 4
  }

  datatype Inflated = Data(out: seq<byte>) | Unspecified | Failed

  /** What a stored block of `n` bytes inflates to. */
  function Inflation(b: seq<byte>, n: nat): Inflated
    requires Readable(b) && n > 0
  {
    var payload := b[4..4 + StoredSize(b)];
    var code := Word(b) / ALG_SHIFT;
    if code == Code(Lzf) then
      match LzfFormat.Decode(payload, n)
      case Decoded(out) => if |out| == n then Data(out) else Failed
      case Rejected => Failed
    else if code == Code(Lz4) then
      match Lz4Format.Decode(payload, n)
      case Decoded(out, exact) => if |out| != n then Failed else if exact then Data(out) else Unspecified
      case Corrupt(_) => Failed
    else Failed
  }

  /** Bytes after the compressed data, as read back from disk in whole sectors, do not matter. */
  lemma {:induction false} PaddingIgnored(b: seq<byte>, pad: seq<byte>, n: nat)
    requires Readable(b) && n > 0
    ensures Readable(b + pad) && Inflation(b + pad, n) == Inflation(b, n)
  {
    hide Word, LzfFormat.Decode, Lz4Format.Decode;
    SameHead(b, pad);
    assert (b + pad)[4..4 + StoredSize(b)] == b[4..4 + StoredSize(b)];
  }

  lemma {:induction false} SameHead(b: seq<byte>, pad: seq<byte>)
    requires |b| >= 4
    ensures Word(b + pad) == Word(b)
  {
  }

  /** qs_deflate_block, for the block sizes that are compressed: at least a page, 24-bit.  The
      payload buffer is what the block's own pages leave after the header. */
  method Deflate(src: seq<byte>, algorithm: Algorithm, table: array<nat>) returns (ok: bool, b: seq<byte>)
    requires 4096 <= |src| < 0x100_0000 && table.Length == LzfParse.HSIZE
    modifies table
    ensures ok ==> Readable(b) && |b| <= |src| - 504
    ensures ok ==> Inflation(b, |src|) == Data(src)
    ensures algorithm == Lz4 && Periodic(src, 2, |src|, 2) ==> ok && |b| <= |src| / 255 + 83
    ensures algorithm == Lzf && Periodic(src, 1, |src|, 1) ==> ok && |b| <= 3 * (|src| / 264) + 14
  {
    hide Inflation;
    hide Stored;
    hide LzfFormat.Decode;
    hide Lz4Format.Decode;
    var n;
    var payload;
    match algorithm {
      case Lzf =>
        payload := new byte[|src| - 508](_ => 0);
        n := LzfEncoder.Compress(src, payload, table);
      case Lz4 =>
        payload := new byte[|src| - 4](_ => 0);
        n := Lz4Encoder.CompressLimitedOutput(src, payload, |src| - 508);
    }
    ok, b := n > 0, [];
    if ok {
      b := Stored(payload[..n], algorithm);
      InflatesStored(payload[..n], algorithm, |src|);
    }
  }

  /** Header and payload. */
  function Stored(payload: seq<byte>, algorithm: Algorithm): (b: seq<byte>)
    requires |payload| < ALG_SHIFT
    ensures |b| == 4 + |payload|
  {
    WordBytes(|payload| + ALG_SHIFT * Code(algorithm)) + payload
  }

  /** The top four bits of the header say 0 for LZF and 1 for LZ4, the others the compressed size; a block inflates
      to what its own algorithm decodes. */
  lemma {:induction false} InflatesStored(payload: seq<byte>, algorithm: Algorithm, n: nat)
    requires 1 <= |payload| < ALG_SHIFT && n > 0
    ensures Word(Stored(payload, algorithm)) / 0x1000_0000 == (match algorithm case Lzf => 0 case Lz4 => 1)
    ensures Word(Stored(payload, algorithm)) % 0x1000_0000 == |payload|
    ensures Readable(Stored(payload, algorithm))
    ensures algorithm == Lzf && LzfFormat.Decode(payload, n).Decoded? && |LzfFormat.Decode(payload, n).out| == n
            ==> Inflation(Stored(payload, algorithm), n) == Data(LzfFormat.Decode(payload, n).out)
    ensures algorithm == Lz4 && Lz4Format.Decode(payload, n).Decoded? && Lz4Format.Decode(payload, n).exact
            && |Lz4Format.Decode(payload, n).out| == n
            ==> Inflation(Stored(payload, algorithm), n) == Data(Lz4Format.Decode(payload, n).out)
  {
    hide WordBytes;
    hide LzfFormat.Decode;
    hide Lz4Format.Decode;
    var b, head := Stored(payload, algorithm), WordBytes(|payload| + ALG_SHIFT * Code(algorithm));
    assert Word(b) == Word(head);
    assert b[4..4 + |payload|] == payload;
  }

  /** qs_inflate_block into a buffer of the block's length. */
  method Inflate(b: seq<byte>, out: array<byte>) returns (ok: bool)
    requires Readable(b) && out.Length > 0
    modifies out
    ensures match Inflation(b, out.Length)
            case Data(data) => ok && out[..] == data
            case Unspecified => ok
            case Failed => !ok
  {
    var payload, code := b[4..4 + StoredSize(b)], Word(b) / ALG_SHIFT;
    var r: int := 0;
    if code == Code(Lzf) {
      r := LzfDecoder.Decompress(payload, out);
    } else if code == Code(Lz4) {
      r := Lz4Decoder.DecompressSafe(payload, out);
    }
    ok := r == out.Length;
    assert out[..] == out[..out.Length];
  }

  /** Every compressed block comes back byte for byte, whatever follows it on disk. */
  method RoundTrip(src: seq<byte>, algorithm: Algorithm, table: array<nat>, pad: seq<byte>)
      returns (stored: bool, data: seq<byte>)
    requires 4096 <= |src| < 0x100_0000 && table.Length == LzfParse.HSIZE
    modifies table
    ensures stored ==> data == src
  {
    var b;
    stored, b := Deflate(src, algorithm, table);
    data := [];
    if stored {
      PaddingIgnored(b, pad, |src|);
      var out := new byte[|src|](_ => 0);
      var ok := Inflate(b + pad, out);
      data := out[..];
    }
  }

  /** A block that a drive accepts, stored compressed and read back by the word kept for it: the word gives the
      block size and how many bytes to read, and from those the block comes back. */
  method StoreAndRead(src: seq<byte>, algorithm: Algorithm, table: array<nat>, segment: nat, behind: seq<byte>)
      returns (stored: bool, bits: nat, data: seq<byte>)
    requires 4096 <= |src| <= EntryBits.MAX_BLOCK_SIZE && table.Length == LzfParse.HSIZE
    requires segment < EntryBits.SEGMENT_LIMIT && |behind| >= 511
    modifies table
    ensures stored ==>
              EntryBits.IsData(bits) && EntryBits.BlockSize(bits) == |src| && EntryBits.SegmentId(bits) == segment
    ensures stored ==> data == src
  {
    hide Inflation;
    var b;
    stored, b := Deflate(src, algorithm, table);
    bits, data := 0, [];
    if stored {
      bits := EntryBits.PackData(segment, |src|, |b|);
      EntryBits.AcceptedReadsBack(9, segment, |src|, |b|);
      hide EntryBits.PackData, EntryBits.DiskSize, EntryBits.Sectors, EntryBits.IsData, EntryBits.SegmentId;
      var pad := behind[..EntryBits.DiskSize(bits) - |b|];
      PaddingIgnored(b, pad, |src|);
      var out := new byte[EntryBits.BlockSize(bits)](_ => 0);
      var ok := Inflate(b + pad, out);
      data := out[..];
    }
  }
}
