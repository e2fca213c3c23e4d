/** The integer block codec (`encode_all` / `decode_all`): a sequence of
    `i64` values becomes zig-zag encoded successive differences, stored in
    one of three block formats named by the high nibble of the first byte. */
module IntegerCodec {
  import opened Common
  import opened Words
  import ZigZag
  import Varint

  /** Block formats, as stored in the header's high nibble. */
  const UNCOMPRESSED: nat := 0
  const SIMPLE8B: nat := 1
  const RLE: nat := 2

  /** `simple8b::MAX_VALUE`, `(1 << 60) - 1`: the largest value the simple8b
      packer accepts. */
  const MAX_VALUE: nat := 0x0FFF_FFFF_FFFF_FFFF

  /** The simple8b bit-packer, which is not part of this model: any pair of
      functions from words to bytes and back. */
  datatype Simple8b = Simple8b(pack: seq<u64> -> seq<byte>, unpack: seq<byte> -> seq<u64>)

  datatype DecodeError =
    | InvalidBlockEncoding
    | InvalidUncompressedLength
    | RleNotEnoughData
    | RleBadDelta
    | RleBadCount
    | Simple8bNotEnoughData

  /** The zig-zag encoded deltas `encode_all` computes: the first value
      itself, then each value's wrapping difference from its predecessor,
      computed on the unsigned readings as the source does. */
  function Deltas(src: seq<i64>): (r: seq<u64>)
    ensures |r| == |src|
  {
    seq(|src|, i requires 0 <= i < |src| => DeltaAt(src, i))
  }

  function DeltaAt(src: seq<i64>, i: nat): u64
    requires i < |src|
  {
    if i == 0 then ZigZag.Encode(src[0]) else Delta(AsU64(src[i - 1]), AsU64(src[i]))
  }

  /** `zig_zag_encode(cur.wrapping_sub(prev) as i64)` on the unsigned
      readings of two neighbouring values. */
  function Delta(prev: u64, cur: u64): u64
  {
    ZigZag.Encode(AsI64(Wrap64(cur - prev)))
  }

  /** The largest element of `s`, or 0 when it is empty. */
  function MaxOf(s: seq<u64>): u64
  {
    if |s| == 0 then 0
    else
      var m := MaxOf(s[1..]);
      if s[0] > m then s[0] else m
  }

  /** `MaxOf` bounds every element and is one of them (or 0 for none). */
  lemma {:induction false} MaxOfIsMaximum(s: seq<u64>)
    ensures forall i :: 0 <= i < |s| ==> s[i] <= MaxOf(s)
    ensures MaxOf(s) == 0 || exists i :: 0 <= i < |s| && s[i] == MaxOf(s)
  {
    if |s| > 0 {
      MaxOfIsMaximum(s[1..]);
      assert forall i :: 1 <= i < |s| ==> s[i] == s[1..][i - 1];
      if MaxOf(s) != s[0] && MaxOf(s) != 0 {
        var i :| 0 <= i < |s[1..]| && s[1..][i] == MaxOf(s[1..]);
        assert s[i + 1] == MaxOf(s);
      }
    }
  }

  /** The maximum of a suffix, from that of the next shorter suffix. */
  lemma MaxOfSuffix(s: seq<u64>, i: nat)
    requires i < |s|
    ensures MaxOf(s[i..]) == if s[i] > MaxOf(s[i + 1..]) then s[i] else MaxOf(s[i + 1..])
  {
    assert s[i..][1..] == s[i + 1..];
  }

  /** The in-place loop of `encode_all`: walking from the back, each slot is
      replaced by the zig-zag encoded difference from the (still original)
      slot before it, while the largest difference is tracked; then the first
      slot is encoded on its own. */
  method ComputeDeltas(src: seq<i64>) returns (deltas: seq<u64>, max: u64)
    requires |src| > 0
    ensures deltas == Deltas(src)
    ensures max == MaxOf(deltas[1..])
  {
    ghost var spec := Deltas(src);
    var work: seq<u64> := seq(|src|, i requires 0 <= i < |src| => AsU64(src[i]));
    max := 0;
    var i := |work| - 1;
    while i >= 1
      invariant 0 <= i < |work| == |src|
      invariant forall j :: 0 <= j <= i ==> work[j] == AsU64(src[j])
      invariant forall j :: i < j < |work| ==> work[j] == spec[j]
      invariant max == MaxOf(spec[i + 1..])
    {
      var d := Delta(work[i - 1], work[i]);
      assert d == spec[i];
      MaxOfSuffix(spec, i);
      work := work[i := d];
      if d > max {
        max := d;
      }
      i := i - 1;
    }
    work := work[0 := ZigZag.Encode(src[0])];
    deltas := work;
  }

  /** RLE applies when there are more than two values and every delta from
      the third on equals the second. */
  predicate UseRle(d: seq<u64>)
  {
    |d| > 2 && forall i :: 2 <= i < |d| ==> d[i] == d[1]
  }

  /** `encode_rle`: a zero byte reserved for the header, the first value in
      8 big-endian bytes, then the delta and the count as varints. */
  function EncodeRle(v: u64, delta: u64, count: nat): (r: seq<byte>)
    ensures |r| >= 11 && r[0] == 0
  {
    [0] + (ToBytes(v) + (Varint.Encode(delta) + Varint.Encode(count)))
  }

  /** `encode_all`. */
  function EncodeAll(src: seq<i64>, packer: Simple8b): (r: seq<byte>)
    ensures src == [] <==> r == []
  {
    if |src| == 0 then []
    else
      var d := Deltas(src);
      if UseRle(d) then
        var block := EncodeRle(d[0], d[1], |d|);
        // the reserved byte is zero, so or-ing the format in is adding it
        [block[0] + RLE * 16] + block[1..]
      else if MaxOf(d[1..]) > MAX_VALUE then
        [UNCOMPRESSED * 16] + ConcatBytes(d)
      else
        [SIMPLE8B * 16] + ToBytes(d[0]) + packer.pack(d[1..])
  }

  /** The header byte of a non-empty block names RLE exactly when the deltas
      allow it, the uncompressed format exactly when RLE does not apply and
      some delta after the first is too wide for simple8b, and simple8b
      otherwise; its low nibble is zero. An uncompressed block is the header
      and eight bytes per value. */
  lemma EncodeAllFormat(src: seq<i64>, packer: Simple8b)
    requires src != []
    ensures var r := EncodeAll(src, packer);
      && |r| >= 9 && r[0] % 16 == 0 && r[0] / 16 <= RLE
      && (r[0] / 16 == RLE <==> UseRle(Deltas(src)))
      && (r[0] / 16 == UNCOMPRESSED <==> !UseRle(Deltas(src)) && MaxOf(Deltas(src)[1..]) > MAX_VALUE)
      && (r[0] / 16 == UNCOMPRESSED ==> |r| == 1 + 8 * |src|)
  {
  }

  /** The running sums of the zig-zag decoded words, starting from `prev`,
      with `i64::wrapping_add`. */
  function PrefixSums(ws: seq<u64>, prev: i64): (r: seq<i64>)
    ensures |r| == |ws|
  {
    if |ws| == 0 then []
    else
      var next := WrapI64(prev + ZigZag.Decode(ws[0]));
      [next] + PrefixSums(ws[1..], next)
  }

  /** `decode_uncompressed`, on the bytes after the header. */
  function DecodeUncompressed(src: seq<byte>): (r: Result<seq<i64>, DecodeError>)
    ensures r.Err? <==> |src| == 0 || |src| % 8 != 0
    ensures r.Err? ==> r.error == InvalidUncompressedLength
    ensures r.Ok? ==> |r.value| == |src| / 8
  {
    if |src| == 0 || |src| % 8 != 0 then Err(InvalidUncompressedLength)
    else Ok(PrefixSums(SplitWords(src), 0))
  }

  /** The loop of `decode_rle`: `count` values, starting at `first`, each the
      previous one plus `delta` with `i64::wrapping_add`. */
  function RleRun(first: i64, delta: i64, count: nat): (r: seq<i64>)
    ensures |r| == count
    decreases count
  {
    if count == 0 then [] else [first] + RleRun(WrapI64(first + delta), delta, count - 1)
  }

  /** `decode_rle`, on the bytes after the header. Varint values wider than
      64 bits are reduced to their low 64 bits. */
  function DecodeRle(src: seq<byte>): (r: Result<seq<i64>, DecodeError>)
    ensures |src| < 8 <==> r == Err(RleNotEnoughData)
    ensures r.Ok? ==> |src| >= 10
    ensures r.Ok? && |r.value| > 0 ==> r.value[0] == ZigZag.Decode(FromBytes(src[..8]))
  {
    if |src| < 8 then Err(RleNotEnoughData)
    else
      var delta := Varint.Decode(src[8..]);
      if delta.1 == 0 then Err(RleBadDelta)
      else
        var count := Varint.Decode(src[8 + delta.1..]);
        if count.1 == 0 then Err(RleBadCount)
        else
          var first := ZigZag.Decode(FromBytes(src[..8]));
          Ok(RleRun(first, ZigZag.Decode(Wrap64(delta.0)), Wrap64(count.0)))
  }

  /** `decode_simple8b`, on the bytes after the header, with the two defects
      recorded under Findings corrected: eight bytes (the first value alone)
      are enough, and the running sum wraps like the other formats'. */
  function DecodeSimple8b(src: seq<byte>, packer: Simple8b): (r: Result<seq<i64>, DecodeError>)
    ensures |src| < 8 <==> r.Err?
    ensures r.Ok? ==> |r.value| == 1 + |packer.unpack(src[8..])|
    ensures r.Ok? ==> r.value[0] == ZigZag.Decode(FromBytes(src[..8]))
  {
    if |src| < 8 then Err(Simple8bNotEnoughData)
    else
      var first := ZigZag.Decode(FromBytes(src[..8]));
      Ok([first] + PrefixSums(packer.unpack(src[8..]), first))
  }

  /** `decode_all`: an empty block decodes to nothing; otherwise the high
      nibble of the first byte selects the format, and any other nibble is
      an invalid block encoding. */
  function DecodeAll(src: seq<byte>, packer: Simple8b): (r: Result<seq<i64>, DecodeError>)
    ensures src == [] ==> r == Ok([])
    ensures r == Err(InvalidBlockEncoding) <==> src != [] && src[0] / 16 > RLE
    ensures src != [] && src[0] / 16 == UNCOMPRESSED ==> r == DecodeUncompressed(src[1..])
    ensures src != [] && src[0] / 16 == RLE ==> r == DecodeRle(src[1..])
    ensures src != [] && src[0] / 16 == SIMPLE8B ==> r == DecodeSimple8b(src[1..], packer)
  {
    if |src| == 0 then Ok([])
    else
      var encoding := src[0] / 16;
      if encoding == UNCOMPRESSED then DecodeUncompressed(src[1..])
      else if encoding == RLE then DecodeRle(src[1..])
      else if encoding == SIMPLE8B then DecodeSimple8b(src[1..], packer)
      else Err(InvalidBlockEncoding)
  }
}
