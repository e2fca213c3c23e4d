/** `decode_all` as the source writes it, appending to an existing vector,
    with the simple8b path exactly as written: its length check, its
    overflowing `+=`, and its running sum seeded from the vector's first
    element. Each defect has a concrete input that shows it, next to the
    corrected behaviour of `IntegerCodec.DecodeAll`. */
module IntegerCodecFindings {
  import opened Common
  import opened Words
  import ZigZag
  import opened IntegerCodec
  import IntegerCodecProofs

  /** A failure of the code as written: a decoding error, or the panic of
      an `i64` addition that overflows (debug builds check `+=`). */
  datatype Failure = Invalid(error: DecodeError) | AddOverflow

  /** The running sums with a plain `+=`: `None` when one of them leaves
      the `i64` range. */
  function CheckedSums(ws: seq<u64>, prev: i64): (r: Option<seq<i64>>)
    ensures r.Some? ==> |r.value| == |ws|
  {
    if |ws| == 0 then Some([])
    else
      var next := prev + ZigZag.Decode(ws[0]);
      if next < -TWO_63 || next >= TWO_63 then None
      else
        match CheckedSums(ws[1..], next)
        case None => None
        case Some(rest) => Some([next] + rest)
  }

  /** Where no plain sum overflows, it is the wrapping sum. */
  lemma {:induction false} CheckedSumsAreWrappingSums(ws: seq<u64>, prev: i64)
    requires CheckedSums(ws, prev).Some?
    ensures CheckedSums(ws, prev).value == PrefixSums(ws, prev)
  {
    if |ws| > 0 {
      var next := prev + ZigZag.Decode(ws[0]);
      assert WrapI64(next) == next;
      CheckedSumsAreWrappingSums(ws[1..], next);
    }
  }

  /** `decode_simple8b` as written, on the bytes after the header, pushing
      onto `dst`: it demands nine bytes, and its running sum starts from
      `dst[0]` once the first value has been pushed. */
  function DecodeSimple8bAsWritten(src: seq<byte>, dst: seq<i64>, packer: Simple8b): (r: Result<seq<i64>, Failure>)
    ensures |src| < 9 ==> r == Err(Invalid(Simple8bNotEnoughData))
    ensures r.Ok? ==> |r.value| == |dst| + 1 + |packer.unpack(src[8..])| && r.value[..|dst|] == dst
  {
    if |src| < 9 then Err(Invalid(Simple8bNotEnoughData))
    else
      var pushed := dst + [ZigZag.Decode(FromBytes(src[..8]))];
      match CheckedSums(packer.unpack(src[8..]), pushed[0])
      case None => Err(AddOverflow)
      case Some(rest) =>
        assert (pushed + rest)[..|dst|] == dst;
        Ok(pushed + rest)
  }

  /** The outcome of a corrected decoder appended to `dst`. */
  function Appended(dst: seq<i64>, r: Result<seq<i64>, DecodeError>): Result<seq<i64>, Failure>
  {
    match r
    case Ok(values) => Ok(dst + values)
    case Err(e) => Err(Invalid(e))
  }

  /** `decode_all` as written, pushing onto `dst`. */
  function DecodeAllAsWritten(src: seq<byte>, dst: seq<i64>, packer: Simple8b): (r: Result<seq<i64>, Failure>)
    ensures src == [] ==> r == Ok(dst)
    ensures src != [] && src[0] / 16 != SIMPLE8B ==> r == Appended(dst, DecodeAll(src, packer))
  {
    if |src| == 0 then Ok(dst)
    else
      var encoding := src[0] / 16;
      if encoding == UNCOMPRESSED then Appended(dst, DecodeUncompressed(src[1..]))
      else if encoding == RLE then Appended(dst, DecodeRle(src[1..]))
      else if encoding == SIMPLE8B then DecodeSimple8bAsWritten(src[1..], dst, packer)
      else Err(Invalid(InvalidBlockEncoding))
  }

  /** Into an empty vector, a simple8b block of nine bytes or more whose
      plain sums stay in range decodes as the corrected decoder does. */
  lemma AsWrittenAgreesWithoutDefects(src: seq<byte>, packer: Simple8b)
    requires |src| >= 9
    requires CheckedSums(packer.unpack(src[8..]), ZigZag.Decode(FromBytes(src[..8]))).Some?
    ensures DecodeSimple8bAsWritten(src, [], packer) == Appended([], DecodeSimple8b(src, packer))
  {
    var first := ZigZag.Decode(FromBytes(src[..8]));
    var ws := packer.unpack(src[8..]);
    assert [] + [first] == [first];
    CheckedSumsAreWrappingSums(ws, first);
    assert [] + ([first] + PrefixSums(ws, first)) == [first] + PrefixSums(ws, first);
  }

  /** The block `encode_all` writes for two values whose zig-zag encoded
      step fits simple8b: the header, the first value, and the packed step. */
  lemma TwoValueBlock(a: i64, b: i64, packer: Simple8b)
    requires ZigZag.Encode(WrapI64(b as int - a)) <= MAX_VALUE
    ensures var d := Deltas([a, b]);
      d[1] == ZigZag.Encode(WrapI64(b as int - a))
      && EncodeAll([a, b], packer) == [SIMPLE8B * 16] + ToBytes(ZigZag.Encode(a)) + packer.pack([d[1]])
  {
    var src: seq<i64> := [a, b];
    var d := Deltas(src);
    IntegerCodecProofs.DeltaMeaning(src, 1);
    assert IntegerCodecProofs.Step(src, 1) == WrapI64(b as int - a);
    ZigZag.RoundTrip(WrapI64(b as int - a), d[1]);
    assert d[1..] == [d[1]];
    assert MaxOf([d[1]]) == d[1];
  }

  /** Defect 1, as written: `[i64::MIN, i64::MAX]` is encoded as simple8b,
      and decoding adds the step -1 to `i64::MIN` with `+=`, which
      overflows. */
  lemma OverflowAsWritten(packer: Simple8b)
    requires packer.unpack(packer.pack([1])) == [1]
    requires |packer.pack([1])| > 0
    ensures var src: seq<i64> := [-TWO_63, TWO_63 - 1];
      EncodeAll(src, packer)[0] / 16 == SIMPLE8B
      && DecodeAllAsWritten(EncodeAll(src, packer), [], packer) == Err(AddOverflow)
  {
    var src: seq<i64> := [-TWO_63, TWO_63 - 1];
    assert WrapI64(src[1] as int - src[0]) == -1;
    TwoValueBlock(src[0], src[1], packer);
    var block := EncodeAll(src, packer);
    var body := block[1..];
    assert body[..8] == ToBytes(ZigZag.Encode(src[0])) && body[8..] == packer.pack([1]);
    BytesRoundTrip(ZigZag.Encode(src[0]));
    ZigZag.RoundTrip(src[0], ZigZag.Encode(src[0]));
  }

  /** Defect 1, corrected: with the wrapping sum the same values decode
      back, as every sequence does (`IntegerCodecProofs.RoundTrip`). */
  lemma OverflowCorrected(packer: Simple8b)
    requires packer.unpack(packer.pack([1])) == [1]
    ensures var src: seq<i64> := [-TWO_63, TWO_63 - 1];
      DecodeAll(EncodeAll(src, packer), packer) == Ok(src)
  {
    var src: seq<i64> := [-TWO_63, TWO_63 - 1];
    assert WrapI64(src[1] as int - src[0]) == -1;
    TwoValueBlock(src[0], src[1], packer);
    assert Deltas(src)[1..] == [1];
    IntegerCodecProofs.RoundTrip(src, packer);
  }

  /** Defect 2, as written: a single value is encoded as a simple8b block
      of the header and eight bytes when the packer writes nothing for no
      values, and the nine-byte check rejects it. */
  lemma SingleValueAsWritten(x: i64, packer: Simple8b)
    requires packer.pack([]) == []
    ensures |EncodeAll([x], packer)| == 9
      && EncodeAll([x], packer)[0] / 16 == SIMPLE8B
      && DecodeAllAsWritten(EncodeAll([x], packer), [], packer) == Err(Invalid(Simple8bNotEnoughData))
  {
    assert Deltas([x])[1..] == [];
  }

  /** Defect 2, corrected: the same block decodes back to the value. */
  lemma SingleValueCorrected(x: i64, packer: Simple8b)
    requires packer.unpack(packer.pack([])) == []
    ensures DecodeAll(EncodeAll([x], packer), packer) == Ok([x])
  {
    assert Deltas([x])[1..] == [];
    IntegerCodecProofs.RoundTrip([x], packer);
  }

  /** Defect 3, as written: decoding the block for `[0, 1]` onto `[5]`
      pushes 0, then sums from `dst[0]`, which is 5, not the 0 just
      pushed. */
  lemma StaleStartAsWritten(packer: Simple8b)
    requires packer.unpack(packer.pack([2])) == [2]
    requires |packer.pack([2])| > 0
    ensures DecodeAllAsWritten(EncodeAll([0, 1], packer), [5], packer) == Ok([5, 0, 6])
  {
    assert WrapI64(1 as int - 0) == 1;
    TwoValueBlock(0, 1, packer);
    assert ZigZag.Encode(0) == 0;
    var block := EncodeAll([0, 1], packer);
    var body := block[1..];
    assert block[0] / 16 == SIMPLE8B && |body| >= 9;
    assert body[..8] == ToBytes(0) && body[8..] == packer.pack([2]);
    BytesRoundTrip(0);
    assert ZigZag.Decode(0) == 0 && ZigZag.Decode(2) == 1;
    assert [2][1..] == [] && [6] + [] == [6];
    assert CheckedSums([2], 5) == Some([6]);
    assert [5] + [0] == [5, 0] && [5, 0] + [6] == [5, 0, 6];
  }

  /** Defect 3, corrected: the corrected decoder's values, appended to
      `[5]`, are `[5, 0, 1]`. */
  lemma StaleStartCorrected(packer: Simple8b)
    requires packer.unpack(packer.pack([2])) == [2]
    ensures Appended([5], DecodeAll(EncodeAll([0, 1], packer), packer)) == Ok([5, 0, 1])
  {
    assert WrapI64(1 as int - 0) == 1;
    TwoValueBlock(0, 1, packer);
    assert Deltas([0, 1])[1..] == [2];
    IntegerCodecProofs.RoundTrip([0, 1], packer);
    assert [5] + [0, 1] == [5, 0, 1];
  }
}
