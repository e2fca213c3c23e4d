/** Properties of the integer block codec: what each delta means, when RLE
    is chosen, what the RLE decoder produces, and that decoding an encoded
    block gives back the values on all three formats. */
module IntegerCodecProofs {
  import opened Common
  import opened Words
  import ZigZag
  import Varint
  import opened IntegerCodec

  /** The wrapping difference between value `i` and its predecessor. */
  function Step(src: seq<i64>, i: nat): i64
    requires 1 <= i < |src|
  {
    WrapI64(src[i] as int - src[i - 1])
  }

  /** The first delta decodes to the first value, and every later delta to
      the wrapping difference between a value and its predecessor. */
  lemma DeltaMeaning(src: seq<i64>, i: nat)
    requires i < |src|
    ensures i == 0 ==> ZigZag.Decode(Deltas(src)[i]) == src[0]
    ensures i > 0 ==> ZigZag.Decode(Deltas(src)[i]) == Step(src, i)
  {
    if i > 0 {
      UnsignedSubIsSignedSub(src[i - 1], src[i]);
    }
  }

  /** RLE is chosen exactly when there are more than two values and, from
      the second value on, every value differs from its predecessor by the
      same amount (modulo 2^64). */
  lemma RleChosenIffConstantStep(src: seq<i64>)
    ensures UseRle(Deltas(src)) <==>
      |src| > 2 && forall i :: 2 <= i < |src| ==> Step(src, i) == Step(src, 1)
  {
    var d := Deltas(src);
    if |src| > 2 {
      DeltaMeaning(src, 1);
      forall i | 2 <= i < |src|
        ensures d[i] == d[1] <==> Step(src, i) == Step(src, 1)
      {
        DeltaMeaning(src, i);
        if Step(src, i) == Step(src, 1) {
          ZigZag.RoundTrip(0, d[i]);
          ZigZag.RoundTrip(0, d[1]);
        }
      }
    }
  }

  /** The RLE decoder's loop has a closed form: value `k` is the first value
      plus `k` steps, wrapped. */
  lemma {:induction false} RleRunClosedForm(first: i64, delta: i64, count: nat, k: nat)
    requires k < count
    ensures RleRun(first, delta, count)[k] == WrapI64(first + k * delta)
    decreases k
  {
    if k > 0 {
      var next := WrapI64(first + delta);
      RleRunClosedForm(next, delta, count - 1, k - 1);
      WrapAddWrap((k - 1) * delta, first + delta);
      assert next + (k - 1) * delta == (k - 1) * delta + WrapI64(first + delta);
      assert (k - 1) * delta + (first + delta) == first + k * delta;
    }
  }

  /** Running sums recover a sequence when each word, zig-zag decoded and
      added (wrapping) to the previous value, gives the next value. */
  ghost predicate StepsRecover(ws: seq<u64>, xs: seq<i64>, prev: i64)
  {
    |ws| == |xs| &&
    forall k :: 0 <= k < |ws| ==> WrapI64(Before(xs, prev, k) + ZigZag.Decode(ws[k])) == xs[k]
  }

  /** The value before position `k`: `prev` for the first. */
  function Before(xs: seq<i64>, prev: i64, k: nat): i64
    requires k <= |xs|
  {
    if k == 0 then prev else xs[k - 1]
  }

  /** Dropping the first word and value keeps the steps recovering, from
      the first value on. */
  lemma StepsRecoverTail(ws: seq<u64>, xs: seq<i64>, prev: i64)
    requires StepsRecover(ws, xs, prev) && |ws| > 0
    ensures StepsRecover(ws[1..], xs[1..], xs[0])
  {
    forall k | 0 <= k < |ws| - 1
      ensures WrapI64(Before(xs[1..], xs[0], k) + ZigZag.Decode(ws[1..][k])) == xs[1..][k]
    {
      assert ws[1..][k] == ws[k + 1] && xs[1..][k] == xs[k + 1];
      assert Before(xs[1..], xs[0], k) == Before(xs, prev, k + 1);
    }
  }

  lemma {:induction false} PrefixSumsRecover(ws: seq<u64>, xs: seq<i64>, prev: i64)
    requires StepsRecover(ws, xs, prev)
    ensures PrefixSums(ws, prev) == xs
  {
    if |ws| > 0 {
      assert WrapI64(Before(xs, prev, 0) + ZigZag.Decode(ws[0])) == xs[0];
      StepsRecoverTail(ws, xs, prev);
      PrefixSumsRecover(ws[1..], xs[1..], xs[0]);
      assert xs == [xs[0]] + xs[1..];
    }
  }

  /** The deltas of a sequence, summed from zero, step through the sequence. */
  lemma DeltasStepThroughValues(src: seq<i64>)
    ensures StepsRecover(Deltas(src), src, 0)
  {
    forall k | 0 <= k < |src|
      ensures WrapI64(Before(src, 0, k) + ZigZag.Decode(Deltas(src)[k])) == src[k]
    {
      DeltaMeaning(src, k);
      if k > 0 {
        WrapDifferenceRecovers(src[k - 1], src[k]);
      }
    }
  }

  /** The running sums of all deltas, started from 0, are the values. */
  lemma PrefixSumsRecoverValues(src: seq<i64>)
    ensures PrefixSums(Deltas(src), 0) == src
  {
    DeltasStepThroughValues(src);
    PrefixSumsRecover(Deltas(src), src, 0);
  }

  /** The running sums of the deltas after the first, started from the first
      value, are the values after the first. */
  lemma PrefixSumsRecoverTail(src: seq<i64>)
    requires src != []
    ensures PrefixSums(Deltas(src)[1..], src[0]) == src[1..]
  {
    DeltasStepThroughValues(src);
    StepsRecoverTail(Deltas(src), src, 0);
    PrefixSumsRecover(Deltas(src)[1..], src[1..], src[0]);
  }

  /** When every value from the second on differs from its predecessor by
      `step` (wrapped), the run from value `j` reproduces the values from `j`
      on. */
  lemma {:induction false} RleRunOfConstantStep(src: seq<i64>, step: i64, j: nat)
    requires forall i :: 1 <= i < |src| ==> Step(src, i) == step
    requires j < |src|
    ensures RleRun(src[j], step, |src| - j) == src[j..]
    decreases |src| - j
  {
    if j + 1 < |src| {
      assert Step(src, j + 1) == step;
      WrapDifferenceRecovers(src[j], src[j + 1]);
      assert WrapI64(src[j] + step) == src[j + 1];
      RleRunOfConstantStep(src, step, j + 1);
      assert src[j..] == [src[j]] + src[j + 1..];
    } else {
      assert src[j..] == [src[j]];
    }
  }

  /** An RLE body (first value, delta varint, count varint) decodes to the
      run it describes. */
  lemma DecodeRleBody(v: u64, delta: u64, count: nat)
    ensures DecodeRle(ToBytes(v) + (Varint.Encode(delta) + Varint.Encode(count)))
         == Ok(RleRun(ZigZag.Decode(v), ZigZag.Decode(delta), Wrap64(count)))
  {
    var t := Varint.Encode(count);
    var u := Varint.Encode(delta) + t;
    var body := ToBytes(v) + u;
    var n := |Varint.Encode(delta)|;
    assert body[..8] == ToBytes(v) && body[8..] == u;
    assert FromBytes(body[..8]) == v by {
      BytesRoundTrip(v);
    }
    assert Varint.Decode(body[8..]) == (delta, n) by {
      Varint.RoundTrip(delta, t);
    }
    assert body[8 + n..] == t by {
      assert u[n..] == t;
    }
    assert Varint.Decode(body[8 + n..]) == (count, |t|) by {
      Varint.RoundTrip(count, []);
      assert t + [] == t;
    }
    assert Wrap64(delta) == delta;
    DecodeRleParts(body, delta, n, count, |t|);
  }

  /** `decode_rle` on a body whose two varints both decode. */
  lemma DecodeRleParts(src: seq<byte>, delta: nat, n: nat, count: nat, m: nat)
    requires |src| >= 8 && Varint.Decode(src[8..]) == (delta, n) && n > 0
    requires Varint.Decode(src[8 + n..]) == (count, m) && m > 0
    ensures DecodeRle(src) == Ok(RleRun(ZigZag.Decode(FromBytes(src[..8])), ZigZag.Decode(Wrap64(delta)), Wrap64(count)))
  {
  }

  /** `decode_rle` reports a bad delta exactly when no byte after the
      first eight ends a varint. */
  lemma DecodeRleBadDelta(src: seq<byte>)
    requires |src| >= 8
    ensures DecodeRle(src) == Err(RleBadDelta) <==> forall i :: 8 <= i < |src| ==> src[i] >= 128
  {
    var rest := src[8..];
    Varint.DecodeStopsAtFirstTerminator(rest);
    if forall i :: 8 <= i < |src| ==> src[i] >= 128 {
      forall i | 0 <= i < |rest|
        ensures rest[i] >= 128
      {
        assert rest[i] == src[i + 8];
      }
    } else {
      var i :| 8 <= i < |src| && src[i] < 128;
      assert rest[i - 8] == src[i];
    }
  }

  /** Each value of a run is the previous one plus the delta, wrapping. */
  lemma {:induction false} RleRunNext(first: i64, delta: i64, count: nat, k: nat)
    requires k + 1 < count
    ensures RleRun(first, delta, count)[k + 1] == WrapI64(RleRun(first, delta, count)[k] + delta)
    decreases k
  {
    var next := WrapI64(first + delta);
    assert RleRun(first, delta, count)[1..] == RleRun(next, delta, count - 1);
    if k > 0 {
      RleRunNext(next, delta, count - 1, k - 1);
    }
  }

  /** A run steps by its delta throughout. */
  lemma RleRunSteps(first: i64, delta: i64, count: nat)
    ensures var run := RleRun(first, delta, count);
      forall k :: 0 <= k < |run| - 1 ==> run[k + 1] == WrapI64(run[k] + delta)
  {
    forall k | 0 <= k < count - 1
      ensures RleRun(first, delta, count)[k + 1] == WrapI64(RleRun(first, delta, count)[k] as int + delta)
    {
      RleRunNext(first, delta, count, k);
    }
  }

  /** What `decode_rle` makes of any body, trailing bytes included: as
      many values as the second varint counts (modulo 2^64), starting from
      the stored first value, each the previous one plus the first varint,
      zig-zag decoded, with wrapping. */
  lemma DecodeRleRun(src: seq<byte>)
    ensures var r := DecodeRle(src);
      r.Ok? ==>
        var delta := Varint.Decode(src[8..]);
        var count := Varint.Decode(src[8 + delta.1..]);
        && |r.value| == Wrap64(count.0)
        && (|r.value| > 0 ==> r.value[0] == ZigZag.Decode(FromBytes(src[..8])))
        && forall k :: 0 <= k < |r.value| - 1 ==> r.value[k + 1] == WrapI64(r.value[k] + ZigZag.Decode(Wrap64(delta.0)))
  {
    var r := DecodeRle(src);
    if r.Ok? {
      var delta := Varint.Decode(src[8..]);
      var count := Varint.Decode(src[8 + delta.1..]);
      var first := ZigZag.Decode(FromBytes(src[..8]));
      var step := ZigZag.Decode(Wrap64(delta.0));
      DecodeRleParts(src, delta.0, delta.1, count.0, count.1);
      RleRunSteps(first, step, Wrap64(count.0));
    }
  }

  /** The `k`th value a decoded run holds, in closed form: the first value
      plus `k` steps of the decoded delta, with wrapping. */
  lemma DecodeRleValue(src: seq<byte>, k: nat)
    requires DecodeRle(src).Ok? && k < |DecodeRle(src).value|
    ensures var r := DecodeRle(src);
      r.value[k] == WrapI64(r.value[0] + k * ZigZag.Decode(Wrap64(Varint.Decode(src[8..]).0)))
  {
    var r := DecodeRle(src);
    var delta := Varint.Decode(src[8..]);
    var count := Varint.Decode(src[8 + delta.1..]);
    var first := ZigZag.Decode(FromBytes(src[..8]));
    var step := ZigZag.Decode(Wrap64(delta.0));
    DecodeRleParts(src, delta.0, delta.1, count.0, count.1);
    RleRunClosedForm(first, step, Wrap64(count.0), k);
    RleRunClosedForm(first, step, Wrap64(count.0), 0);
  }

  /** An RLE block: the header, the first delta in eight bytes, then the
      common delta and the count as varints. */
  lemma RleBlockLayout(src: seq<i64>, packer: Simple8b)
    requires src != [] && UseRle(Deltas(src))
    ensures var d := Deltas(src);
      EncodeAll(src, packer) == [RLE * 16] + (ToBytes(d[0]) + (Varint.Encode(d[1]) + Varint.Encode(|d|)))
  {
    var d := Deltas(src);
    var body := ToBytes(d[0]) + (Varint.Encode(d[1]) + Varint.Encode(|d|));
    assert EncodeRle(d[0], d[1], |d|) == [0] + body;
  }

  /** When RLE is chosen, every value from the second on differs from its
      predecessor by the first step. */
  lemma RleStepIsConstant(src: seq<i64>, step: i64)
    requires UseRle(Deltas(src))
    requires step == Step(src, 1)
    ensures forall i :: 1 <= i < |src| ==> Step(src, i) == step
  {
    RleChosenIffConstantStep(src);
  }

  /** When RLE is chosen, the run described by the first delta, the second
      delta and the count is the values. */
  lemma RleRunIsValues(src: seq<i64>)
    requires UseRle(Deltas(src))
    ensures RleRun(ZigZag.Decode(Deltas(src)[0]), ZigZag.Decode(Deltas(src)[1]), |src|) == src
  {
    var d := Deltas(src);
    var step := Step(src, 1);
    assert ZigZag.Decode(d[0]) == src[0] by {
      DeltaMeaning(src, 0);
    }
    assert ZigZag.Decode(d[1]) == step by {
      DeltaMeaning(src, 1);
    }
    RleStepIsConstant(src, step);
    RleRunOfConstantStep(src, step, 0);
    assert src[0..] == src;
  }

  /** Decoding an RLE block gives back the values. A Rust `Vec` holds fewer
      than 2^64 elements, so the count fits its 64-bit varint. */
  lemma RoundTripRle(src: seq<i64>, packer: Simple8b)
    requires src != [] && UseRle(Deltas(src))
    requires |src| < TWO_64
    ensures DecodeAll(EncodeAll(src, packer), packer) == Ok(src)
  {
    var d := Deltas(src);
    var body := ToBytes(d[0]) + (Varint.Encode(d[1]) + Varint.Encode(|d|));
    RleBlockLayout(src, packer);
    assert ([RLE * 16] + body)[1..] == body;
    DecodeRleBody(d[0], d[1], |d|);
    RleRunIsValues(src);
  }

  /** Decoding an uncompressed block gives back the values. */
  lemma RoundTripUncompressed(src: seq<i64>, packer: Simple8b)
    requires src != [] && !UseRle(Deltas(src)) && MaxOf(Deltas(src)[1..]) > MAX_VALUE
    ensures DecodeAll(EncodeAll(src, packer), packer) == Ok(src)
  {
    var enc := EncodeAll(src, packer);
    assert enc[1..] == ConcatBytes(Deltas(src));
    WordsRoundTrip(Deltas(src));
    PrefixSumsRecoverValues(src);
  }

  /** Decoding a simple8b block gives back the values, provided the packer
      gives back the deltas it packed. */
  lemma RoundTripSimple8b(src: seq<i64>, packer: Simple8b)
    requires src != [] && !UseRle(Deltas(src)) && MaxOf(Deltas(src)[1..]) <= MAX_VALUE
    requires packer.unpack(packer.pack(Deltas(src)[1..])) == Deltas(src)[1..]
    ensures DecodeAll(EncodeAll(src, packer), packer) == Ok(src)
  {
    var d := Deltas(src);
    var enc := EncodeAll(src, packer);
    var body := enc[1..];
    assert body[..8] == ToBytes(d[0]);
    assert body[8..] == packer.pack(d[1..]);
    BytesRoundTrip(d[0]);
    DeltaMeaning(src, 0);
    PrefixSumsRecoverTail(src);
    assert src == [src[0]] + src[1..];
  }

  /** `decode_all(encode_all(src)) == src` for every sequence of `i64`
      values, the simple8b case assuming only that the packer round-trips
      the deltas handed to it. */
  lemma RoundTrip(src: seq<i64>, packer: Simple8b)
    requires |src| < TWO_64
    requires src != [] ==> packer.unpack(packer.pack(Deltas(src)[1..])) == Deltas(src)[1..]
    ensures DecodeAll(EncodeAll(src, packer), packer) == Ok(src)
  {
    if src != [] {
      if UseRle(Deltas(src)) {
        RoundTripRle(src, packer);
      } else if MaxOf(Deltas(src)[1..]) > MAX_VALUE {
        RoundTripUncompressed(src, packer);
      } else {
        RoundTripSimple8b(src, packer);
      }
    }
  }

  /** The values of the uncompressed unit test select the uncompressed
      format: the third delta, twice `MAX_VALUE`, is too wide for simple8b. */
  lemma UncompressedExample(packer: Simple8b)
    ensures var m: i64 := MAX_VALUE;
            var src: seq<i64> := [-1000, 0, m, 213123421];
            EncodeAll(src, packer)[0] / 16 == UNCOMPRESSED
            && |EncodeAll(src, packer)| == 33
            && DecodeAll(EncodeAll(src, packer), packer) == Ok(src)
  {
    var m: i64 := MAX_VALUE;
    var src: seq<i64> := [-1000, 0, m, 213123421];
    var d := Deltas(src);
    assert d[1] == 2000 && d[2] == 2 * MAX_VALUE;
    assert d[1..][1] == d[2];
    RoundTripUncompressed(src, packer);
  }

  /** The "delta negative" case of the RLE unit test selects RLE and
      decodes back. */
  lemma RleExample(packer: Simple8b)
    ensures var src: seq<i64> := [-350, -200, -50];
            EncodeAll(src, packer)[0] / 16 == RLE
            && DecodeAll(EncodeAll(src, packer), packer) == Ok(src)
  {
    var src: seq<i64> := [-350, -200, -50];
    assert Deltas(src)[1] == 300 && Deltas(src)[2] == 300;
    RoundTripRle(src, packer);
  }
}
