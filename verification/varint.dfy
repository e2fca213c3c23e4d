/** Unsigned base-128 variable-length integers (LEB128), the format the
    integer block codec uses through `encode_var` / `decode_var` for the
    run-length delta and count: seven bits per byte, least significant
    group first, the high bit set on every byte but the last. */
module Varint {
  import opened Words

  /** `encode_var`: the bytes written for `n`. */
  function Encode(n: nat): (r: seq<byte>)
    ensures |r| >= 1
  {
    if n < 128 then [n] else [n % 128 + 128] + Encode(n / 128)
  }

  /** Every byte of an encoding but the last has its high bit set; the last
      has it clear. */
  lemma {:induction false} EncodeShape(n: nat)
    ensures Encode(n)[|Encode(n)| - 1] < 128
    ensures forall i :: 0 <= i < |Encode(n)| - 1 ==> Encode(n)[i] >= 128
  {
    if n >= 128 {
      EncodeShape(n / 128);
      assert Encode(n) == [n % 128 + 128] + Encode(n / 128);
    }
  }

  /** `decode_var`: the value at the front of `bs` and the number of bytes
      it occupies. A count of zero reports that `bs` holds no terminated
      varint (it is empty, or every byte has its high bit set). */
  function Decode(bs: seq<byte>): (r: (nat, nat))
    ensures r.1 <= |bs|
  {
    if |bs| == 0 then (0, 0)
    else if bs[0] < 128 then (bs[0], 1)
    else
      var (v, n) := Decode(bs[1..]);
      if n == 0 then (0, 0) else (bs[0] - 128 + 128 * v, n + 1)
  }

  /** Decoding fails exactly when no byte of the input terminates a varint;
      otherwise it stops at the first byte with the high bit clear. */
  lemma {:induction false} DecodeStopsAtFirstTerminator(bs: seq<byte>)
    ensures Decode(bs).1 == 0 <==> forall i :: 0 <= i < |bs| ==> bs[i] >= 128
    ensures Decode(bs).1 > 0 ==>
      bs[Decode(bs).1 - 1] < 128 && forall i :: 0 <= i < Decode(bs).1 - 1 ==> bs[i] >= 128
  {
    if |bs| > 0 && bs[0] >= 128 {
      DecodeStopsAtFirstTerminator(bs[1..]);
      assert forall i :: 1 <= i < |bs| ==> bs[i] == bs[1..][i - 1];
    }
  }

  /** Decoding an encoded value followed by anything yields the value and
      the encoding's length. */
  lemma {:induction false} RoundTrip(n: nat, rest: seq<byte>)
    ensures Decode(Encode(n) + rest) == (n, |Encode(n)|)
  {
    if n >= 128 {
      var bs := Encode(n) + rest;
      assert bs[1..] == Encode(n / 128) + rest;
      RoundTrip(n / 128, rest);
    }
  }
}
