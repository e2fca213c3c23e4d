/** Zig-zag encoding of signed 64-bit integers (`zig_zag_encode` and
    `zig_zag_decode` in the integer encoder): small magnitudes of either
    sign become small unsigned numbers. */
module ZigZag {
  import opened Words

  /** `((v << 1) ^ (v >> 63)) as u64`. The shift keeps the low 64 bits of
      `2v`; the arithmetic shift `v >> 63` is 0 for `v >= 0` and all ones
      otherwise, and xor with all ones is the bitwise complement, which on
      an unsigned 64-bit reading is `2^64 - 1 - x`. */
  function Encode(v: i64): (r: u64)
    ensures v >= 0 ==> r == 2 * v
    ensures v < 0 ==> r == -2 * v - 1
  {
    var shifted := Wrap64(2 * v);
    if v < 0 then TWO_64 - 1 - shifted else shifted
  }

  /** `((v >> 1) ^ ((((v & 1) as i64) << 63) >> 63) as u64) as i64`. The
      mask is all ones exactly when the low bit is set, so odd inputs are
      complemented after halving. */
  function Decode(u: u64): (r: i64)
    ensures u % 2 == 0 ==> r == u / 2
    ensures u % 2 == 1 ==> r == -(u / 2) - 1
  {
    var half := u / 2;
    AsI64(if u % 2 == 1 then TWO_64 - 1 - half else half)
  }

  /** Decoding undoes encoding, and encoding undoes decoding: zig-zag is a
      bijection between `i64` and `u64`. */
  lemma RoundTrip(v: i64, u: u64)
    ensures Decode(Encode(v)) == v
    ensures Encode(Decode(u)) == u
  {
  }

  /** Distinct values have distinct encodings. */
  lemma EncodeInjective(a: i64, b: i64)
    requires Encode(a) == Encode(b)
    ensures a == b
  {
    RoundTrip(a, 0);
    RoundTrip(b, 0);
  }

  /** The documented example `[0, -1, 1, -2]` becomes `[0, 1, 2, 3]`, and the
      extreme 32-bit values of the unit test map as it expects. */
  lemma Examples()
    ensures Encode(0) == 0 && Encode(-1) == 1 && Encode(1) == 2 && Encode(-2) == 3
    ensures Encode(-2147483648) == 4294967295 && Encode(2147483647) == 4294967294
    ensures Decode(4294967295) == -2147483648 && Decode(4294967294) == 2147483647
  {
  }
}
