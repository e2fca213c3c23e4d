/** Fixed-width machine integers as the integer block codec sees them:
    bytes, `u64` and `i64` values, two's-complement reinterpretation,
    wrapping arithmetic, and big-endian byte order (`to_be_bytes` /
    `from_be_bytes`). */
module Words {

  const TWO_63: int := 0x8000_0000_0000_0000
  const TWO_64: int := 0x1_0000_0000_0000_0000

  type byte = x: int | 0 <= x < 0x100
  type u64 = x: int | 0 <= x < 0x1_0000_0000_0000_0000
  type i64 = x: int | -0x8000_0000_0000_0000 <= x < 0x8000_0000_0000_0000

  /** `u as i64`: the same 64 bits read as a two's-complement number. */
  function AsI64(u: u64): (r: i64)
    ensures u < TWO_63 ==> r == u
    ensures u >= TWO_63 ==> r == u - TWO_64
  {
    if u < TWO_63 then u else u - TWO_64
  }

  /** `v as u64`: the same 64 bits read as an unsigned number. */
  function AsU64(v: i64): (r: u64)
    ensures v >= 0 ==> r == v
    ensures v < 0 ==> r == v + TWO_64
  {
    if v >= 0 then v else v + TWO_64
  }

  /** Reinterpreting in one direction and back gives the value unchanged. */
  lemma ReinterpretRoundTrip(v: i64, u: u64)
    ensures AsI64(AsU64(v)) == v
    ensures AsU64(AsI64(u)) == u
  {
  }

  /** The low 64 bits of an unbounded integer, read unsigned. */
  function Wrap64(x: int): (r: u64)
    ensures 0 <= x < TWO_64 ==> r == x
  {
    x % TWO_64
  }

  /** The low 64 bits of an unbounded integer, read signed: the result of
      `wrapping_add` / `wrapping_sub` on `i64` for the exact sum or
      difference `x`. */
  function WrapI64(x: int): (r: i64)
    ensures -TWO_63 <= x < TWO_63 ==> r == x
  {
    AsI64(Wrap64(x))
  }

  /** Wrapping is insensitive to adding multiples of 2^64. */
  lemma WrapShift(x: int, k: int)
    ensures WrapI64(x + k * TWO_64) == WrapI64(x)
  {
    assert (x + k * TWO_64) % TWO_64 == x % TWO_64;
  }

  /** Wrapping an intermediate result does not change the final wrapped
      value: `a.wrapping_add(b wrapped)` is `(a + b)` wrapped. */
  lemma WrapAddWrap(a: int, b: int)
    ensures WrapI64(a + WrapI64(b)) == WrapI64(a + b)
  {
    var q := b / TWO_64;
    assert b == q * TWO_64 + b % TWO_64;
    if b % TWO_64 < TWO_63 {
      assert a + WrapI64(b) == (a + b) + (-q) * TWO_64;
      WrapShift(a + b, -q);
    } else {
      assert a + WrapI64(b) == (a + b) + (-q - 1) * TWO_64;
      WrapShift(a + b, -q - 1);
    }
  }

  /** Adding a wrapped difference back recovers the value: for any two
      `i64` values, `a.wrapping_add(b.wrapping_sub(a)) == b`. */
  lemma WrapDifferenceRecovers(a: i64, b: i64)
    ensures WrapI64(a + WrapI64(b - a)) == b
  {
    WrapAddWrap(a, b - a);
  }

  /** `u64::wrapping_sub` on the unsigned readings of two `i64` values,
      read back as `i64`, is their wrapped signed difference. */
  lemma UnsignedSubIsSignedSub(a: i64, b: i64)
    ensures AsI64(Wrap64(AsU64(b) - AsU64(a))) == WrapI64(b - a)
  {
    var k := (if b < 0 then 1 else 0) - (if a < 0 then 1 else 0);
    assert AsU64(b) - AsU64(a) == (b - a) + k * TWO_64;
    WrapShift(b - a, k);
  }

  function Pow256(n: nat): (r: nat)
    ensures r >= 1
  {
    if n == 0 then 1 else 256 * Pow256(n - 1)
  }

  lemma Pow256Of8()
    ensures Pow256(8) == TWO_64
  {
    assert Pow256(2) == 0x1_0000;
    assert Pow256(4) == 0x1_0000_0000 by {
      assert Pow256(3) == 0x100_0000;
    }
    assert Pow256(6) == 0x1_0000_0000_0000 by {
      assert Pow256(5) == 0x100_0000_0000;
    }
    assert Pow256(7) == 0x100_0000_0000_0000;
  }

  /** The `n` low-order bytes of `u`, most significant first. */
  function ToBigEndian(u: nat, n: nat): (r: seq<byte>)
    ensures |r| == n
  {
    if n == 0 then [] else ToBigEndian(u / 256, n - 1) + [u % 256]
  }

  /** The number whose big-endian bytes are `bs`. */
  function FromBigEndian(bs: seq<byte>): (r: nat)
    ensures r < Pow256(|bs|)
  {
    if |bs| == 0 then 0
    else FromBigEndian(bs[..|bs| - 1]) * 256 + bs[|bs| - 1]
  }

  lemma DivideBelowPower(u: nat, p: nat)
    requires u < 256 * p
    ensures u / 256 < p
  {
  }

  /** Writing a value that fits in `n` bytes and reading it back gives it
      unchanged. */
  lemma {:induction false} BigEndianRoundTrip(u: nat, n: nat)
    requires u < Pow256(n)
    ensures FromBigEndian(ToBigEndian(u, n)) == u
  {
    if n > 0 {
      var bs := ToBigEndian(u, n);
      var init := ToBigEndian(u / 256, n - 1);
      assert bs[..n - 1] == init && bs[n - 1] == u % 256;
      DivideBelowPower(u, Pow256(n - 1));
      BigEndianRoundTrip(u / 256, n - 1);
      assert FromBigEndian(bs) == FromBigEndian(init) * 256 + u % 256;
    }
  }

  /** Reading bytes and writing the value back in as many bytes gives the
      bytes unchanged. */
  lemma {:induction false} BigEndianBytesRoundTrip(bs: seq<byte>)
    ensures ToBigEndian(FromBigEndian(bs), |bs|) == bs
  {
    if |bs| > 0 {
      var init := bs[..|bs| - 1];
      var v := FromBigEndian(bs);
      assert v / 256 == FromBigEndian(init);
      assert v % 256 == bs[|bs| - 1];
      BigEndianBytesRoundTrip(init);
      assert bs == init + [bs[|bs| - 1]];
    }
  }

  /** `u64::to_be_bytes`. */
  function ToBytes(u: u64): (r: seq<byte>)
    ensures |r| == 8
  {
    ToBigEndian(u, 8)
  }

  /** `u64::from_be_bytes`. */
  function FromBytes(bs: seq<byte>): (r: u64)
    requires |bs| == 8
  {
    Pow256Of8();
    FromBigEndian(bs)
  }

  lemma BytesRoundTrip(u: u64)
    ensures FromBytes(ToBytes(u)) == u
  {
    Pow256Of8();
    BigEndianRoundTrip(u, 8);
  }

  /** The concatenation of the big-endian bytes of each value. */
  function ConcatBytes(ws: seq<u64>): (r: seq<byte>)
    ensures |r| == 8 * |ws|
  {
    if |ws| == 0 then [] else ToBytes(ws[0]) + ConcatBytes(ws[1..])
  }

  /** A byte string whose length is a multiple of 8, read as consecutive
      big-endian words. */
  function SplitWords(bs: seq<byte>): (r: seq<u64>)
    requires |bs| % 8 == 0
    ensures |r| == |bs| / 8
  {
    if |bs| == 0 then [] else [FromBytes(bs[..8])] + SplitWords(bs[8..])
  }

  lemma {:induction false} WordsRoundTrip(ws: seq<u64>)
    ensures SplitWords(ConcatBytes(ws)) == ws
  {
    if |ws| > 0 {
      var bs := ConcatBytes(ws);
      assert bs[..8] == ToBytes(ws[0]);
      assert bs[8..] == ConcatBytes(ws[1..]);
      BytesRoundTrip(ws[0]);
      WordsRoundTrip(ws[1..]);
    }
  }
}
