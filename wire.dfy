/** The IDLE and END messages of `triangle_counting_mpi` carry a 64-bit
    partial sum in two 32-bit `int` words: the high word is the sum shifted
    right by 30 bits, the low word its bottom 30 bits. The receiver rebuilds
    the sum as (high << 30) | low, with the shift done on a 32-bit `int`. */
module Wire {

  const Two30: int := 0x4000_0000
  const Two31: int := 0x8000_0000
  const Two32: int := 0x1_0000_0000
  const Two61: int := 0x2000_0000_0000_0000
  const Two63: int := 0x8000_0000_0000_0000

  /** The 32-bit two's-complement `int` a value is stored as: the one value
      in [-2^31, 2^31) congruent to x modulo 2^32. */
  function Wrap32(x: int): (w: int)
    ensures -Two31 <= w < Two31
    ensures (x - w) % Two32 == 0
  {
    var m := x % Two32;
    if m >= Two31 then m - Two32 else m
  }

  /** `send[1] = node_ans >> 30`: an arithmetic shift, stored into an
      `int`. */
  function EncodeHi(x: int): (hi: int)
    ensures -Two31 <= hi < Two31
    ensures 0 <= x < Two61 ==> hi * Two30 <= x < (hi + 1) * Two30
  {
    Wrap32(x / Two30)
  }

  /** `send[2] = node_ans & ((1 << 30) - 1)`: the bottom 30 bits. */
  function EncodeLo(x: int): (lo: int)
    ensures 0 <= lo < Two30
    ensures (x - lo) % Two30 == 0
  {
    x % Two30
  }

  /** `(recv[1] << 30) | recv[2]` as written: the shift is on a 32-bit
      `int`, so the high word's top bits fall off. The low 30 bits of the
      shifted word are zero, so or-ing in a 30-bit low word adds it. */
  function DecodeAsWritten(hi: int, lo: int): (x: int)
    requires 0 <= lo < Two30
    ensures -Two31 <= x < Two31
  {
    Wrap32(hi * Two30) + lo
  }

  /** The rebuild with the shift done in 64 bits, as the sum's own width
      calls for. */
  function Decode(hi: int, lo: int): (x: int)
    requires -Two31 <= hi < Two31 && 0 <= lo < Two30
    ensures -Two61 <= x < Two61
    ensures EncodeLo(x) == lo
  {
    hi * Two30 + lo
  }

  /** Wrap32 is determined by congruence. */
  lemma Wrap32Unique(x: int, y: int)
    requires -Two31 <= y < Two31 && (x - y) % Two32 == 0
    ensures Wrap32(x) == y
  {
    var k := (x - y) / Two32;
    assert x - y == k * Two32;
    assert x % Two32 == (y + k * Two32) % Two32;
  }

  /** The 64-bit rebuild gives back every sum whose high word fits in an
      `int`, and no other non-negative 64-bit sum. */
  lemma {:induction false} RoundTripIff(x: int)
    requires 0 <= x < Two63
    ensures Decode(EncodeHi(x), EncodeLo(x)) == x <==> x < Two61
  {
    var q := x / Two30;
    assert x == q * Two30 + EncodeLo(x);
    if x < Two61 {
      Wrap32Unique(q, q);
    } else {
      assert EncodeHi(x) < Two31 <= q;
    }
  }

  /** The rebuild as written gives back the sum wrapped to 32 bits. */
  lemma {:induction false} AsWrittenDecodeWraps(x: int)
    ensures DecodeAsWritten(EncodeHi(x), EncodeLo(x)) == Wrap32(x)
  {
    var q, lo := x / Two30, EncodeLo(x);
    assert x == q * Two30 + lo;
    var hi := EncodeHi(x);
    var k := (q - hi) / Two32;
    assert q - hi == k * Two32;
    assert hi * Two30 == q * Two30 - k * Two32 * Two30;
    var w := Wrap32(hi * Two30);
    var j := (hi * Two30 - w) / Two32;
    assert hi * Two30 - w == j * Two32;
    WrapOfMultiple(hi, w);
    Wrap32Unique(x, w + lo);
  }

  /** Wrapping a multiple of 2^30 to 32 bits leaves a multiple of 2^30, so
      there is room for a 30-bit low word below 2^31. */
  lemma WrapOfMultiple(hi: int, w: int)
    requires w == Wrap32(hi * Two30)
    ensures w == -Two31 || w == -Two30 || w == 0 || w == Two30
  {
    var m := (hi * Two30) % Two32;
    var h := hi % 4;
    assert hi == (hi / 4) * 4 + h;
    assert hi * Two30 == (hi / 4) * Two32 + h * Two30;
    assert m == h * Two30;
  }

  /** The rebuild as written is exact precisely for sums below 2^31. */
  lemma {:induction false} AsWrittenRoundTripIff(x: int)
    requires 0 <= x
    ensures DecodeAsWritten(EncodeHi(x), EncodeLo(x)) == x <==> x < Two31
  {
    AsWrittenDecodeWraps(x);
    if x < Two31 {
      Wrap32Unique(x, x);
    }
  }

  /** A sum of 2^31 comes back as -2^31. */
  lemma {:induction false} AsWrittenLosesTwo31()
    ensures DecodeAsWritten(EncodeHi(Two31), EncodeLo(Two31)) == -Two31
  {
    AsWrittenDecodeWraps(Two31);
    Wrap32Unique(Two31, -Two31);
  }
}
