/**
 * Packed colour pixels as the platform hands them out: a 32-bit signed
 * integer holding alpha, red, green and blue in its four bytes, from the
 * most significant byte down (Android's `Color` helpers).
 *
 * The channel extractions below are an assumption about the platform: the
 * channel helpers are taken to be `(p shr 24) and 0xFF`, `(p shr 16) and 0xFF`,
 * `(p shr 8) and 0xFF` and `p and 0xFF`. An arithmetic right shift by k bits
 * is floor division by 2^k, which is what Dafny's `/` does for a positive
 * divisor; masking with 0xFF keeps the low eight bits of the two's
 * complement value, which is Dafny's `%` by 256 (never negative).
 */
module Pixels {

  /** Kotlin's `Int`. */
  newtype Int32 = x: int | -0x8000_0000 <= x < 0x8000_0000

  /** One colour channel, as `Color.red` and its siblings return it. */
  type Channel = c: int | 0 <= c < 0x100

  /** `Color.alpha`: the most significant byte of the pixel's 32 bits. */
  function Alpha(p: Int32): (c: Channel)
    ensures c == Unsigned(p) / 0x100_0000
  {
    ShiftAlpha(p);
    (p as int / 0x100_0000) % 0x100
  }

  /** `Color.red`: the second byte of the pixel's 32 bits. */
  function Red(p: Int32): (c: Channel)
    ensures c == Unsigned(p) / 0x1_0000 % 0x100
  {
    ShiftRed(p);
    (p as int / 0x1_0000) % 0x100
  }

  /** `Color.green`: the third byte of the pixel's 32 bits. */
  function Green(p: Int32): (c: Channel)
    ensures c == Unsigned(p) / 0x100 % 0x100
  {
    ShiftGreen(p);
    (p as int / 0x100) % 0x100
  }

  /** `Color.blue`: the least significant byte of the pixel's 32 bits. */
  function Blue(p: Int32): (c: Channel)
    ensures c == Unsigned(p) % 0x100
  {
    p as int % 0x100
  }

  /** The unsigned reading of the 32 bits of `p`. */
  function Unsigned(p: Int32): (u: nat)
    ensures u < 0x1_0000_0000
    ensures u == p as int || u == p as int + 0x1_0000_0000
  {
    p as int % 0x1_0000_0000
  }

  /**
   * `Color.argb(a, r, g, b)`: the channels shifted into place and or-ed
   * together; the 32-bit result is negative when alpha is 128 or more.
   */
  function Argb(a: Channel, r: Channel, g: Channel, b: Channel): (p: Int32)
    ensures Unsigned(p) == a * 0x100_0000 + r * 0x1_0000 + g * 0x100 + b
  {
    var u := a * 0x100_0000 + r * 0x1_0000 + g * 0x100 + b;
    if u < 0x8000_0000 then u as Int32 else (u - 0x1_0000_0000) as Int32
  }

  // For a negative pixel the unsigned value is 2^32 more; 2^32 is a multiple
  // of every divisor below, so each quotient moves by a whole number of
  // bytes and each channel stays as it was.

  lemma ShiftAlpha(p: Int32)
    ensures (p as int / 0x100_0000) % 0x100 == Unsigned(p) / 0x100_0000
  {
    if p < 0 {
      assert (p as int) / 0x100_0000 == Unsigned(p) / 0x100_0000 - 0x100;
    }
  }

  lemma ShiftRed(p: Int32)
    ensures (p as int / 0x1_0000) % 0x100 == Unsigned(p) / 0x1_0000 % 0x100
  {
    if p < 0 {
      assert (p as int) / 0x1_0000 == Unsigned(p) / 0x1_0000 - 0x1_0000;
    }
  }

  lemma ShiftGreen(p: Int32)
    ensures (p as int / 0x100) % 0x100 == Unsigned(p) / 0x100 % 0x100
  {
    if p < 0 {
      assert (p as int) / 0x100 == Unsigned(p) / 0x100 - 0x100_0000;
    }
  }

  /** The four bytes of a packed value are the packed channels. */
  lemma BytesOfPacked(a: Channel, r: Channel, g: Channel, b: Channel)
    ensures var u := a * 0x100_0000 + r * 0x1_0000 + g * 0x100 + b;
      u / 0x100_0000 == a && u / 0x1_0000 % 0x100 == r && u / 0x100 % 0x100 == g && u % 0x100 == b
  {
    var u := a * 0x100_0000 + r * 0x1_0000 + g * 0x100 + b;
    assert u / 0x100 == a * 0x1_0000 + r * 0x100 + g;
    assert u / 0x1_0000 == a * 0x100 + r;
  }

  /** A 32-bit value is the packing of its four bytes. */
  lemma PackedOfBytes(u: int)
    requires 0 <= u < 0x1_0000_0000
    ensures u == (u / 0x100_0000) * 0x100_0000 + (u / 0x1_0000 % 0x100) * 0x1_0000
                 + (u / 0x100 % 0x100) * 0x100 + u % 0x100
  {
    var q1, q2 := u / 0x100, u / 0x1_0000;
    assert u == q1 * 0x100 + u % 0x100;
    assert q1 / 0x100 == q2;
    assert q1 == q2 * 0x100 + q1 % 0x100;
    assert q2 / 0x100 == u / 0x100_0000;
    assert q2 == (u / 0x100_0000) * 0x100 + q2 % 0x100;
  }

  /** Reading the channels back from a packed pixel gives the packed channels. */
  lemma ChannelsOfArgb(a: Channel, r: Channel, g: Channel, b: Channel)
    ensures Alpha(Argb(a, r, g, b)) == a
    ensures Red(Argb(a, r, g, b)) == r
    ensures Green(Argb(a, r, g, b)) == g
    ensures Blue(Argb(a, r, g, b)) == b
  {
    BytesOfPacked(a, r, g, b);
  }

  /** Every pixel is the packing of its own four channels. */
  lemma ArgbOfChannels(p: Int32)
    ensures Argb(Alpha(p), Red(p), Green(p), Blue(p)) == p
  {
    PackedOfBytes(Unsigned(p));
    UnsignedInjective(p, Argb(Alpha(p), Red(p), Green(p), Blue(p)));
  }

  /** Two pixels with the same 32 bits are the same pixel. */
  lemma UnsignedInjective(p: Int32, q: Int32)
    requires Unsigned(p) == Unsigned(q)
    ensures p == q
  {
  }
}
