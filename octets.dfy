/**
 * Fixed-width unsigned integers as they appear in the uIP stack (u8_t, u16_t),
 * the host/network byte-order swap and big-endian decoding of byte runs.
 */
module Octets {

  type uint8 = x: int | 0 <= x < 0x100
  type uint16 = x: int | 0 <= x < 0x1_0000

  const TWO_TO_THE_32: int := 0x1_0000_0000

  /** The 16-bit word whose high byte is `hi` and whose low byte is `lo`. */
  function Word(hi: uint8, lo: uint8): (w: uint16)
  {
    hi as int * 0x100 + lo
  }

  /** A word splits back into its two bytes, and is zero only if both are. */
  lemma WordBytes(hi: uint8, lo: uint8)
    ensures Word(hi, lo) / 0x100 == hi && Word(hi, lo) % 0x100 == lo
    ensures Word(hi, lo) == 0 <==> hi == 0 && lo == 0
  {
  }

  /**
   * uip_htons on the little-endian ARM target: the two bytes of a 16-bit
   * value are exchanged.
   */
  function Htons(x: uint16): (r: uint16)
    ensures r / 0x100 == x % 0x100 && r % 0x100 == x / 0x100
  {
    WordBytes(x % 0x100, x / 0x100);
    Word(x % 0x100, x / 0x100)
  }

  /** A 16-bit value is the word of its high and low bytes. */
  lemma WordOfBytes(x: uint16)
    ensures Word(x / 0x100, x % 0x100) == x
  {
  }

  /** Swapping twice gives the value back, so Htons is a bijection on uint16. */
  lemma HtonsInvolution(x: uint16)
    ensures Htons(Htons(x)) == x
  {
  }

  /** Only zero is swapped to zero. */
  lemma HtonsZero(x: uint16)
    ensures Htons(x) == 0 <==> x == 0
  {
  }

  /** Big-endian reading of four bytes, most significant byte first. */
  function BigEndian32(b: seq<uint8>): (v: int)
    requires |b| == 4
    ensures 0 <= v < TWO_TO_THE_32
  {
    ((b[0] as int * 0x100 + b[1]) * 0x100 + b[2]) * 0x100 + b[3]
  }

  /** The four big-endian bytes of a 32-bit value. */
  function ToBigEndian32(v: int): (b: seq<uint8>)
    requires 0 <= v < TWO_TO_THE_32
    ensures |b| == 4
  {
    [v / 0x100_0000, v / 0x1_0000 % 0x100, v / 0x100 % 0x100, v % 0x100]
  }

  /** Encoding then decoding a 32-bit value gives it back. */
  lemma BigEndian32OfBytes(v: int)
    requires 0 <= v < TWO_TO_THE_32
    ensures BigEndian32(ToBigEndian32(v)) == v
  {
    // Not needed for validity; the two digit splits keep the solver's search short.
    assert v / 0x100 == v / 0x1_0000 * 0x100 + v / 0x100 % 0x100;
    assert v / 0x1_0000 == v / 0x100_0000 * 0x100 + v / 0x1_0000 % 0x100;
  }

  /** A value below 2^16 is encoded as two zero bytes and its two bytes. */
  lemma ToBigEndian32Short(v: uint16)
    ensures ToBigEndian32(v) == [0, 0, v / 0x100, v % 0x100]
  {
  }

  /** Shifting `x` up by 8, 16 or 24 bits and adding a smaller `lo` can be undone. */
  lemma Shift8(x: nat, lo: nat)
    requires lo < 0x100
    ensures (x * 0x100 + lo) / 0x100 == x && (x * 0x100 + lo) % 0x100 == lo
  {
  }

  lemma Shift16(x: nat, lo: nat)
    requires lo < 0x1_0000
    ensures (x * 0x1_0000 + lo) / 0x1_0000 == x
  {
  }

  lemma Shift24(x: nat, lo: nat)
    requires lo < 0x100_0000
    ensures (x * 0x100_0000 + lo) / 0x100_0000 == x
  {
  }

  /** Decoding then encoding four bytes gives them back. */
  lemma BytesOfBigEndian32(b: seq<uint8>)
    requires |b| == 4
    ensures ToBigEndian32(BigEndian32(b)) == b
  {
    var v := BigEndian32(b);
    var high, low := b[0] as int * 0x100 + b[1], b[2] as int * 0x100 + b[3];
    Shift8(high * 0x100 + b[2], b[3]);
    Shift8(high, b[2]);
    Shift16(high, low);
    Shift8(b[0], b[1]);
    Shift24(b[0], (b[1] as int * 0x100 + b[2]) * 0x100 + b[3]);
  }
}
