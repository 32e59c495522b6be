/**
 * uip_add32: adds a 16-bit operand to a 32-bit big-endian number held as
 * four bytes, writing the sum into the four-byte accumulator uip_acc32 with
 * carries propagated byte by byte.
 */
module Add32 {
  import opened Octets

  /**
   * The byte-wise addition as the C code performs it.  `acc32` stands for the
   * global uip_acc32; `op32` may be any four bytes, uip_acc32 itself included.
   * Every store to a u8_t truncates modulo 0x100.  The sum is the 32-bit
   * big-endian value of op32 plus op16, wrapping modulo 2^32.
   */
  method Add32(acc32: array<uint8>, op32: array<uint8>, op16: uint16)
    requires acc32.Length == 4 && op32.Length == 4
    modifies acc32
    ensures BigEndian32(acc32[..]) == (BigEndian32(old(op32[..])) + op16) % TWO_TO_THE_32
    ensures acc32[..] == ToBigEndian32((BigEndian32(old(op32[..])) + op16) % TWO_TO_THE_32)
    ensures op32 != acc32 ==> op32[..] == old(op32[..])
  {
    ghost var o := op32[..];
    var lo, hi := op16 % 0x100, op16 / 0x100;
    StoreColumnSums(acc32, op32, op16);
    ghost var first := acc32[..];
    ByteSums(o, op16, first);
    ghost var c2 := if first[2] < hi then 0x1_0000 else 0;
    ghost var c3 := if first[3] < lo then 0x100 else 0;

    // Carry out of the high byte of op16.
    if acc32[2] < hi {
      CarryIntoByte1(acc32);
    } else {
      SmallMod(BigEndian32(first));
    }
    ghost var middle := BigEndian32(acc32[..]);

    // Carry out of the low byte of op16.
    if acc32[3] < lo {
      CarryIntoByte2(acc32);
    } else {
      SmallMod(middle);
    }
    CarryChain(BigEndian32(first), c2, c3, BigEndian32(o) + op16, middle, BigEndian32(acc32[..]));
    BytesOfBigEndian32(acc32[..]);
  }

  /**
   * The four stores that open uip_add32: the low byte of op16 is added to
   * byte 3, its high byte to byte 2, and bytes 1 and 0 are copied, each
   * column on its own and truncated to 8 bits.  Each byte of op32 is read
   * before the same byte of the accumulator is written, so op32 may be
   * uip_acc32 itself.
   */
  method StoreColumnSums(acc32: array<uint8>, op32: array<uint8>, op16: uint16)
    requires acc32.Length == 4 && op32.Length == 4
    modifies acc32
    ensures acc32[..] == ColumnSums(old(op32[..]), op16)
    ensures op32 != acc32 ==> op32[..] == old(op32[..])
  {
    ghost var o := op32[..];
    acc32[3] := (op32[3] as int + op16 % 0x100) % 0x100;
    acc32[2] := (op32[2] as int + op16 / 0x100) % 0x100;
    acc32[1] := op32[1];
    acc32[0] := op32[0];
    assert acc32[..] == [acc32[0], acc32[1], acc32[2], acc32[3]];
  }

  /** The accumulator after the column-wise sums, before any carry. */
  function ColumnSums(o: seq<uint8>, op16: uint16): (first: seq<uint8>)
    requires |o| == 4
    ensures |first| == 4
  {
    [o[0], o[1], (o[2] as int + op16 / 0x100) % 0x100, (o[3] as int + op16 % 0x100) % 0x100]
  }

  /**
   * `++uip_acc32[1]` and, when that byte wraps to zero, `++uip_acc32[0]`:
   * adds 2^16 to the four-byte number modulo 2^32 and leaves the two low
   * bytes alone.
   */
  method CarryIntoByte1(acc32: array<uint8>)
    requires acc32.Length == 4
    modifies acc32
    ensures BigEndian32(acc32[..]) == (BigEndian32(old(acc32[..])) + 0x1_0000) % TWO_TO_THE_32
    ensures acc32[2] == old(acc32[2]) && acc32[3] == old(acc32[3])
  {
    ghost var a := [acc32[0], acc32[1], acc32[2], acc32[3]];
    assert acc32[..] == a;
    acc32[1] := (acc32[1] as int + 1) % 0x100;
    if acc32[1] == 0 {
      acc32[0] := (acc32[0] as int + 1) % 0x100;
    }
    assert acc32[..] == [acc32[0], acc32[1], a[2], a[3]];
    RippleFrom1(a, acc32[..]);
  }

  /**
   * `++uip_acc32[2]` and, when that byte wraps to zero, the ripple into the
   * two bytes above it: adds 2^8 to the four-byte number modulo 2^32 and
   * leaves the lowest byte alone.
   */
  method CarryIntoByte2(acc32: array<uint8>)
    requires acc32.Length == 4
    modifies acc32
    ensures BigEndian32(acc32[..]) == (BigEndian32(old(acc32[..])) + 0x100) % TWO_TO_THE_32
    ensures acc32[3] == old(acc32[3])
  {
    ghost var a := [acc32[0], acc32[1], acc32[2], acc32[3]];
    assert acc32[..] == a;
    acc32[2] := (acc32[2] as int + 1) % 0x100;
    if acc32[2] == 0 {
      ghost var wrapped := acc32[..];
      assert wrapped == a[2 := 0];
      CarryIntoByte1(acc32);
      WrapByte2(a, wrapped);
      ModAddAssoc(BigEndian32(wrapped), 0x1_0000, 0, BigEndian32(a) + 0x100);
    } else {
      assert acc32[..] == a[2 := a[2] + 1];
    }
  }

  /**
   * The byte-wise sums lose exactly the two column carries: 2^16 when the
   * high byte of op16 overflows its column and 2^8 when the low byte does.
   */
  lemma ByteSums(o: seq<uint8>, op16: uint16, first: seq<uint8>)
    requires |o| == 4 && first == ColumnSums(o, op16)
    ensures BigEndian32(first) + (if first[2] < op16 / 0x100 then 0x1_0000 else 0)
            + (if first[3] < op16 % 0x100 then 0x100 else 0) == BigEndian32(o) + op16
  {
  }

  /**
   * Adding the carries one after the other, each time modulo 2^32, gives
   * the whole sum modulo 2^32.
   */
  lemma ModAddAssoc(x: int, c: int, d: int, z: int)
    requires x + c + d == z
    ensures ((x + c) % TWO_TO_THE_32 + d) % TWO_TO_THE_32 == z % TWO_TO_THE_32
  {
  }

  /** The two carry steps of uip_add32, each modulo 2^32, add up to the sum. */
  lemma CarryChain(x: int, c2: int, c3: int, z: int, middle: int, last: int)
    requires x + c2 + c3 == z
    requires middle == (x + c2) % TWO_TO_THE_32
    requires last == (middle + c3) % TWO_TO_THE_32
    ensures last == z % TWO_TO_THE_32
  {
  }

  /** A value already below 2^32 is its own residue. */
  lemma SmallMod(x: int)
    requires 0 <= x < TWO_TO_THE_32
    ensures x % TWO_TO_THE_32 == x
  {
  }

  /**
   * Incrementing byte 1 with a ripple into byte 0 when it wraps adds 2^16
   * modulo 2^32.
   */
  lemma RippleFrom1(a: seq<uint8>, b: seq<uint8>)
    requires |a| == 4 && |b| == 4
    requires b[3] == a[3] && b[2] == a[2]
    requires b[1] == (a[1] as int + 1) % 0x100
    requires b[0] == if b[1] == 0 then (a[0] as int + 1) % 0x100 else a[0]
    ensures BigEndian32(b) == (BigEndian32(a) + 0x1_0000) % TWO_TO_THE_32
  {
  }

  /**
   * Byte 2 wrapping from 0xff to zero takes 0xff00 off the number; the 2^16
   * carried upwards then makes the net effect an addition of 2^8.
   */
  lemma WrapByte2(a: seq<uint8>, wrapped: seq<uint8>)
    requires |a| == 4 && wrapped == a[2 := 0] && a[2] == 0xff
    ensures BigEndian32(wrapped) + 0x1_0000 == BigEndian32(a) + 0x100
  {
  }
}
