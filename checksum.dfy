/**
 * chksum: the ones'-complement Internet checksum accumulator of RFC 1071
 * (sections 1 and 4.1).  Big-endian 16-bit words are added with end-around
 * carry; an odd trailing byte counts as a word whose low byte is zero.
 *
 * Chksum is the value the C loop computes, written as a fold over the words;
 * ComputeChksum is the loop itself over a region of a byte array.  The
 * reference they are both tied to is EndAroundCarry(sum + WordSum(data)):
 * the plain integer sum of the words folded back into 16 bits.
 */
module Checksum {
  import opened Octets

  const ONES: int := 0xffff

  /**
   * Folds a non-negative integer into 16 bits the way repeated end-around
   * carry does: each carry out of bit 15 is worth 0x10000 and comes back in
   * as 1, so a value above 0xffff loses 0xffff and is folded again.  Zero
   * stays zero and every other value lands in 1..0xffff.
   */
  function EndAroundCarry(n: nat): (r: uint16)
    ensures r == 0 <==> n == 0
    ensures r <= n
  {
    if n <= ONES then n else EndAroundCarry(n - ONES)
  }

  /** End-around carry keeps the residue modulo 0xffff. */
  lemma {:induction false} EndAroundCarryCongruent(n: nat)
    ensures EndAroundCarry(n) % ONES == n % ONES
  {
    if n > ONES {
      EndAroundCarryCongruent(n - ONES);
    }
  }

  /**
   * Adding the ones' complement of a folded sum to the unfolded sum folds to
   * 0xffff, negative zero.
   */
  lemma {:induction false} EndAroundCarryComplement(n: nat)
    ensures EndAroundCarry(n + ONES - EndAroundCarry(n)) == ONES
  {
    if n > ONES {
      EndAroundCarryComplement(n - ONES);
      assert n + ONES - EndAroundCarry(n) == (n - ONES + ONES - EndAroundCarry(n - ONES)) + ONES;
    }
  }

  /** Folding an already folded partial sum changes nothing. */
  lemma {:induction false} EndAroundCarryAbsorbs(n: nat, m: nat)
    ensures EndAroundCarry(EndAroundCarry(n) + m) == EndAroundCarry(n + m)
  {
    if n > ONES {
      EndAroundCarryAbsorbs(n - ONES, m);
      assert EndAroundCarry(n + m) == EndAroundCarry(n - ONES + m);
    }
  }

  /** Equal sums fold alike; stated apart so that callers match the terms. */
  lemma SameFold(a: nat, b: nat)
    requires a == b
    ensures EndAroundCarry(a) == EndAroundCarry(b)
  {
  }

  /** A folded partial sum may stand for the unfolded one it came from. */
  lemma AbsorbInto(n: nat, m: nat, total: nat)
    requires total == n + m
    ensures EndAroundCarry(EndAroundCarry(n) + m) == EndAroundCarry(total)
  {
    EndAroundCarryAbsorbs(n, m);
  }

  /**
   * One step of chksum: `sum += t; if (sum < t) sum++;` on 16-bit unsigned
   * values.  The add wraps exactly when the truncated sum comes out below t,
   * so the step with its carry fed back in is the end-around-carry fold of
   * the true sum of the two 16-bit values.
   */
  function OnesAdd(sum: uint16, t: uint16): (r: uint16)
    ensures r == EndAroundCarry(sum + t)
  {
    var s := (sum as int + t) % 0x1_0000;
    if s < t then s + 1 else s
  }

  /**
   * The plain integer sum of the big-endian 16-bit words of `data`, the last
   * byte of an odd-length run padded with a zero low byte.
   */
  function WordSum(data: seq<uint8>): nat
    decreases |data|
  {
    if |data| == 0 then 0
    else if |data| == 1 then Word(data[0], 0)
    else Word(data[0], data[1]) + WordSum(data[2..])
  }

  /**
   * What chksum(sum, data, len) returns: `sum` and the words of `data`
   * added with end-around carry.  A run of length zero gives back `sum`.
   */
  function Chksum(sum: uint16, data: seq<uint8>): uint16
  {
    EndAroundCarry(sum + WordSum(data))
  }

  /** A run of length zero leaves the running sum untouched. */
  lemma ChksumEmpty(sum: uint16)
    ensures Chksum(sum, []) == sum
  {
  }

  /**
   * One turn of the loop of chksum: adding the word of the next two bytes
   * with the wrap test extends the sum over an even-length prefix by those
   * two bytes.
   */
  lemma ChksumStep(sum: uint16, prefix: seq<uint8>, hi: uint8, lo: uint8)
    requires |prefix| % 2 == 0
    ensures OnesAdd(Chksum(sum, prefix), Word(hi, lo)) == Chksum(sum, prefix + [hi, lo])
  {
    WordSumAppend(prefix, [hi, lo]);
    assert WordSum([hi, lo]) == Word(hi, lo) by {
      assert [hi, lo][2..] == [];
    }
    AddFolded(sum + WordSum(prefix), Word(hi, lo), sum + WordSum(prefix + [hi, lo]));
  }

  /**
   * The odd trailing byte of chksum: it is added as a word whose low byte is
   * zero, which extends the sum over an even-length prefix by that byte.
   */
  lemma ChksumLastByte(sum: uint16, prefix: seq<uint8>, hi: uint8)
    requires |prefix| % 2 == 0
    ensures OnesAdd(Chksum(sum, prefix), Word(hi, 0)) == Chksum(sum, prefix + [hi])
  {
    WordSumAppend(prefix, [hi]);
    AddFolded(sum + WordSum(prefix), Word(hi, 0), sum + WordSum(prefix + [hi]));
  }

  /** One wrap-tested 16-bit add to a folded sum folds the extended sum. */
  lemma AddFolded(n: nat, t: uint16, total: nat)
    requires total == n + t
    ensures OnesAdd(EndAroundCarry(n), t) == EndAroundCarry(total)
  {
    EndAroundCarryAbsorbs(n, t);
  }

  /**
   * The loop of chksum over `len` bytes of `buf` starting at `start`;
   * `i` is the distance of dataptr from data.  The loop runs while at least
   * two bytes remain, then a single remaining byte is added as its own word.
   */
  method ComputeChksum(sum: uint16, buf: array<uint8>, start: nat, len: nat) returns (r: uint16)
    requires start + len <= buf.Length
    ensures r == Chksum(sum, buf[start..start + len])
  {
    ghost var data := buf[start..start + len];
    var acc: uint16 := sum;
    var i := 0;
    while i + 1 < len
      invariant i <= len && i % 2 == 0
      invariant acc == Chksum(sum, data[..i])
    {
      assert buf[start + i] == data[i] && buf[start + i + 1] == data[i + 1];
      acc := OnesAdd(acc, Word(buf[start + i], buf[start + i + 1]));
      ChksumStep(sum, data[..i], data[i], data[i + 1]);
      assert data[..i] + [data[i], data[i + 1]] == data[..i + 2];
      i := i + 2;
    }
    if i + 1 == len {
      assert buf[start + i] == data[i];
      acc := OnesAdd(acc, Word(buf[start + i], 0));
      ChksumLastByte(sum, data[..i], data[i]);
      assert data[..i] + [data[i]] == data;
    } else {
      assert data[..i] == data;
    }
    r := acc;
  }

  /** Words of an even-length prefix and of what follows it add up separately. */
  lemma {:induction false} WordSumAppend(a: seq<uint8>, b: seq<uint8>)
    requires |a| % 2 == 0
    ensures WordSum(a + b) == WordSum(a) + WordSum(b)
    decreases |a|
  {
    if |a| == 0 {
      assert a + b == b;
    } else {
      assert (a + b)[2..] == a[2..] + b;
      WordSumAppend(a[2..], b);
    }
  }

  /**
   * Chained calls compose: summing an even-length `a` and then `b` from the
   * partial result gives the sum over `a + b`.  upper_layer_chksum relies on
   * this to add the pseudo-header, the addresses and the payload separately.
   */
  lemma ChksumCompose(sum: uint16, a: seq<uint8>, b: seq<uint8>)
    requires |a| % 2 == 0
    ensures Chksum(Chksum(sum, a), b) == Chksum(sum, a + b)
  {
    WordSumAppend(a, b);
    AbsorbInto(sum + WordSum(a), WordSum(b), sum + WordSum(a + b));
  }

  /** Appending one zero byte adds a zero word or pads the odd byte as chksum does. */
  lemma {:induction false} WordSumPad(data: seq<uint8>)
    ensures WordSum(data + [0]) == WordSum(data)
    decreases |data|
  {
    if |data| >= 2 {
      assert (data + [0])[2..] == data[2..] + [0];
      WordSumPad(data[2..]);
    }
  }

  /**
   * The odd trailing byte is summed as (byte << 8): the checksum of `data`
   * equals that of `data` with an explicit zero byte appended.  This holds
   * for every length, odd or even.
   */
  lemma ChksumPad(sum: uint16, data: seq<uint8>)
    ensures Chksum(sum, data) == Chksum(sum, data + [0])
  {
    WordSumPad(data);
  }

  /** The words add up to zero exactly when every byte is zero. */
  lemma {:induction false} WordSumZero(data: seq<uint8>)
    ensures WordSum(data) == 0 <==> forall i :: 0 <= i < |data| ==> data[i] == 0
    decreases |data|
  {
    if |data| >= 2 {
      WordSumZero(data[2..]);
      if WordSum(data) == 0 {
        forall i | 2 <= i < |data| ensures data[i] == 0 {
          assert data[i] == data[2..][i - 2];
        }
      }
    }
  }

  /**
   * A checksum is zero only when nothing non-zero went into it: the initial
   * sum and every byte of the data are zero.
   */
  lemma ChksumZero(sum: uint16, data: seq<uint8>)
    ensures Chksum(sum, data) == 0 <==> sum == 0 && forall i :: 0 <= i < |data| ==> data[i] == 0
  {
    WordSumZero(data);
  }

  /**
   * The receiver's test of RFC 1071 section 1: when the ones' complement of
   * the checksum is stored in a zeroed, word-aligned two-byte field and the
   * checksum is computed again over the whole run, the result is 0xffff
   * (negative zero), whose complement is zero.
   */
  lemma ChksumVerifies(head: seq<uint8>, tail: seq<uint8>)
    requires |head| % 2 == 0
    ensures
      var c := ONES - Chksum(0, head + [0, 0] + tail);
      Chksum(0, head + [c / 0x100, c % 0x100] + tail) == ONES
  {
    var c := ONES - Chksum(0, head + [0, 0] + tail);
    var field: seq<uint8> := [c / 0x100, c % 0x100];
    WordSumSplit(head, [0, 0], tail);
    WordSumSplit(head, field, tail);
    assert WordSum(field) == c by {
      assert field[2..] == [];
      WordOfBytes(c);
    }
    assert WordSum([0, 0]) == 0 by {
      assert [0, 0][2..] == [];
    }
    EndAroundCarryComplement(WordSum(head) + WordSum(tail));
  }

  /** The words of three runs, the first two of even length, add up separately. */
  lemma WordSumSplit(head: seq<uint8>, field: seq<uint8>, tail: seq<uint8>)
    requires |head| % 2 == 0 && |field| % 2 == 0
    ensures WordSum(head + field + tail) == WordSum(head) + WordSum(field) + WordSum(tail)
  {
    assert head + field + tail == head + (field + tail);
    WordSumAppend(head, field + tail);
    WordSumAppend(field, tail);
  }
}
