/** CRC-32C: the shift register of section 12.1 of RFC 3720 (without complementing), and the
    crc32 instructions of SSE4.2, which divide a whole operand at once.

    Registers and operands are bit sequences, the least significant bit first.  In the
    reflected form that is the coefficient of the highest power first.
 */
module Crc32c {
  import opened Bytes

  function Bits(x: nat, width: nat): (bits: seq<bool>)
    ensures |bits| == width
  {
    if width == 0 then [] else [x % 2 == 1] + Bits(x / 2, width - 1)
  }

  type Word = w: seq<bool> | |w| == 32 witness Bits(0, 32)

  function Polynomial(): Word {
    Bits(0x82F63B78, 32)
  }

  function Zeros(n: nat): (z: seq<bool>)
    ensures |z| == n && forall i :: 0 <= i < n ==> !z[i]
  {
    seq(n, _ => false)
  }

  function Xor(a: seq<bool>, b: seq<bool>): (c: seq<bool>)
    requires |a| == |b|
    ensures |c| == |a| && forall i :: 0 <= i < |a| ==> c[i] == (a[i] != b[i])
  {
    seq(|a|, i requires 0 <= i < |a| => a[i] != b[i])
  }

  // ----- the shift register -----

  /** One bit of the message. */
  function ShiftBit(crc: Word, bit: bool): Word {
    var shifted := crc[1..] + [false];
    if crc[0] != bit then Xor(shifted, Polynomial()) else shifted
  }

  function ShiftBits(crc: Word, bits: seq<bool>): Word
    decreases |bits|
  {
    if bits == [] then crc else ShiftBits(ShiftBit(crc, bits[0]), bits[1..])
  }

  /** The bits of a stretch of memory: also the bits of the little-endian word there. */
  function BitsOf(data: seq<byte>): (bits: seq<bool>)
    ensures |bits| == 8 * |data|
  {
    if data == [] then [] else Bits(data[0], 8) + BitsOf(data[1..])
  }

  /** The CRC of the data, byte by byte. */
  function Crc(crc: Word, data: seq<byte>): Word
    decreases |data|
  {
    if data == [] then crc else Crc(ShiftBits(crc, Bits(data[0], 8)), data[1..])
  }

  // ----- the instructions -----

  /** One step of a division by x^32 plus p: the first coefficient is cancelled. */
  function Divide(p: Word, bits: seq<bool>): (r: seq<bool>)
    requires |bits| > 32
    ensures |r| == |bits| - 1
  {
    if bits[0] then Xor(bits[1..], p + Zeros(|bits| - 33)) else bits[1..]
  }

  /** The first n steps of a division. */
  function Divided(p: Word, bits: seq<bool>, n: nat): (r: seq<bool>)
    requires |bits| >= 32 + n
    ensures |r| == |bits| - n
    decreases n
  {
    if n == 0 then bits else Divide(p, Divided(p, bits, n - 1))
  }

  /** The crc32 instruction: the remainder of the operand, moved up by the size of the register,
      plus the register, moved up by the size of the operand. */
  function CrcInstruction(crc: Word, operand: seq<bool>): Word {
    Divided(Polynomial(), Xor(operand + Zeros(32), crc + Zeros(|operand|)), |operand|)
  }

  /** Bits that a division step does not reach stay behind it. */
  lemma DivideExtended(p: Word, bits: seq<bool>, tail: seq<bool>)
    requires |bits| > 32
    ensures Divide(p, bits + tail) == Divide(p, bits) + tail
  {
    assert (bits + tail)[1..] == bits[1..] + tail;
    if bits[0] {
      var n := |bits| - 33;
      assert Xor(bits[1..] + tail, p + Zeros(n + |tail|)) == Xor(bits[1..], p + Zeros(n)) + tail;
    }
  }

  lemma {:induction false} DividedExtended(p: Word, bits: seq<bool>, tail: seq<bool>, n: nat)
    requires |bits| >= 32 + n
    ensures Divided(p, bits + tail, n) == Divided(p, bits, n) + tail
    decreases n
  {
    if n == 0 {
    } else {
      DividedExtended(p, bits, tail, n - 1);
      DivideExtended(p, Divided(p, bits, n - 1), tail);
    }
  }

  /** What is added behind the cancelled coefficient is added to the remainder. */
  lemma DivideAdded(p: Word, bits: seq<bool>, more: seq<bool>)
    requires |bits| > 32 && |more| == |bits| - 1
    ensures Divide(p, Xor(bits, [false] + more)) == Xor(Divide(p, bits), more)
  {
    var sum := Xor(bits, [false] + more);
    assert sum[1..] == Xor(bits[1..], more);
    if bits[0] {
      var q := p + Zeros(|bits| - 33);
      assert Xor(Xor(bits[1..], more), q) == Xor(Xor(bits[1..], q), more);
    }
  }

  lemma {:induction false} DividedAdded(p: Word, bits: seq<bool>, more: seq<bool>, n: nat)
    requires |bits| >= 32 + n && |more| == |bits| - n
    ensures Divided(p, Xor(bits, Zeros(n) + more), n) == Xor(Divided(p, bits, n), more)
    decreases n
  {
    if n == 0 {
      assert Zeros(0) + more == more;
    } else {
      assert Zeros(n) + more == Zeros(n - 1) + ([false] + more);
      DividedAdded(p, bits, [false] + more, n - 1);
      DivideAdded(p, Divided(p, bits, n - 1), more);
    }
  }

  lemma {:induction false} DividedTwice(p: Word, bits: seq<bool>, m: nat, n: nat)
    requires |bits| >= 32 + m + n
    ensures Divided(p, bits, m + n) == Divided(p, Divided(p, bits, m), n)
    decreases n
  {
    if n == 0 {
    } else {
      DividedTwice(p, bits, m, n - 1);
    }
  }

  lemma DividendSplits(crc: Word, a: seq<bool>, b: seq<bool>)
    ensures Xor(a + b + Zeros(32), crc + Zeros(|a + b|)) ==
            Xor(Xor(a + Zeros(32), crc + Zeros(|a|)) + Zeros(|b|), Zeros(|a|) + (b + Zeros(32)))
  {
  }

  /** After the steps for the first part, what is left is the dividend for the second. */
  lemma FirstPart(p: Word, crc: Word, a: seq<bool>, b: seq<bool>)
    ensures Divided(p, Xor(a + b + Zeros(32), crc + Zeros(|a + b|)), |a|) ==
            Xor(b + Zeros(32), Divided(p, Xor(a + Zeros(32), crc + Zeros(|a|)), |a|) + Zeros(|b|))
  {
    var first := Xor(a + Zeros(32), crc + Zeros(|a|));
    var rest := b + Zeros(32);
    DividendSplits(crc, a, b);
    DividedAdded(p, first + Zeros(|b|), rest, |a|);
    DividedExtended(p, first, Zeros(|b|), |a|);
    XorCommutes(Divided(p, first, |a|) + Zeros(|b|), rest);
  }

  lemma XorCommutes(a: seq<bool>, b: seq<bool>)
    requires |a| == |b|
    ensures Xor(a, b) == Xor(b, a)
  {
  }

  lemma SecondPart(p: Word, crc: Word, a: seq<bool>, b: seq<bool>)
    ensures Divided(p, Xor(a + b + Zeros(32), crc + Zeros(|a + b|)), |a + b|) ==
            Divided(p, Xor(b + Zeros(32), Divided(p, Xor(a + Zeros(32), crc + Zeros(|a|)), |a|) + Zeros(|b|)), |b|)
  {
    var whole := Xor(a + b + Zeros(32), crc + Zeros(|a + b|));
    FirstPart(p, crc, a, b);
    DividedTwice(p, whole, |a|, |b|);
  }

  /** An operand can be cut: the instruction on the whole is the instruction on the first part, then on the rest. */
  lemma InstructionSplits(crc: Word, a: seq<bool>, b: seq<bool>)
    ensures CrcInstruction(crc, a + b) == CrcInstruction(CrcInstruction(crc, a), b)
  {
    SecondPart(Polynomial(), crc, a, b);
  }

  lemma InstructionBit(crc: Word, bit: bool)
    ensures CrcInstruction(crc, [bit]) == ShiftBit(crc, bit)
  {
    var x := Xor([bit] + Zeros(32), crc + Zeros(1));
    assert x[1..] == crc[1..] + [false];
    assert Polynomial() + Zeros(0) == Polynomial();
    assert Divided(Polynomial(), x, 1) == Divide(Polynomial(), Divided(Polynomial(), x, 0)) == Divide(Polynomial(), x);
  }

  /** The instruction on any operand is the shift register on its bits. */
  lemma {:induction false} InstructionShifts(crc: Word, operand: seq<bool>)
    ensures CrcInstruction(crc, operand) == ShiftBits(crc, operand)
    decreases |operand|
  {
    if operand == [] {
      assert Xor([] + Zeros(32), crc + Zeros(0)) == crc;
    } else {
      assert operand == [operand[0]] + operand[1..];
      InstructionSplits(crc, [operand[0]], operand[1..]);
      InstructionBit(crc, operand[0]);
      InstructionShifts(ShiftBit(crc, operand[0]), operand[1..]);
    }
  }

  /** A crc32 instruction on the word at the beginning of the data is the byte by byte CRC of those bytes. */
  lemma {:induction false} WordIsBytes(crc: Word, data: seq<byte>)
    ensures CrcInstruction(crc, BitsOf(data)) == Crc(crc, data)
    decreases |data|
  {
    if data == [] {
      InstructionShifts(crc, []);
    } else {
      InstructionSplits(crc, Bits(data[0], 8), BitsOf(data[1..]));
      InstructionShifts(crc, Bits(data[0], 8));
      WordIsBytes(ShiftBits(crc, Bits(data[0], 8)), data[1..]);
    }
  }

  lemma {:induction false} CrcAppend(crc: Word, a: seq<byte>, b: seq<byte>)
    ensures Crc(crc, a + b) == Crc(Crc(crc, a), b)
    decreases |a|
  {
    if a == [] {
      assert a + b == b;
    } else {
      assert (a + b)[1..] == a[1..] + b;
      CrcAppend(ShiftBits(crc, Bits(a[0], 8)), a[1..], b);
    }
  }

  /** The instruction on the word behind some bytes goes on with their CRC. */
  lemma WordAppended(crc: Word, a: seq<byte>, b: seq<byte>)
    ensures CrcInstruction(Crc(crc, a), BitsOf(b)) == Crc(crc, a + b)
  {
    WordIsBytes(Crc(crc, a), b);
    CrcAppend(crc, a, b);
  }

  /** The halves of the result are swapped. */
  function Rotated(w: Word): Word {
    w[16..] + w[..16]
  }
}
