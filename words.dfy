/** 16-bit word helpers of the LC-3 virtual machine: the machine word, two's
    complement sign extension, the byte swap used by the image loader, and the
    shifts and masks that pull an instruction apart into its fields. */
module Words {

  /** The machine word (`uint16_t` in the source). Arithmetic on `bv16` drops
      the carry out of bit 15, which is exactly what storing an `int` result
      into a 16-bit variable does. */
  type Word = bv16

  /** 2^n */
  function Pow2(n: nat): (p: nat)
    ensures p >= 1
  {
    if n == 0 then 1 else 2 * Pow2(n - 1)
  }

  /** 2^(a+b) == 2^a * 2^b */
  lemma {:induction false} Pow2Add(a: nat, b: nat)
    ensures Pow2(a + b) == Pow2(a) * Pow2(b)
    decreases a
  {
    if a > 0 {
      Pow2Add(a - 1, b);
    }
  }

  /** The powers of two the word layout uses. */
  lemma Pow2Values()
    ensures Pow2(4) == 0x10 && Pow2(8) == 0x100 && Pow2(12) == 0x1000 && Pow2(16) == 0x1_0000
  {
    assert Pow2(4) == 0x10;
    Pow2Add(4, 4);
    Pow2Add(8, 4);
    Pow2Add(8, 8);
  }

  /** Bit i of x (bit 0 is the least significant). */
  predicate Bit(x: Word, i: nat)
    requires i < 16
  {
    (x >> i) & 1 == 1
  }

  /** The 16-bit value of `0xFFFF << n`: every bit at position n or above. */
  function HighMask(n: nat): (m: Word)
    requires n <= 16
  {
    0xFFFF << n
  }

  /** The 16-bit two's complement value of x. */
  function ToSigned(x: Word): (v: int)
    ensures -0x8000 <= v < 0x8000
    ensures v < 0 <==> Bit(x, 15)
  {
    if x < 0x8000 then x as int else x as int - 0x1_0000
  }

  /** `sign_extend`: widens the n-bit two's complement number held in the low
      bits of x to 16 bits. */
  function SignExtend(x: Word, n: nat): Word
    requires 1 <= n <= 16
  {
    if Bit(x, n - 1) then x | HighMask(n) else x
  }

  /** Sign extension always keeps the low n bits of x. */
  lemma SignExtendKeepsLowBits(x: Word, n: nat)
    requires 1 <= n <= 16
    ensures SignExtend(x, n) & !HighMask(n) == x & !HighMask(n)
  {
    if Bit(x, n - 1) {
      assert SignExtend(x, n) == x | HighMask(n);
    }
  }

  /** When bit n-1 is clear, sign extension returns x as it is. */
  lemma SignExtendNonNegative(x: Word, n: nat)
    requires 1 <= n <= 16
    requires !Bit(x, n - 1)
    ensures SignExtend(x, n) == x
  {
  }

  /** When bit n-1 is set, sign extension sets every bit from n upwards. */
  lemma SignExtendNegative(x: Word, n: nat)
    requires 1 <= n <= 16
    requires Bit(x, n - 1)
    ensures SignExtend(x, n) & HighMask(n) == HighMask(n)
  {
    assert SignExtend(x, n) == x | HighMask(n);
  }

  /** `swap16`: exchanges the high and low bytes of x. */
  function Swap16(x: Word): (r: Word)
    ensures r >> 8 == x & 0xFF
    ensures r & 0xFF == x >> 8
  {
    (x << 8) | (x >> 8)
  }

  /** Swapping twice gives the word back. */
  lemma Swap16Involution(x: Word)
    ensures Swap16(Swap16(x)) == x
  {
  }

  /** The opcode: the top 4 bits of an instruction. */
  function Opcode(instr: Word): (op: Word)
    ensures op < 16
    ensures instr & 0xF000 == op << 12
  {
    instr >> 12
  }

  /** The destination register field, bits 11:9. */
  function Dr(instr: Word): (r: nat)
    ensures r < 8
    ensures (r as Word) << 9 == instr & 0xE00
  {
    ((instr >> 9) & 7) as int
  }

  /** The first source register field, bits 8:6. */
  function Sr1(instr: Word): (r: nat)
    ensures r < 8
    ensures (r as Word) << 6 == instr & 0x1C0
  {
    ((instr >> 6) & 7) as int
  }

  /** The addressing-mode bit of ADD and AND, bit 5: set for an immediate operand. */
  predicate ImmFlag(instr: Word)
    ensures ImmFlag(instr) <==> instr & 0x20 != 0
  {
    (instr >> 5) & 1 == 1
  }

  /** The second source register field of ADD and AND, bits 2:0. */
  function Sr2(instr: Word): (r: nat)
    ensures r < 8
    ensures r as Word == instr & 0x7
  {
    (instr & 7) as int
  }

  /** The 5-bit immediate of ADD and AND, bits 4:0, sign-extended. */
  function Imm5(instr: Word): Word
  {
    SignExtend(instr & 0x1F, 5)
  }

  /** The immediate's value is the two's complement value of the 5-bit field:
      0 to 15 as they are, 16 to 31 standing for -16 to -1. */
  lemma Imm5Value(instr: Word)
    ensures ToSigned(Imm5(instr)) ==
      if instr & 0x10 == 0 then (instr & 0x1F) as int else (instr & 0x1F) as int - 32
  {
  }

  /** The 9-bit PC offset of LD, bits 8:0, sign-extended. */
  function PcOffset9(instr: Word): Word
  {
    SignExtend(instr & 0x1FF, 9)
  }

  /** The offset's value is the two's complement value of the 9-bit field:
      -256 to 255. */
  lemma PcOffset9Value(instr: Word)
    ensures ToSigned(PcOffset9(instr)) ==
      if instr & 0x100 == 0 then (instr & 0x1FF) as int else (instr & 0x1FF) as int - 512
  {
  }

  /** Masking an instruction down to its low 12 bits (the payload handed to
      the ADD and AND handlers) keeps every operand field. */
  lemma PayloadFields(instr: Word)
    ensures var p := instr & 0xFFF;
      Dr(p) == Dr(instr) && Sr1(p) == Sr1(instr) && Sr2(p) == Sr2(instr) &&
      ImmFlag(p) == ImmFlag(instr) && p & 0x1F == instr & 0x1F
  {
  }

  /** Addition of two words as C stores it back into a `uint16_t`: bit-vector
      addition, which wraps around at 2^16. */
  function Plus(a: Word, b: Word): Word
  {
    a + b
  }

  /** Bitwise AND of two words. */
  function BitAnd(a: Word, b: Word): Word
  {
    a & b
  }

  /** Assembles an ADD/AND-shaped instruction from its fields; `low5` is the
      immediate (mode 1) or `00` followed by SR2 (mode 0). */
  function EncodeOperate(op: Word, dr: nat, sr1: nat, mode: Word, low5: Word): Word
    requires op < 16 && dr < 8 && sr1 < 8 && mode < 2 && low5 < 32
  {
    (op << 12) | ((dr as Word) << 9) | ((sr1 as Word) << 6) | (mode << 5) | low5
  }

  /** Decoding an assembled instruction gives back each of its fields. */
  lemma DecodeEncodeOperate(op: Word, dr: nat, sr1: nat, mode: Word, low5: Word)
    requires op < 16 && dr < 8 && sr1 < 8 && mode < 2 && low5 < 32
    ensures var instr := EncodeOperate(op, dr, sr1, mode, low5);
      Opcode(instr) == op && Dr(instr) == dr && Sr1(instr) == sr1 &&
      ImmFlag(instr) == (mode == 1) && instr & 0x1F == low5 && Sr2(instr) == (low5 & 7) as int
  {
  }

  /** Every ADD/AND-shaped word is the assembly of its own fields, so
      decoding loses nothing. */
  lemma EncodeDecodeOperate(instr: Word)
    ensures EncodeOperate(Opcode(instr), Dr(instr), Sr1(instr), if ImmFlag(instr) then 1 else 0, instr & 0x1F) == instr
  {
  }
}
