/**
 * The CRC-32 of IEEE 802.3 (clause 3.2.9, frame check sequence), also used by
 * the ZIP format: reflected polynomial 0xEDB88320, register preset to all ones,
 * result complemented.  This module holds the reference definitions that the
 * two CRC32 classes are proved against.
 */
module Crc32Spec {

  /** The reflected form of the generator polynomial 0x04C11DB7. */
  const Polynomial: bv32 := 0xEDB8_8320

  /** Initial value of the running register. */
  const Preset: bv32 := 0xFFFF_FFFF

  /**
   * One step of polynomial division, least significant bit first: the bit
   * shifted out decides whether the polynomial is subtracted, and the top bit
   * of the result records that decision.
   */
  function Step(r: bv32): (s: bv32)
    ensures s >> 31 == r & 1
  {
    if r & 1 == 1 then (r >> 1) ^ Polynomial else r >> 1
  }

  /** `k` division steps applied to `r`. */
  function Rounds(r: bv32, k: nat): (x: bv32)
    ensures r == 0 ==> x == 0
  {
    if k == 0 then r else Step(Rounds(r, k - 1))
  }

  /**
   * Entry `i` of the lookup table: the value `i` put through eight steps.
   * The table stores the entries for `i < 256`.
   */
  function TableEntry(i: bv32): (e: bv32)
    ensures i == 0 ==> e == 0
  {
    Rounds(i, 8)
  }

  /**
   * The table index the fold uses for register `crc` and input byte `b`:
   * the byte xor the register's low byte, which always fits in a byte.
   */
  function TableIndex(crc: bv32, b: bv8): bv32 {
    (b as bv32) ^ (crc & 0xFF)
  }

  /** Every table index addresses one of the 256 stored entries. */
  lemma TableIndexInRange(crc: bv32, b: bv8)
    ensures TableIndex(crc, b) < 256
  {
  }

  /** Folds one byte into the register, the table-driven way. */
  function Update(crc: bv32, b: bv8): bv32 {
    (crc >> 8) ^ TableEntry(TableIndex(crc, b))
  }

  /** Folds `bytes[lo..hi]` into the register, first byte first. */
  function Fold(crc: bv32, bytes: seq<bv8>, lo: nat, hi: nat): bv32
    requires lo <= hi <= |bytes|
    decreases hi - lo
  {
    if hi == lo then crc else Update(Fold(crc, bytes, lo, hi - 1), bytes[hi - 1])
  }

  /** The checksum of a byte sequence. */
  function Crc32(bytes: seq<bv8>): bv32 {
    !Fold(Preset, bytes, 0, |bytes|)
  }

  /** Folding a range is folding its first part, then the rest from there. */
  lemma {:induction false} FoldSplit(crc: bv32, bytes: seq<bv8>, lo: nat, mid: nat, hi: nat)
    requires lo <= mid <= hi <= |bytes|
    ensures Fold(crc, bytes, lo, hi) == Fold(Fold(crc, bytes, lo, mid), bytes, mid, hi)
    decreases hi - mid
  {
    if hi > mid {
      FoldSplit(crc, bytes, lo, mid, hi - 1);
    }
  }

  /** The fold depends only on the bytes in the range, not on where they sit. */
  lemma {:induction false} FoldSameBytes(crc: bv32, a: seq<bv8>, i: nat, b: seq<bv8>, j: nat, n: nat)
    requires i + n <= |a| && j + n <= |b|
    requires forall k :: i <= k < i + n ==> a[k] == b[k - i + j]
    ensures Fold(crc, a, i, i + n) == Fold(crc, b, j, j + n)
  {
    if n > 0 {
      FoldSameBytes(crc, a, i, b, j, n - 1);
      assert a[i + n - 1] == b[j + n - 1];
    }
  }

  /**
   * The checksum can be computed incrementally: the register after `a + b`
   * is the register after `a`, with `b` folded in.
   */
  lemma {:induction false} FoldAppend(crc: bv32, a: seq<bv8>, b: seq<bv8>)
    ensures Fold(crc, a + b, 0, |a + b|) == Fold(Fold(crc, a, 0, |a|), b, 0, |b|)
  {
    var ab := a + b;
    FoldSplit(crc, ab, 0, |a|, |ab|);
    assert forall k :: 0 <= k < 0 + |a| ==> ab[k] == a[k - 0 + 0];
    FoldSameBytes(crc, ab, 0, a, 0, |a|);
    assert forall k :: |a| <= k < |a| + |b| ==> ab[k] == b[k - |a| + 0];
    FoldSameBytes(Fold(crc, a, 0, |a|), ab, |a|, b, 0, |b|);
  }

  /** The bytes of successive reads, joined in order. */
  function Concat(chunks: seq<seq<bv8>>): seq<bv8> {
    if |chunks| == 0 then [] else Concat(chunks[..|chunks| - 1]) + chunks[|chunks| - 1]
  }

  /** The register after folding the reads one after the other, each from where the last left off. */
  function FoldChunks(crc: bv32, chunks: seq<seq<bv8>>): bv32 {
    if |chunks| == 0 then crc
    else
      var last := chunks[|chunks| - 1];
      Fold(FoldChunks(crc, chunks[..|chunks| - 1]), last, 0, |last|)
  }

  /**
   * However the bytes are split between reads, folding the reads one by one
   * is folding their concatenation: every byte is folded exactly once, in order.
   */
  lemma {:induction false} ChunkIndependence(crc: bv32, chunks: seq<seq<bv8>>)
    ensures FoldChunks(crc, chunks) == Fold(crc, Concat(chunks), 0, |Concat(chunks)|)
  {
    if |chunks| > 0 {
      var front := chunks[..|chunks| - 1];
      ChunkIndependence(crc, front);
      FoldAppend(crc, Concat(front), chunks[|chunks| - 1]);
    }
  }

  /** Updating the fold of `bytes[lo..i]` with `bytes[i]` folds one byte more. */
  lemma FoldStep(init: bv32, crc: bv32, bytes: seq<bv8>, lo: nat, i: nat)
    requires lo <= i < |bytes| && crc == Fold(init, bytes, lo, i)
    ensures Update(crc, bytes[i]) == Fold(init, bytes, lo, i + 1)
  {
  }

  /**
   * Folding a buffer that holds the next `count` bytes of `input` after
   * `input[start..done]` extends the fold to `input[start..done + count]`.
   */
  lemma {:induction false} FoldNextChunk(crc: bv32, buffer: seq<bv8>, input: seq<bv8>, start: nat, done: nat, count: nat)
    requires start <= done && done + count <= |input| && count <= |buffer|
    requires forall k :: 0 <= k < count ==> buffer[k] == input[done + k]
    requires crc == Fold(Fold(Preset, input, start, done), buffer, 0, count)
    ensures crc == Fold(Preset, input, start, done + count)
  {
    FoldSameBytes(Fold(Preset, input, start, done), buffer, 0, input, done, count);
    FoldSplit(Preset, input, start, done, done + count);
  }

  /** The checksum of no bytes is zero. */
  lemma EmptyChecksum()
    ensures Crc32([]) == 0
  {
  }

  /** The ASCII bytes of "123456789", the customary CRC check input. */
  const CheckInput: seq<bv8> := [0x31, 0x32, 0x33, 0x34, 0x35, 0x36, 0x37, 0x38, 0x39]

  /** The table entries the check input reaches, each by its eight steps. */
  lemma CheckEntries()
    ensures TableEntry(0xCE) == 0x7CDC_EFB7
    ensures TableEntry(0x7A) == 0xB0D0_9822
    ensures TableEntry(0x01) == 0x7707_3096
    ensures TableEntry(0x19) == 0x646B_A8C0
    ensures TableEntry(0x69) == 0x346E_D9FC
    ensures TableEntry(0xD5) == 0xF6B9_265B
    ensures TableEntry(0xA9) == 0xAF0A_1B4C
    ensures TableEntry(0x58) == 0x65B0_D9C6
  {
    assert TableEntry(0xCE) == 0x7CDC_EFB7 by {
      assert Rounds(0xCE, 1) == 0x0000_0067;
      assert Rounds(0xCE, 2) == 0xEDB8_8313;
      assert Rounds(0xCE, 3) == 0x9B64_C2A9;
      assert Rounds(0xCE, 4) == 0xA00A_E274;
      assert Rounds(0xCE, 5) == 0x5005_713A;
      assert Rounds(0xCE, 6) == 0x2802_B89D;
      assert Rounds(0xCE, 7) == 0xF9B9_DF6E;
    }
    assert TableEntry(0x7A) == 0xB0D0_9822 by {
      assert Rounds(0x7A, 1) == 0x0000_003D;
      assert Rounds(0x7A, 2) == 0xEDB8_833E;
      assert Rounds(0x7A, 3) == 0x76DC_419F;
      assert Rounds(0x7A, 4) == 0xD6D6_A3EF;
      assert Rounds(0x7A, 5) == 0x86D3_D2D7;
      assert Rounds(0x7A, 6) == 0xAED1_6A4B;
      assert Rounds(0x7A, 7) == 0xBAD0_3605;
    }
    assert TableEntry(0x01) == 0x7707_3096 by {
      assert Rounds(0x01, 1) == 0xEDB8_8320;
      assert Rounds(0x01, 2) == 0x76DC_4190;
      assert Rounds(0x01, 3) == 0x3B6E_20C8;
      assert Rounds(0x01, 4) == 0x1DB7_1064;
      assert Rounds(0x01, 5) == 0x0EDB_8832;
      assert Rounds(0x01, 6) == 0x076D_C419;
      assert Rounds(0x01, 7) == 0xEE0E_612C;
    }
    assert TableEntry(0x19) == 0x646B_A8C0 by {
      assert Rounds(0x19, 1) == 0xEDB8_832C;
      assert Rounds(0x19, 2) == 0x76DC_4196;
      assert Rounds(0x19, 3) == 0x3B6E_20CB;
      assert Rounds(0x19, 4) == 0xF00F_9345;
      assert Rounds(0x19, 5) == 0x95BF_4A82;
      assert Rounds(0x19, 6) == 0x4ADF_A541;
      assert Rounds(0x19, 7) == 0xC8D7_5180;
    }
    assert TableEntry(0x69) == 0x346E_D9FC by {
      assert Rounds(0x69, 1) == 0xEDB8_8314;
      assert Rounds(0x69, 2) == 0x76DC_418A;
      assert Rounds(0x69, 3) == 0x3B6E_20C5;
      assert Rounds(0x69, 4) == 0xF00F_9342;
      assert Rounds(0x69, 5) == 0x7807_C9A1;
      assert Rounds(0x69, 6) == 0xD1BB_67F0;
      assert Rounds(0x69, 7) == 0x68DD_B3F8;
    }
    assert TableEntry(0xD5) == 0xF6B9_265B by {
      assert Rounds(0xD5, 1) == 0xEDB8_834A;
      assert Rounds(0xD5, 2) == 0x76DC_41A5;
      assert Rounds(0xD5, 3) == 0xD6D6_A3F2;
      assert Rounds(0xD5, 4) == 0x6B6B_51F9;
      assert Rounds(0xD5, 5) == 0xD80D_2BDC;
      assert Rounds(0xD5, 6) == 0x6C06_95EE;
      assert Rounds(0xD5, 7) == 0x3603_4AF7;
    }
    assert TableEntry(0xA9) == 0xAF0A_1B4C by {
      assert Rounds(0xA9, 1) == 0xEDB8_8374;
      assert Rounds(0xA9, 2) == 0x76DC_41BA;
      assert Rounds(0xA9, 3) == 0x3B6E_20DD;
      assert Rounds(0xA9, 4) == 0xF00F_934E;
      assert Rounds(0xA9, 5) == 0x7807_C9A7;
      assert Rounds(0xA9, 6) == 0xD1BB_67F3;
      assert Rounds(0xA9, 7) == 0x8565_30D9;
    }
    assert TableEntry(0x58) == 0x65B0_D9C6 by {
      assert Rounds(0x58, 1) == 0x0000_002C;
      assert Rounds(0x58, 2) == 0x0000_0016;
      assert Rounds(0x58, 3) == 0x0000_000B;
      assert Rounds(0x58, 4) == 0xEDB8_8325;
      assert Rounds(0x58, 5) == 0x9B64_C2B2;
      assert Rounds(0x58, 6) == 0x4DB2_6159;
      assert Rounds(0x58, 7) == 0xCB61_B38C;
    }
  }

  /** The register after the first three check bytes. */
  lemma CheckPrefix3()
    ensures Fold(Preset, CheckInput, 0, 3) == 0x77B7_9C2D
  {
    var s := CheckInput;
    CheckEntries();
    assert Update(Preset, 0x31) == 0x7C23_1048 by { assert TableIndex(Preset, 0x31) == 0xCE; }
    assert Fold(Preset, s, 0, 1) == 0x7C23_1048;
    assert Update(0x7C23_1048, 0x32) == 0xB0AC_BB32 by { assert TableIndex(0x7C23_1048, 0x32) == 0x7A; }
    assert Fold(Preset, s, 0, 2) == 0xB0AC_BB32;
    assert Update(0xB0AC_BB32, 0x33) == 0x77B7_9C2D by { assert TableIndex(0xB0AC_BB32, 0x33) == 0x01; }
    assert Fold(Preset, s, 0, 3) == 0x77B7_9C2D;
  }

  /** The register after the first six check bytes. */
  lemma CheckPrefix6()
    ensures Fold(Preset, CheckInput, 0, 6) == 0xF68D_2C9E
  {
    var s := CheckInput;
    CheckPrefix3();
    CheckEntries();
    assert Update(0x77B7_9C2D, 0x34) == 0x641C_1F5C by { assert TableIndex(0x77B7_9C2D, 0x34) == 0x19; }
    assert Fold(Preset, s, 0, 4) == 0x641C_1F5C;
    assert Update(0x641C_1F5C, 0x35) == 0x340A_C5E3 by { assert TableIndex(0x641C_1F5C, 0x35) == 0x69; }
    assert Fold(Preset, s, 0, 5) == 0x340A_C5E3;
    assert Update(0x340A_C5E3, 0x36) == 0xF68D_2C9E by { assert TableIndex(0x340A_C5E3, 0x36) == 0xD5; }
    assert Fold(Preset, s, 0, 6) == 0xF68D_2C9E;
  }

  /** The standard check value of this CRC (CRC-32/ISO-HDLC). */
  lemma CheckValue()
    ensures Crc32(CheckInput) == 0xCBF4_3926
  {
    var s := CheckInput;
    CheckPrefix6();
    CheckEntries();
    assert Update(0xF68D_2C9E, 0x37) == 0xAFFC_9660 by { assert TableIndex(0xF68D_2C9E, 0x37) == 0xA9; }
    assert Fold(Preset, s, 0, 7) == 0xAFFC_9660;
    assert Update(0xAFFC_9660, 0x38) == 0x651F_2550 by { assert TableIndex(0xAFFC_9660, 0x38) == 0x58; }
    assert Fold(Preset, s, 0, 8) == 0x651F_2550;
    assert Update(0x651F_2550, 0x39) == 0x340B_C6D9 by { assert TableIndex(0x651F_2550, 0x39) == 0x69; }
    assert Fold(Preset, s, 0, 9) == 0x340B_C6D9;
  }

  /** Known entries of the standard reflected table. */
  lemma KnownTableEntries()
    ensures TableEntry(0) == 0
    ensures TableEntry(1) == 0x7707_3096
    ensures TableEntry(128) == 0xEDB8_8320
  {
    assert Rounds(128, 7) == 1 by {
      assert Rounds(128, 1) == 0x40;
      assert Rounds(128, 2) == 0x20;
      assert Rounds(128, 3) == 0x10;
      assert Rounds(128, 4) == 0x08;
      assert Rounds(128, 5) == 0x04;
      assert Rounds(128, 6) == 0x02;
    }
  }

  // The table-driven update agrees with bit-at-a-time division of register xor byte.
  // The four low-bit cases of one step are separate lemmas: asked together in one
  // proof, the bit-vector reasoning exceeds the solver budget.

  lemma StepXorOddOdd(x: bv32, y: bv32)
    requires x & 1 == 1 && y & 1 == 1
    ensures Step(x ^ y) == Step(x) ^ Step(y)
  {
  }

  lemma StepXorOddEven(x: bv32, y: bv32)
    requires x & 1 == 1 && y & 1 == 0
    ensures Step(x ^ y) == Step(x) ^ Step(y)
  {
  }

  lemma StepXorEvenOdd(x: bv32, y: bv32)
    requires x & 1 == 0 && y & 1 == 1
    ensures Step(x ^ y) == Step(x) ^ Step(y)
  {
  }

  lemma StepXorEvenEven(x: bv32, y: bv32)
    requires x & 1 == 0 && y & 1 == 0
    ensures Step(x ^ y) == Step(x) ^ Step(y)
  {
  }

  /**
   * Exclusive or of two registers, named so that the linearity proofs below
   * work with it as a term rather than bit by bit.
   */
  function Xor(a: bv32, b: bv32): bv32 {
    a ^ b
  }

  /** One division step distributes over xor (each case is its own small proof). */
  lemma StepXor(x: bv32, y: bv32)
    ensures Step(Xor(x, y)) == Xor(Step(x), Step(y))
  {
    var lowX, lowY := x & 1, y & 1;
    if lowX == 1 && lowY == 1 {
      StepXorOddOdd(x, y);
    } else if lowX == 1 {
      StepXorOddEven(x, y);
    } else if lowY == 1 {
      StepXorEvenOdd(x, y);
    } else {
      StepXorEvenEven(x, y);
    }
  }

  /** Division steps distribute over xor: the CRC register is linear. */
  lemma {:induction false} RoundsXor(x: bv32, y: bv32, k: nat)
    ensures Rounds(Xor(x, y), k) == Xor(Rounds(x, k), Rounds(y, k))
  {
    if k > 0 {
      RoundsXor(x, y, k - 1);
      StepXor(Rounds(x, k - 1), Rounds(y, k - 1));
    }
  }

  /** Steps compose: `a` steps then `b` steps are `a + b` steps. */
  lemma {:induction false} RoundsAdd(r: bv32, a: nat, b: nat)
    ensures Rounds(r, a + b) == Rounds(Rounds(r, a), b)
  {
    if b > 0 {
      RoundsAdd(r, a, b - 1);
    }
  }

  /**
   * Undoes one division step: the top bit of a stepped register tells
   * whether the polynomial was subtracted and which bit was shifted out.
   */
  function Unstep(s: bv32): bv32 {
    if s >> 31 == 1 then ((s ^ Polynomial) << 1) | 1 else s << 1
  }

  /** `Unstep` undoes a step that subtracted the polynomial. */
  lemma UnstepOdd(r: bv32)
    requires r & 1 == 1
    ensures Unstep(Step(r)) == r
  {
  }

  /** `Unstep` undoes a step that only shifted. */
  lemma UnstepEven(r: bv32)
    requires r & 1 == 0
    ensures Unstep(Step(r)) == r
  {
  }

  /** A division step loses nothing: `Unstep` gives the register back. */
  lemma StepInverse(r: bv32)
    ensures Unstep(Step(r)) == r
  {
    var low := r & 1;
    if low == 1 {
      UnstepOdd(r);
    } else {
      UnstepEven(r);
    }
  }

  /** Any number of steps loses nothing either. */
  lemma {:induction false} RoundsInjective(a: bv32, b: bv32, k: nat)
    requires Rounds(a, k) == Rounds(b, k)
    ensures a == b
  {
    if k > 0 {
      StepInverse(Rounds(a, k - 1));
      StepInverse(Rounds(b, k - 1));
      RoundsInjective(a, b, k - 1);
    }
  }

  /** The 256 table entries are pairwise distinct. */
  lemma TableEntriesDistinct(i: bv32, j: bv32)
    requires i < 256 && j < 256 && i != j
    ensures TableEntry(i) != TableEntry(j)
  {
    if TableEntry(i) == TableEntry(j) {
      RoundsInjective(i, j, 8);
    }
  }

  /** Two steps on a register whose two low bits are clear are a plain shift. */
  lemma TwoEvenRounds(x: bv32)
    requires x & 3 == 0
    ensures Rounds(x, 2) == x >> 2
  {
    assert Rounds(x, 1) == x >> 1;
  }

  /** A register whose low byte is clear only shifts during eight steps. */
  lemma RoundsOfHigh(h: bv32)
    requires h & 0xFF == 0
    ensures Rounds(h, 8) == h >> 8
  {
    TwoEvenRounds(h);
    RoundsAdd(h, 2, 2);
    TwoEvenRounds(h >> 2);
    RoundsAdd(h, 4, 2);
    TwoEvenRounds(h >> 4);
    RoundsAdd(h, 6, 2);
    TwoEvenRounds(h >> 6);
  }

  /** Register xor byte splits into the part above the low byte and the table index. */
  lemma SplitRegister(crc: bv32, b: bv8) returns (hi: bv32, lo: bv32)
    ensures Xor(crc, b as bv32) == Xor(hi, lo)
    ensures hi & 0xFF == 0 && hi >> 8 == crc >> 8
    ensures lo == TableIndex(crc, b)
  {
    var x := crc ^ (b as bv32);
    hi := x & 0xFFFF_FF00;
    lo := x & 0xFF;
    assert x == hi ^ lo;
  }

  /** Eight steps of register xor byte: the shifted register xor the table entry. */
  lemma RoundsOfRegisterXorByte(crc: bv32, b: bv8)
    ensures Rounds(Xor(crc, b as bv32), 8) == Xor(crc >> 8, TableEntry(TableIndex(crc, b)))
  {
    var hi, lo := SplitRegister(crc, b);
    RoundsOfHigh(hi);
    RoundsXor(hi, lo, 8);
  }

  /** The table-driven update, written with the named xor. */
  lemma UpdateAsXor(crc: bv32, b: bv8)
    ensures Update(crc, b) == Xor(crc >> 8, TableEntry(TableIndex(crc, b)))
  {
  }

  /** The table lookup is eight bit-steps of the register xor the input byte. */
  lemma UpdateIsBitwiseDivision(crc: bv32, b: bv8)
    ensures Update(crc, b) == Rounds(Xor(crc, b as bv32), 8)
  {
    RoundsOfRegisterXorByte(crc, b);
    UpdateAsXor(crc, b);
  }
}
