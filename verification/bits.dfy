/**
  Portable bit primitives (the BIT / BIT_SET / BIT_CLEAR / BIT_FLIP / BIT_CHECK
  macros and their BITMASK_* forms) and the byte bit-reversal helper used by
  bit-string encoding.

  The macros operate on an `unsigned long`; this model fixes that word at
  64 bits. Positions count from 0, the least significant bit.
 */
module Bits {

  /** The machine word the macros operate on. */
  type Word = bv64

  /** A bit position inside a word. */
  type BitPos = p: bv8 | p < 64

  /** The word with every bit set (`~0UL`). */
  const AllOnes: Word := !0

  /** The reference meaning of "bit i of a is set", stated without masks. */
  predicate HasBit(a: Word, i: BitPos) {
    (a >> i) & 1 == 1
  }

  /** The word whose low `n` bits are set. */
  function LowMask(n: bv8): Word
    requires n <= 64
  {
    if n == 64 then !0 else (1 << n) - 1
  }

  /** Agreement on the low `i` bits and on bit `i` is agreement on the low `n = i + 1` bits. */
  lemma BitStep(a: Word, b: Word, i: BitPos, n: bv8)
    requires n == i + 1
    requires a & LowMask(i) == b & LowMask(i)
    requires HasBit(a, i) <==> HasBit(b, i)
    ensures a & LowMask(n) == b & LowMask(n)
  {
    assert LowMask(n) == LowMask(i) | (1 << i);
  }

  /** Words agreeing on each of their low `n` bits agree on the low `n` bits taken together. */
  lemma {:induction false} LowBitsAgree(a: Word, b: Word, n: bv8)
    requires n <= 64
    requires forall i: BitPos :: i < n ==> (HasBit(a, i) <==> HasBit(b, i))
    ensures a & LowMask(n) == b & LowMask(n)
    decreases n
  {
    if n > 0 {
      var m: bv8 := n - 1;
      assert HasBit(a, m) <==> HasBit(b, m);
      LowBitsAgree(a, b, m);
      BitStep(a, b, m, n);
    } else {
      assert LowMask(0) == 0;
    }
  }

  /** Two words with the same bits are the same word. */
  lemma BitsDetermineWord(a: Word, b: Word)
    requires forall i: BitPos :: HasBit(a, i) <==> HasBit(b, i)
    ensures a == b
  {
    LowBitsAgree(a, b, 64);
  }

  /** BIT(pos): the word whose only set bit is `pos`. */
  function Bit(pos: BitPos): (r: Word)
    ensures forall i: BitPos :: HasBit(r, i) <==> i == pos
  {
    1 << pos
  }

  lemma SetAt(a: Word, pos: BitPos, i: BitPos)
    ensures HasBit(a | Bit(pos), i) <==> (i == pos || HasBit(a, i))
  {
  }

  lemma ClearAt(a: Word, pos: BitPos, i: BitPos)
    ensures HasBit(a & !Bit(pos), i) <==> (i != pos && HasBit(a, i))
  {
  }

  lemma FlipAt(a: Word, pos: BitPos, i: BitPos)
    ensures HasBit(a ^ Bit(pos), i) <==> (if i == pos then !HasBit(a, i) else HasBit(a, i))
  {
  }

  /** BIT_SET(a, pos): `a` with bit `pos` set and every other bit kept. */
  function BitSet(a: Word, pos: BitPos): (r: Word)
    ensures forall i: BitPos :: HasBit(r, i) <==> (i == pos || HasBit(a, i))
  {
    var r := a | Bit(pos);
    assert forall i: BitPos :: HasBit(r, i) <==> (i == pos || HasBit(a, i)) by {
      forall i: BitPos ensures HasBit(r, i) <==> (i == pos || HasBit(a, i)) {
        SetAt(a, pos, i);
      }
    }
    r
  }

  /** BIT_CLEAR(a, pos): `a` with bit `pos` cleared and every other bit kept. */
  function BitClear(a: Word, pos: BitPos): (r: Word)
    ensures forall i: BitPos :: HasBit(r, i) <==> (i != pos && HasBit(a, i))
  {
    var r := a & !Bit(pos);
    assert forall i: BitPos :: HasBit(r, i) <==> (i != pos && HasBit(a, i)) by {
      forall i: BitPos ensures HasBit(r, i) <==> (i != pos && HasBit(a, i)) {
        ClearAt(a, pos, i);
      }
    }
    r
  }

  /** BIT_FLIP(a, pos): `a` with bit `pos` toggled and every other bit kept. */
  function BitFlip(a: Word, pos: BitPos): (r: Word)
    ensures forall i: BitPos :: HasBit(r, i) <==> (if i == pos then !HasBit(a, i) else HasBit(a, i))
  {
    var r := a ^ Bit(pos);
    assert forall i: BitPos :: HasBit(r, i) <==> (if i == pos then !HasBit(a, i) else HasBit(a, i)) by {
      forall i: BitPos ensures HasBit(r, i) <==> (if i == pos then !HasBit(a, i) else HasBit(a, i)) {
        FlipAt(a, pos, i);
      }
    }
    r
  }

  /** BIT_CHECK(a, pos): whether bit `pos` of `a` is set. */
  function BitCheck(a: Word, pos: BitPos): (r: bool)
    ensures r <==> HasBit(a, pos)
  {
    a & Bit(pos) != 0
  }

  /** Every bit of the mask `m` is set in `a`. */
  ghost predicate CoversMask(a: Word, m: Word) {
    forall i: BitPos :: HasBit(m, i) ==> HasBit(a, i)
  }

  lemma MaskSetAt(a: Word, m: Word, i: BitPos)
    ensures HasBit(a | m, i) <==> (HasBit(m, i) || HasBit(a, i))
  {
  }

  lemma MaskClearAt(a: Word, m: Word, i: BitPos)
    ensures HasBit(a & !m, i) <==> (!HasBit(m, i) && HasBit(a, i))
  {
  }

  lemma MaskFlipAt(a: Word, m: Word, i: BitPos)
    ensures HasBit(a ^ m, i) <==> (if HasBit(m, i) then !HasBit(a, i) else HasBit(a, i))
  {
  }

  /** BITMASK_SET(a, m): every bit of the mask set, every other bit of `a` kept. */
  function BitmaskSet(a: Word, m: Word): (r: Word)
    ensures forall i: BitPos :: HasBit(r, i) <==> (HasBit(m, i) || HasBit(a, i))
  {
    var r := a | m;
    assert forall i: BitPos :: HasBit(r, i) <==> (HasBit(m, i) || HasBit(a, i)) by {
      forall i: BitPos ensures HasBit(r, i) <==> (HasBit(m, i) || HasBit(a, i)) {
        MaskSetAt(a, m, i);
      }
    }
    r
  }

  /** BITMASK_CLEAR(a, m): every bit of the mask cleared, every other bit of `a` kept. */
  function BitmaskClear(a: Word, m: Word): (r: Word)
    ensures forall i: BitPos :: HasBit(r, i) <==> (!HasBit(m, i) && HasBit(a, i))
  {
    var r := a & !m;
    assert forall i: BitPos :: HasBit(r, i) <==> (!HasBit(m, i) && HasBit(a, i)) by {
      forall i: BitPos ensures HasBit(r, i) <==> (!HasBit(m, i) && HasBit(a, i)) {
        MaskClearAt(a, m, i);
      }
    }
    r
  }

  /** BITMASK_FLIP(a, m): every bit of the mask toggled, every other bit of `a` kept. */
  function BitmaskFlip(a: Word, m: Word): (r: Word)
    ensures forall i: BitPos :: HasBit(r, i) <==> (if HasBit(m, i) then !HasBit(a, i) else HasBit(a, i))
  {
    var r := a ^ m;
    assert forall i: BitPos :: HasBit(r, i) <==> (if HasBit(m, i) then !HasBit(a, i) else HasBit(a, i)) by {
      forall i: BitPos ensures HasBit(r, i) <==> (if HasBit(m, i) then !HasBit(a, i) else HasBit(a, i)) {
        MaskFlipAt(a, m, i);
      }
    }
    r
  }

  lemma MaskCheckAt(a: Word, m: Word, i: BitPos)
    requires (a & m) == m && HasBit(m, i)
    ensures HasBit(a, i)
  {
  }

  /** BITMASK_CHECK(a, m): whether `a` has every bit of the mask set. */
  function BitmaskCheck(a: Word, m: Word): (r: bool)
    ensures r <==> CoversMask(a, m)
  {
    var r := (a & m) == m;
    if r then
      assert CoversMask(a, m) by {
        forall i: BitPos | HasBit(m, i) ensures HasBit(a, i) {
          MaskCheckAt(a, m, i);
        }
      }
      r
    else
      assert !CoversMask(a, m) by {
        if CoversMask(a, m) {
          forall i: BitPos ensures HasBit(a & m, i) <==> HasBit(m, i) {
            MaskAndAt(a, m, i);
          }
          BitsDetermineWord(a & m, m);
        }
      }
      r
  }

  lemma MaskAndAt(a: Word, m: Word, i: BitPos)
    ensures HasBit(a & m, i) <==> (HasBit(a, i) && HasBit(m, i))
  {
  }

  /** The mask forms applied to the one-bit mask BIT(pos) are the single-bit forms. */
  lemma {:induction false} MaskFormsOfSingleBit(a: Word, pos: BitPos)
    ensures BitmaskSet(a, Bit(pos)) == BitSet(a, pos)
    ensures BitmaskClear(a, Bit(pos)) == BitClear(a, pos)
    ensures BitmaskFlip(a, Bit(pos)) == BitFlip(a, pos)
    ensures BitmaskCheck(a, Bit(pos)) == BitCheck(a, pos)
  {
    BitsDetermineWord(BitmaskSet(a, Bit(pos)), BitSet(a, pos));
    BitsDetermineWord(BitmaskClear(a, Bit(pos)), BitClear(a, pos));
    BitsDetermineWord(BitmaskFlip(a, Bit(pos)), BitFlip(a, pos));
  }

  /** Setting a bit of zero gives exactly that bit; clearing a bit of all-ones leaves exactly that bit clear. */
  lemma {:induction false} SetClearExtremes(pos: BitPos)
    ensures BitSet(0, pos) == Bit(pos)
    ensures !BitClear(AllOnes, pos) == Bit(pos)
  {
    forall i: BitPos ensures HasBit(0, i) <==> false { ZeroAt(i); }
    forall i: BitPos ensures HasBit(AllOnes, i) { AllOnesAt(i); }
    BitsDetermineWord(BitSet(0, pos), Bit(pos));
    var c := BitClear(AllOnes, pos);
    var nc := !c;
    forall i: BitPos ensures HasBit(nc, i) <==> i == pos {
      NotAt(c, i);
    }
    BitsDetermineWord(nc, Bit(pos));
  }

  lemma ZeroAt(i: BitPos)
    ensures !HasBit(0, i)
  {
  }

  lemma AllOnesAt(i: BitPos)
    ensures HasBit(AllOnes, i)
  {
  }

  lemma NotAt(a: Word, i: BitPos)
    ensures HasBit(!a, i) <==> !HasBit(a, i)
  {
  }

  /** Flipping the same bit twice restores the word. */
  lemma FlipTwice(a: Word, pos: BitPos)
    ensures BitFlip(BitFlip(a, pos), pos) == a
  {
    var m := Bit(pos);
    assert (a ^ m) ^ m == a;
  }

  /** Every bit is set in the all-ones word and clear in zero. */
  lemma {:induction false} CheckExtremes(pos: BitPos)
    ensures BitCheck(AllOnes, pos)
    ensures !BitCheck(0, pos)
  {
    AllOnesAt(pos);
    ZeroAt(pos);
  }

  /** A bit position inside a byte. */
  type BytePos = p: bv8 | p < 8

  /** Bit `i` of a byte. */
  predicate ByteHasBit(b: bv8, i: BytePos) {
    (b >> i) & 1 == 1
  }

  /** `r` holds the bits of `b` in reverse order: bit `j` of `r` is bit `7 - j` of `b`. */
  ghost predicate IsReversal(b: bv8, r: bv8) {
    forall j: BytePos :: ByteHasBit(r, j) <==> ByteHasBit(b, 7 - j)
  }

  lemma OrBitAt(r: bv8, p: BytePos, j: BytePos)
    ensures ByteHasBit(r | (1 << p), j) <==> (j == p || ByteHasBit(r, j))
  {
  }

  /**
    `byte_reverse_bits`: bit `k` of the input becomes bit `7 - k` of the
    output, one bit at a time.
   */
  method ByteReverseBits(b: bv8) returns (r: bv8)
    ensures IsReversal(b, r)
  {
    r := 0;
    var k: bv8 := 0;
    while k < 8
      invariant k <= 8
      invariant forall j: BytePos :: 8 - k <= j ==> (ByteHasBit(r, j) <==> ByteHasBit(b, 7 - j))
      invariant forall j: BytePos :: j < 8 - k ==> !ByteHasBit(r, j)
    {
      var before := r;
      if ByteHasBit(b, k) {
        r := r | (1 << (7 - k));
        forall j: BytePos ensures ByteHasBit(r, j) <==> (j == 7 - k || ByteHasBit(before, j)) {
          OrBitAt(before, 7 - k, j);
        }
      }
      k := k + 1;
    }
  }

  lemma ByteBitStep(a: bv8, b: bv8, i: BytePos)
    requires (a & ((1 << i) - 1)) == (b & ((1 << i) - 1))
    requires ByteHasBit(a, i) <==> ByteHasBit(b, i)
    ensures (a & ((1 << (i + 1)) - 1)) == (b & ((1 << (i + 1)) - 1))
  {
  }

  /** Two bytes with the same bits are the same byte. */
  lemma BitsDetermineByte(a: bv8, b: bv8)
    requires forall i: BytePos :: ByteHasBit(a, i) <==> ByteHasBit(b, i)
    ensures a == b
  {
    var i: bv8 := 0;
    while i < 8
      invariant i <= 8
      invariant (a & ((1 << i) - 1)) == (b & ((1 << i) - 1))
    {
      assert ByteHasBit(a, i) <==> ByteHasBit(b, i);
      ByteBitStep(a, b, i);
      i := i + 1;
    }
  }

  /** The reversal of a byte is unique, and reversing it again gives the byte back. */
  lemma {:induction false} ReversalIsInvolution(b: bv8, r: bv8, r2: bv8)
    requires IsReversal(b, r)
    ensures IsReversal(r, b)
    ensures IsReversal(r, r2) ==> r2 == b
  {
    forall j: BytePos ensures ByteHasBit(b, j) <==> ByteHasBit(r, 7 - j) {
      assert ByteHasBit(r, 7 - j) <==> ByteHasBit(b, 7 - (7 - j));
    }
    if IsReversal(r, r2) {
      BitsDetermineByte(r2, b);
    }
  }

  /** The worked example: 0xB5 (1011 0101) reversed is 0xAD (1010 1101). */
  lemma {:induction false} ReversalExample(r: bv8)
    requires IsReversal(0xB5, r)
    ensures r == 0xAD
  {
    forall j: BytePos ensures ByteHasBit(r, j) <==> ByteHasBit(0xAD, j) {
      assert ByteHasBit(r, j) <==> ByteHasBit(0xB5, 7 - j);
    }
    BitsDetermineByte(r, 0xAD);
  }
}
