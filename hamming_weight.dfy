// HammingWeight.h and HammingWeight.cpp: the 256-entry byte table hwt, the
// Hamming weight of a 64-bit word computed from it byte by byte, and the
// weighted weight in which each set bit contributes its own weight.

module HammingWeights {
  import opened Bits
  import opened Words

  /** One line of the table as HammingWeight.h lays it out: eight entries. */
  datatype Line = Line(e0: nat, e1: nat, e2: nat, e3: nat, e4: nat, e5: nat, e6: nat, e7: nat)

  function Entry(l: Line, c: nat): nat
    requires c < 8
  {
    match c
    case 0 => l.e0
    case 1 => l.e1
    case 2 => l.e2
    case 3 => l.e3
    case 4 => l.e4
    case 5 => l.e5
    case 6 => l.e6
    case _ => l.e7
  }

  /** The table hwt of HammingWeight.h, in its 32 lines of 8 entries:
      hwt[v] is entry v % 8 of line v / 8. */
  const HwtLines: seq<Line> := [
    Line(0, 1, 1, 2, 1, 2, 2, 3),
    Line(1, 2, 2, 3, 2, 3, 3, 4),
    Line(1, 2, 2, 3, 2, 3, 3, 4),
    Line(2, 3, 3, 4, 3, 4, 4, 5),
    Line(1, 2, 2, 3, 2, 3, 3, 4),
    Line(2, 3, 3, 4, 3, 4, 4, 5),
    Line(2, 3, 3, 4, 3, 4, 4, 5),
    Line(3, 4, 4, 5, 4, 5, 5, 6),
    Line(1, 2, 2, 3, 2, 3, 3, 4),
    Line(2, 3, 3, 4, 3, 4, 4, 5),
    Line(2, 3, 3, 4, 3, 4, 4, 5),
    Line(3, 4, 4, 5, 4, 5, 5, 6),
    Line(2, 3, 3, 4, 3, 4, 4, 5),
    Line(3, 4, 4, 5, 4, 5, 5, 6),
    Line(3, 4, 4, 5, 4, 5, 5, 6),
    Line(4, 5, 5, 6, 5, 6, 6, 7),
    Line(1, 2, 2, 3, 2, 3, 3, 4),
    Line(2, 3, 3, 4, 3, 4, 4, 5),
    Line(2, 3, 3, 4, 3, 4, 4, 5),
    Line(3, 4, 4, 5, 4, 5, 5, 6),
    Line(2, 3, 3, 4, 3, 4, 4, 5),
    Line(3, 4, 4, 5, 4, 5, 5, 6),
    Line(3, 4, 4, 5, 4, 5, 5, 6),
    Line(4, 5, 5, 6, 5, 6, 6, 7),
    Line(2, 3, 3, 4, 3, 4, 4, 5),
    Line(3, 4, 4, 5, 4, 5, 5, 6),
    Line(3, 4, 4, 5, 4, 5, 5, 6),
    Line(4, 5, 5, 6, 5, 6, 6, 7),
    Line(3, 4, 4, 5, 4, 5, 5, 6),
    Line(4, 5, 5, 6, 5, 6, 6, 7),
    Line(4, 5, 5, 6, 5, 6, 6, 7),
    Line(5, 6, 6, 7, 6, 7, 7, 8)
  ]

  /** `hwt[v]`. */
  function Hwt(v: nat): (w: nat)
    requires v < 256
    ensures w <= 8
  {
    Entry(HwtLines[v / 8], v % 8)
  }

  function N(b: bool): nat
  {
    if b then 1 else 0
  }

  /** The byte whose bits, most significant first, are a0 .. a7. */
  function ByteOf(a0: bool, a1: bool, a2: bool, a3: bool, a4: bool, a5: bool, a6: bool, a7: bool): nat
  {
    128 * N(a0) + 64 * N(a1) + 32 * N(a2) + 16 * N(a3) + 8 * N(a4) + 4 * N(a5) + 2 * N(a6) + N(a7)
  }

  /** The number of ones among a0 .. a7. */
  function OnesOf(a0: bool, a1: bool, a2: bool, a3: bool, a4: bool, a5: bool, a6: bool, a7: bool): nat
  {
    N(a0) + N(a1) + N(a2) + N(a3) + N(a4) + N(a5) + N(a6) + N(a7)
  }

  // The table checked one block of 32 entries at a time: the three leading
  // bits of the index are fixed, the remaining five range freely.

  lemma Block0(a3: bool, a4: bool, a5: bool, a6: bool, a7: bool)
    ensures Hwt(ByteOf(false, false, false, a3, a4, a5, a6, a7)) == OnesOf(false, false, false, a3, a4, a5, a6, a7)
  {
  }

  lemma Block1(a3: bool, a4: bool, a5: bool, a6: bool, a7: bool)
    ensures Hwt(ByteOf(false, false, true, a3, a4, a5, a6, a7)) == OnesOf(false, false, true, a3, a4, a5, a6, a7)
  {
  }

  lemma Block2(a3: bool, a4: bool, a5: bool, a6: bool, a7: bool)
    ensures Hwt(ByteOf(false, true, false, a3, a4, a5, a6, a7)) == OnesOf(false, true, false, a3, a4, a5, a6, a7)
  {
  }

  lemma Block3(a3: bool, a4: bool, a5: bool, a6: bool, a7: bool)
    ensures Hwt(ByteOf(false, true, true, a3, a4, a5, a6, a7)) == OnesOf(false, true, true, a3, a4, a5, a6, a7)
  {
  }

  lemma Block4(a3: bool, a4: bool, a5: bool, a6: bool, a7: bool)
    ensures Hwt(ByteOf(true, false, false, a3, a4, a5, a6, a7)) == OnesOf(true, false, false, a3, a4, a5, a6, a7)
  {
  }

  lemma Block5(a3: bool, a4: bool, a5: bool, a6: bool, a7: bool)
    ensures Hwt(ByteOf(true, false, true, a3, a4, a5, a6, a7)) == OnesOf(true, false, true, a3, a4, a5, a6, a7)
  {
  }

  lemma Block6(a3: bool, a4: bool, a5: bool, a6: bool, a7: bool)
    ensures Hwt(ByteOf(true, true, false, a3, a4, a5, a6, a7)) == OnesOf(true, true, false, a3, a4, a5, a6, a7)
  {
  }

  lemma Block7(a3: bool, a4: bool, a5: bool, a6: bool, a7: bool)
    ensures Hwt(ByteOf(true, true, true, a3, a4, a5, a6, a7)) == OnesOf(true, true, true, a3, a4, a5, a6, a7)
  {
  }

  /** Value of the first k bits, folded left to right. */
  function Horner(s: seq<bool>, k: nat): nat
    requires k <= |s|
  {
    if k == 0 then 0 else 2 * Horner(s, k - 1) + N(s[k - 1])
  }

  /** Number of ones among the first k bits, counted left to right. */
  function Ones(s: seq<bool>, k: nat): nat
    requires k <= |s|
  {
    if k == 0 then 0 else Ones(s, k - 1) + N(s[k - 1])
  }

  lemma {:induction false} ValueIsHorner(s: seq<bool>, k: nat)
    requires k <= |s|
    ensures Value(s[..k]) == Horner(s, k) && Count(s[..k]) == Ones(s, k)
  {
    if k > 0 {
      assert s[..k][..k - 1] == s[..k - 1];
      ValueIsHorner(s, k - 1);
    }
  }

  lemma ValueIsHornerAll(s: seq<bool>)
    ensures Value(s) == Horner(s, |s|) && Count(s) == Ones(s, |s|)
  {
    ValueIsHorner(s, |s|);
    assert s[..|s|] == s;
  }

  lemma HornerNibble(s: seq<bool>, k: nat)
    requires k + 4 <= |s|
    ensures Horner(s, k + 4) == 16 * Horner(s, k) + 8 * N(s[k]) + 4 * N(s[k + 1]) + 2 * N(s[k + 2]) + N(s[k + 3])
  {
    assert Horner(s, k + 4) == 2 * Horner(s, k + 3) + N(s[k + 3]);
    assert Horner(s, k + 3) == 2 * Horner(s, k + 2) + N(s[k + 2]);
    assert Horner(s, k + 2) == 2 * Horner(s, k + 1) + N(s[k + 1]);
  }

  lemma OnesNibble(s: seq<bool>, k: nat)
    requires k + 4 <= |s|
    ensures Ones(s, k + 4) == Ones(s, k) + N(s[k]) + N(s[k + 1]) + N(s[k + 2]) + N(s[k + 3])
  {
    assert Ones(s, k + 4) == Ones(s, k + 3) + N(s[k + 3]);
    assert Ones(s, k + 3) == Ones(s, k + 2) + N(s[k + 2]);
    assert Ones(s, k + 2) == Ones(s, k + 1) + N(s[k + 1]);
  }

  /** An 8-bit string's value, written out bit by bit. */
  lemma ValueOfByte(s: seq<bool>)
    requires |s| == 8
    ensures Value(s) == ByteOf(s[0], s[1], s[2], s[3], s[4], s[5], s[6], s[7])
  {
    ValueIsHornerAll(s);
    HornerNibble(s, 0);
    HornerNibble(s, 4);
  }

  /** An 8-bit string's weight, written out bit by bit. */
  lemma CountOfByte(s: seq<bool>)
    requires |s| == 8
    ensures Count(s) == OnesOf(s[0], s[1], s[2], s[3], s[4], s[5], s[6], s[7])
  {
    ValueIsHornerAll(s);
    OnesNibble(s, 0);
    OnesNibble(s, 4);
  }

  lemma ByteBound(s: seq<bool>)
    requires |s| == 8
    ensures Value(s) < 256
  {
    ValueBound(s);
    assert Pow2(8) == 256;
  }

  /** The table is right for every byte given by its eight bits. */
  lemma ByteBits(a0: bool, a1: bool, a2: bool, a3: bool, a4: bool, a5: bool, a6: bool, a7: bool)
    ensures ByteOf(a0, a1, a2, a3, a4, a5, a6, a7) < 256
    ensures Hwt(ByteOf(a0, a1, a2, a3, a4, a5, a6, a7)) == OnesOf(a0, a1, a2, a3, a4, a5, a6, a7)
  {
    if a0 {
      HighHalf(a1, a2, a3, a4, a5, a6, a7);
    } else {
      LowHalf(a1, a2, a3, a4, a5, a6, a7);
    }
  }

  /** The entries 0 .. 127. */
  lemma LowHalf(a1: bool, a2: bool, a3: bool, a4: bool, a5: bool, a6: bool, a7: bool)
    ensures Hwt(ByteOf(false, a1, a2, a3, a4, a5, a6, a7)) == OnesOf(false, a1, a2, a3, a4, a5, a6, a7)
  {
    if a1 {
      if a2 { Block3(a3, a4, a5, a6, a7); } else { Block2(a3, a4, a5, a6, a7); }
    } else {
      if a2 { Block1(a3, a4, a5, a6, a7); } else { Block0(a3, a4, a5, a6, a7); }
    }
  }

  /** The entries 128 .. 255. */
  lemma HighHalf(a1: bool, a2: bool, a3: bool, a4: bool, a5: bool, a6: bool, a7: bool)
    ensures Hwt(ByteOf(true, a1, a2, a3, a4, a5, a6, a7)) == OnesOf(true, a1, a2, a3, a4, a5, a6, a7)
  {
    if a1 {
      if a2 { Block7(a3, a4, a5, a6, a7); } else { Block6(a3, a4, a5, a6, a7); }
    } else {
      if a2 { Block5(a3, a4, a5, a6, a7); } else { Block4(a3, a4, a5, a6, a7); }
    }
  }

  /** The table is right: the entry a byte indexes is the byte's weight. */
  lemma ByteTable(s: seq<bool>)
    requires |s| == 8
    ensures Value(s) < 256 && Hwt(Value(s)) == Count(s)
  {
    ByteBound(s);
    ValueOfByte(s);
    CountOfByte(s);
    ByteBits(s[0], s[1], s[2], s[3], s[4], s[5], s[6], s[7]);
  }

  /** Every entry hwt[b] is the number of ones in the binary form of b. */
  lemma HwtIsWeight(b: nat)
    requires b < 256
    ensures Hwt(b) == Count(ToBits(b, 8)) <= 8
  {
    ValueToBits(b, 8);
    ByteTable(ToBits(b, 8));
  }

  /** The complement of the byte b is the byte 255 - b. */
  lemma FlipByte(b: nat)
    requires b < 256
    ensures Value(Flip(ToBits(b, 8))) == 255 - b
  {
    assert Pow2(8) == 256;
    ValueToBits(b, 8);
    ValueFlip(ToBits(b, 8));
  }

  lemma HwtOfFlip(b: nat)
    requires b < 256
    ensures Hwt(255 - b) == Count(Flip(ToBits(b, 8)))
  {
    var t := Flip(ToBits(b, 8));
    FlipByte(b);
    ByteTable(t);
  }

  /** Complementing a byte complements its weight. */
  lemma HwtComplement(b: nat)
    requires b < 256
    ensures Hwt(b) + Hwt(255 - b) == 8
  {
    HwtIsWeight(b);
    HwtOfFlip(b);
    CountFlip(ToBits(b, 8));
  }

  /** `0xFF` as a 64-bit mask. */
  const ByteMask: Word := Zeros(56) + [true, true, true, true, true, true, true, true]

  /** `(w >> 8t) & 0xFF`, the index HammingWeight looks up for byte t of w
      (byte 0 being the least significant). */
  function ByteIndex(w: Word, t: nat): nat
    requires t < 8
  {
    Value(And(ShiftRight(w, 8 * t), ByteMask))
  }

  /** Byte t of a word is the bit string w[56 - 8t .. 64 - 8t]. */
  lemma ByteIndexReads(w: Word, t: nat)
    requires t < 8
    ensures ByteIndex(w, t) == Value(w[56 - 8 * t..64 - 8 * t]) < 256
  {
    var x := ShiftRight(w, 8 * t);
    var byte := w[56 - 8 * t..64 - 8 * t];
    assert And(x, ByteMask) == Zeros(56) + byte;
    ValueLeadingZeros(56, byte);
    ByteTable(byte);
  }

  lemma CountSplit(w: Word, k: nat)
    requires 1 <= k < 8
    ensures Count(w[..8 * k + 8]) == Count(w[..8 * k]) + Count(w[8 * k..8 * k + 8])
  {
    assert w[..8 * k + 8] == w[..8 * k] + w[8 * k..8 * k + 8];
    CountAppend(w[..8 * k], w[8 * k..8 * k + 8]);
  }

  /** The weight of a word is the sum of the weights of its eight bytes. */
  lemma CountBytes(w: Word)
    ensures Count(w) == Count(w[56..64]) + Count(w[48..56]) + Count(w[40..48]) + Count(w[32..40])
                      + Count(w[24..32]) + Count(w[16..24]) + Count(w[8..16]) + Count(w[0..8])
  {
    CountSplit(w, 7); CountSplit(w, 6); CountSplit(w, 5); CountSplit(w, 4);
    CountSplit(w, 3); CountSplit(w, 2); CountSplit(w, 1);
    assert w[..64] == w && w[..8] == w[0..8];
  }

  /** `HammingWeight(uint64_t)`: eight table lookups, one per byte; the result
      is the number of set bits of the word. */
  function HammingWeight(w: Word): (r: nat)
    ensures r == Count(w) && r <= 64
  {
    ByteIndexReads(w, 0); ByteIndexReads(w, 1); ByteIndexReads(w, 2); ByteIndexReads(w, 3);
    ByteIndexReads(w, 4); ByteIndexReads(w, 5); ByteIndexReads(w, 6); ByteIndexReads(w, 7);
    ByteTable(w[56..64]); ByteTable(w[48..56]); ByteTable(w[40..48]); ByteTable(w[32..40]);
    ByteTable(w[24..32]); ByteTable(w[16..24]); ByteTable(w[8..16]); ByteTable(w[0..8]);
    CountBytes(w);
    Hwt(ByteIndex(w, 0)) + Hwt(ByteIndex(w, 1)) + Hwt(ByteIndex(w, 2)) + Hwt(ByteIndex(w, 3))
    + Hwt(ByteIndex(w, 4)) + Hwt(ByteIndex(w, 5)) + Hwt(ByteIndex(w, 6)) + Hwt(ByteIndex(w, 7))
  }

  /** The weighted weight of a bit string: the sum of v[i] over its set bits i. */
  function WeightedCount(s: seq<bool>, v: seq<nat>): nat
    requires |v| >= |s|
  {
    if |s| == 0 then 0
    else WeightedCount(s[..|s| - 1], v) + (if s[|s| - 1] then v[|s| - 1] else 0)
  }

  /** `HammingWeight(uint64_t, std::vector<uint64_t> &)`: bit i (counted from
      the most significant) adds vWeights[i] when it is set. */
  method WeightedHammingWeight(w: Word, v: seq<nat>) returns (r: nat)
    requires |v| >= 64
    ensures r == WeightedCount(w, v)
  {
    r := 0;
    for i := 0 to 64
      invariant r == WeightedCount(w[..i], v)
    {
      TestBitReads(w, i);
      assert w[..i + 1][..i] == w[..i];
      if TestBit(w, i) {
        r := r + v[i];
      }
    }
    assert w[..64] == w;
  }

  /** With every weight 1 the weighted weight is the plain weight. */
  lemma {:induction false} WeightedUnit(s: seq<bool>, v: seq<nat>)
    requires |v| >= |s| && forall i :: 0 <= i < |s| ==> v[i] == 1
    ensures WeightedCount(s, v) == Count(s)
  {
    if |s| > 0 {
      WeightedUnit(s[..|s| - 1], v);
    }
  }

  /** Sum of the first n weights. */
  function Total(v: seq<nat>, n: nat): nat
    requires n <= |v|
  {
    if n == 0 then 0 else Total(v, n - 1) + v[n - 1]
  }

  /** The set bits of s and of its complement share out the total weight. */
  lemma {:induction false} WeightedComplement(s: seq<bool>, v: seq<nat>)
    requires |v| >= |s|
    ensures WeightedCount(s, v) + WeightedCount(Flip(s), v) == Total(v, |s|)
  {
    if |s| > 0 {
      assert Flip(s)[..|s| - 1] == Flip(s[..|s| - 1]);
      WeightedComplement(s[..|s| - 1], v);
    }
  }
}
