// Machine words as bit strings. CodeWord.cpp and HammingWeight.cpp work on
// uint64_t values with shifts, masks and byte extraction; here a word is the
// sequence of its bits, most significant first, so that bit i of a code word
// (bit 63 - i%64 of word i/64 in the C++ layout) is simply element i%64 of
// word i/64. Every operator the source applies is defined on that sequence.

module Words {
  import opened Bits

  /** A uint64_t: element i is bit 63 - i of the integer. */
  type Word = w: seq<bool> | |w| == 64 witness Zeros(64)

  /** A uint32_t: element i is bit 31 - i of the integer. */
  type Word32 = w: seq<bool> | |w| == 32 witness Zeros(32)

  /** `w >> k`, a logical right shift by k < 64 places. */
  function ShiftRight(w: Word, k: nat): Word
    requires k < 64
  {
    Zeros(k) + w[..64 - k]
  }

  /** `w << k` for k < 64. */
  function ShiftLeft(w: Word, k: nat): Word
    requires k < 64
  {
    w[k..] + Zeros(k)
  }

  function Or(a: Word, b: Word): Word
  {
    seq(64, i requires 0 <= i < 64 => a[i] || b[i])
  }

  function And(a: Word, b: Word): Word
  {
    seq(64, i requires 0 <= i < 64 => a[i] && b[i])
  }

  /** `~a`. */
  function Not(a: Word): Word
  {
    seq(64, i requires 0 <= i < 64 => !a[i])
  }

  /** `static_cast<uint64_t>(b)`: 1 or 0. */
  function FromBool(b: bool): Word
  {
    Zeros(63) + [b]
  }

  /** `static_cast<uint64_t>(1) << (63 - i)`: the mask CodeWord::SetBool
      builds for bit i of a word. */
  function Mask(i: nat): Word
    requires i < 64
  {
    ShiftLeft(FromBool(true), 63 - i)
  }

  /** `(w >> (63 - i)) & 1`: the test AtBool, GetDataBool and the weighted
      weights apply to read bit i of a word. */
  predicate TestBit(w: Word, i: nat)
    requires i < 64
  {
    And(ShiftRight(w, 63 - i), FromBool(true)) == FromBool(true)
  }

  /** `static_cast<uint64_t>(d) << 32`, the word Push32 appends. */
  function Widen(d: Word32): Word
  {
    d + Zeros(32)
  }

  /** `static_cast<uint64_t>(d)` for a uint32_t d: zero extension. */
  function Extend(d: Word32): Word
  {
    Zeros(32) + d
  }

  /** `static_cast<uint32_t>(w)`: the low half of w. */
  function Truncate32(w: Word): Word32
  {
    w[32..]
  }

  /** `a ^ b`. */
  function XorWord(a: Word, b: Word): Word
  {
    Xor(a, b)
  }

  lemma MaskIsUnit(i: nat)
    requires i < 64
    ensures Mask(i) == Unit(64, i)
  {
    var m := Mask(i);
    forall j | 0 <= j < 64 ensures m[j] == (j == i) {
      if j < i {
        assert m[j] == FromBool(true)[j + 63 - i];
      }
    }
  }

  lemma TestBitReads(w: Word, i: nat)
    requires i < 64
    ensures TestBit(w, i) == w[i]
  {
    var a := And(ShiftRight(w, 63 - i), FromBool(true));
    assert a[63] == w[i];
    if a != FromBool(true) {
      var j :| 0 <= j < 64 && a[j] != FromBool(true)[j];
      assert j == 63;
    }
  }

  /** `(w << s) & MSB` is nonzero: the pivot test GaussMod2 applies to the
      word holding column j, with s = j % 64. */
  predicate LeadsAfterShift(w: Word, s: nat)
    requires s < 64
  {
    And(ShiftLeft(w, s), Mask(0)) != Zeros(64)
  }

  lemma LeadsAfterShiftReads(w: Word, s: nat)
    requires s < 64
    ensures LeadsAfterShift(w, s) == w[s]
  {
    MaskIsUnit(0);
    var a := And(ShiftLeft(w, s), Mask(0));
    assert a[0] == w[s];
    if a != Zeros(64) {
      var j :| 0 <= j < 64 && a[j] != Zeros(64)[j];
    }
  }

  /** `w | Mask(i)` sets bit i and nothing else. */
  lemma OrMask(w: Word, i: nat)
    requires i < 64
    ensures Or(w, Mask(i)) == w[i := true]
  {
    MaskIsUnit(i);
  }

  /** `w & ~Mask(i)` clears bit i and nothing else. */
  lemma AndNotMask(w: Word, i: nat)
    requires i < 64
    ensures And(w, Not(Mask(i))) == w[i := false]
  {
    MaskIsUnit(i);
  }

  /** `static_cast<uint64_t>(b) << (k - 1)` ORed into a word whose bits from
      64 - k on are clear sets exactly bit 64 - k to b (PushBool's update). */
  lemma OrPushed(w: Word, k: nat, b: bool)
    requires 0 < k < 64 && IsZero(w[64 - k..])
    ensures Or(w, ShiftLeft(FromBool(b), k - 1)) == w[64 - k := b]
  {
    var r := Or(w, ShiftLeft(FromBool(b), k - 1));
    forall j | 0 <= j < 64 ensures r[j] == w[64 - k := b][j] {
      if j < 64 - k {
        assert ShiftLeft(FromBool(b), k - 1)[j] == FromBool(b)[j + k - 1];
      } else if j > 64 - k {
        assert !w[64 - k..][j - (64 - k)];
      } else {
        assert !w[64 - k..][0];
      }
    }
  }

  /** The big-endian value of a bit string. */
  function Value(s: seq<bool>): nat
  {
    if |s| == 0 then 0 else 2 * Value(s[..|s| - 1]) + (if s[|s| - 1] then 1 else 0)
  }

  function Pow2(n: nat): (r: nat)
    ensures r >= 1
  {
    if n == 0 then 1 else 2 * Pow2(n - 1)
  }

  lemma {:induction false} ValueBound(s: seq<bool>)
    ensures Value(s) < Pow2(|s|)
  {
    if |s| > 0 {
      ValueBound(s[..|s| - 1]);
    }
  }

  lemma {:induction false} ValueZeros(n: nat)
    ensures Value(Zeros(n)) == 0
  {
    if n > 0 {
      assert Zeros(n)[..n - 1] == Zeros(n - 1);
      ValueZeros(n - 1);
    }
  }

  /** Leading zeros do not change the value: what makes `w >> k` the
      value of the first 64 - k bits of w. */
  lemma {:induction false} ValueLeadingZeros(n: nat, s: seq<bool>)
    ensures Value(Zeros(n) + s) == Value(s)
  {
    if |s| == 0 {
      assert Zeros(n) + s == Zeros(n);
      ValueZeros(n);
    } else {
      var s' := s[..|s| - 1];
      assert (Zeros(n) + s)[..|Zeros(n) + s| - 1] == Zeros(n) + s';
      ValueLeadingZeros(n, s');
    }
  }

  lemma {:induction false} ValueInjective(a: seq<bool>, b: seq<bool>)
    requires |a| == |b| && Value(a) == Value(b)
    ensures a == b
  {
    if |a| > 0 {
      var n := |a| - 1;
      assert a[n] == b[n];
      ValueInjective(a[..n], b[..n]);
      assert a == a[..n] + [a[n]] && b == b[..n] + [b[n]];
    }
  }

  /** The value of `w >> k` is the value of the first 64 - k bits. */
  lemma ShiftRightValue(w: Word, k: nat)
    requires k < 64
    ensures Value(ShiftRight(w, k)) == Value(w[..64 - k]) < Pow2(64 - k)
  {
    ValueLeadingZeros(k, w[..64 - k]);
    ValueBound(w[..64 - k]);
  }

  /** The n-bit big-endian representation of v (its low n bits). */
  function ToBits(v: nat, n: nat): (s: seq<bool>)
    ensures |s| == n
  {
    if n == 0 then [] else ToBits(v / 2, n - 1) + [v % 2 == 1]
  }

  lemma {:induction false} ValueToBits(v: nat, n: nat)
    requires v < Pow2(n)
    ensures Value(ToBits(v, n)) == v
  {
    if n > 0 {
      var s := ToBits(v, n);
      assert s[..n - 1] == ToBits(v / 2, n - 1);
      ValueToBits(v / 2, n - 1);
    }
  }

  /** The complement of an n-bit string has value 2^n - 1 minus its value. */
  lemma {:induction false} ValueFlip(s: seq<bool>)
    ensures Value(Flip(s)) + Value(s) == Pow2(|s|) - 1
  {
    if |s| > 0 {
      assert Flip(s)[..|s| - 1] == Flip(s[..|s| - 1]);
      ValueFlip(s[..|s| - 1]);
    }
  }
}
