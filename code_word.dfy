// CodeWord (CodeWord.h, CodeWord.cpp): a binary code word packed into 64-bit
// words, bit i of the word at element i % 64 of word i / 64 (most significant
// bit first), with the number of unused low bits of the last word (the
// offset) and a cached Hamming weight. Every mutator is proved to keep the
// cache equal to the weight of the bits and the padding clear, and to change
// the bit contents exactly as its documentation says.

module CodeWords {
  import opened Bits
  import opened Words
  import opened HammingWeights

  // ---------------------------------------------------------------------
  // The packed representation, as values

  /** The words laid end to end, padding included. */
  function Flatten(ws: seq<Word>): (r: seq<bool>)
    ensures |r| == 64 * |ws|
  {
    if |ws| == 0 then [] else Flatten(ws[..|ws| - 1]) + ws[|ws| - 1]
  }

  /** The sum of the weights of the words: what the cache has to hold. */
  function WordsWeight(ws: seq<Word>): nat
  {
    if |ws| == 0 then 0 else WordsWeight(ws[..|ws| - 1]) + Count(ws[|ws| - 1])
  }

  /** Fewer than 64 free bits, none without words, and the free low bits of
      the last word clear (PushBool ORs the next bit into them). */
  predicate Wellformed(ws: seq<Word>, off: nat)
  {
    off < 64 && (|ws| == 0 ==> off == 0) && (|ws| > 0 ==> IsZero(ws[|ws| - 1][64 - off..]))
  }

  /** The bits held: every word but the last in full, then the first
      64 - off bits of the last word. */
  function BitsOf(ws: seq<Word>, off: nat): (r: seq<bool>)
    requires Wellformed(ws, off)
    ensures |r| == 64 * |ws| - off
  {
    if |ws| == 0 then [] else Flatten(ws[..|ws| - 1]) + ws[|ws| - 1][..64 - off]
  }

  function Min(a: nat, b: nat): nat
  {
    if a < b then a else b
  }

  function Max(a: nat, b: nat): nat
  {
    if a < b then b else a
  }

  /** s without the 64 bits of word i (fewer when word i is the last). */
  function DropWord(s: seq<bool>, i: nat): (r: seq<bool>)
    requires 64 * i <= |s|
  {
    s[..64 * i] + s[Min(64 * i + 64, |s|)..]
  }

  /** `a ^ b` word by word. */
  function XorWords(a: seq<Word>, b: seq<Word>): (r: seq<Word>)
    requires |a| == |b|
    ensures |r| == |a|
  {
    seq(|a|, i requires 0 <= i < |a| => XorWord(a[i], b[i]))
  }

  /** The weighted weight as GetHammingWeight(vWeights) computes it: every set
      bit of word i adds vWeights[i]. */
  function WordWeighted(ws: seq<Word>, v: seq<nat>): nat
    requires |v| >= |ws|
  {
    if |ws| == 0 then 0
    else WordWeighted(ws[..|ws| - 1], v) + v[|ws| - 1] * Count(ws[|ws| - 1])
  }

  /** One step of GetHammingWeight(vWeights)'s inner loop: bit j of w adds
      the word's weight x when it is set. */
  lemma WeightedBitStep(w: Word, j: nat, x: nat)
    requires j < 64
    ensures x * Count(w[..j + 1]) == x * Count(w[..j]) + (if TestBit(w, j) then x else 0)
  {
    TestBitReads(w, j);
    assert w[..j + 1] == w[..j] + [w[j]];
    CountAppend(w[..j], [w[j]]);
  }

  /** One step of its outer loop: all 64 bits of word i counted. */
  lemma WordWeightedStep(ws: seq<Word>, v: seq<nat>, i: nat)
    requires i < |ws| <= |v|
    ensures WordWeighted(ws[..i + 1], v) == WordWeighted(ws[..i], v) + v[i] * Count(ws[i][..64])
  {
    assert ws[..i + 1][..i] == ws[..i];
    assert ws[i][..64] == ws[i];
  }

  /** The same weight read off the bits of a word: bit i lies in word
      i / 64 and adds that word's weight. */
  function BitWordWeight(s: seq<bool>, v: seq<nat>): nat
    requires 64 * |v| >= |s|
  {
    if |s| == 0 then 0
    else BitWordWeight(s[..|s| - 1], v) + (if s[|s| - 1] then v[(|s| - 1) / 64] else 0)
  }

  /** A whole word w behind whole words a adds its set bits times the
      weight of its word. */
  lemma {:induction false} BitWordWeightAppend(a: seq<bool>, w: seq<bool>, v: seq<nat>)
    requires |a| % 64 == 0 && |w| <= 64 && 64 * |v| >= |a| + 64
    ensures BitWordWeight(a + w, v) == BitWordWeight(a, v) + v[|a| / 64] * Count(w)
    decreases |w|
  {
    if |w| == 0 {
      assert a + w == a;
    } else {
      var w', q := w[..|w| - 1], |a| / 64;
      var x, s := v[q], a + w;
      assert s[..|s| - 1] == a + w' && s[|s| - 1] == w[|w| - 1];
      BitWordWeightAppend(a, w', v);
      assert (|s| - 1) / 64 == q by {
        assert |a| == 64 * q;
        DivInWord(q, |w| - 1);
      }
      var c, b := Count(w'), w[|w| - 1];
      assert Count(w) == c + (if b then 1 else 0);
      if b {
        MulSucc(x, c);
      }
    }
  }

  /** One more set bit adds one more word weight. */
  lemma MulSucc(x: int, c: int)
    ensures x * (c + 1) == x * c + x
  {
  }

  /** Position r of word q lies in word q. */
  lemma DivInWord(q: nat, r: nat)
    requires r < 64
    ensures (64 * q + r) / 64 == q
  {
  }

  /** Zeros behind a bit string weigh nothing. */
  lemma {:induction false} BitWordWeightZeros(s: seq<bool>, k: nat, v: seq<nat>)
    requires 64 * |v| >= |s| + k
    ensures BitWordWeight(s + Zeros(k), v) == BitWordWeight(s, v)
    decreases k
  {
    if k == 0 {
      assert s + Zeros(0) == s;
    } else {
      assert (s + Zeros(k))[..|s| + k - 1] == s + Zeros(k - 1);
      BitWordWeightZeros(s, k - 1, v);
    }
  }

  /** Over whole words the word-by-word sum and the bit-by-bit sum agree. */
  lemma {:induction false} WordWeightedFlatten(ws: seq<Word>, v: seq<nat>)
    requires |v| >= |ws|
    ensures WordWeighted(ws, v) == BitWordWeight(Flatten(ws), v)
  {
    if |ws| > 0 {
      var init := ws[..|ws| - 1];
      WordWeightedFlatten(init, v);
      assert ws == init + [ws[|ws| - 1]];
      FlattenSnoc(init, ws[|ws| - 1]);
      BitWordWeightAppend(Flatten(init), ws[|ws| - 1], v);
    }
  }

  /** GetHammingWeight(vWeights) of a code word is BitWordWeight of its
      bits: the padding bits are zero and add nothing. */
  lemma WordWeightedBits(ws: seq<Word>, off: nat, v: seq<nat>)
    requires Wellformed(ws, off) && |v| >= |ws|
    ensures WordWeighted(ws, v) == BitWordWeight(BitsOf(ws, off), v)
  {
    WordWeightedFlatten(ws, v);
    PaddedBits(ws, off);
    BitWordWeightZeros(BitsOf(ws, off), off, v);
  }

  /** With every weight 1 the word-indexed weight is the plain weight. */
  lemma {:induction false} BitWordWeightUnit(s: seq<bool>, v: seq<nat>)
    requires 64 * |v| >= |s| && forall i :: 0 <= i < |v| ==> v[i] == 1
    ensures BitWordWeight(s, v) == Count(s)
  {
    if |s| > 0 {
      BitWordWeightUnit(s[..|s| - 1], v);
    }
  }

  // ---------------------------------------------------------------------
  // Flattening

  lemma FlattenSnoc(ws: seq<Word>, w: Word)
    ensures Flatten(ws + [w]) == Flatten(ws) + w
  {
    assert (ws + [w])[..|ws|] == ws;
  }

  lemma {:induction false} FlattenConcat(a: seq<Word>, b: seq<Word>)
    ensures Flatten(a + b) == Flatten(a) + Flatten(b)
  {
    if |b| == 0 {
      assert a + b == a;
    } else {
      var n := |b| - 1;
      assert (a + b)[..|a + b| - 1] == a + b[..n];
      FlattenConcat(a, b[..n]);
    }
  }

  /** Bit j of word i is bit 64 i + j of the flattening. */
  lemma {:induction false} FlattenAt(ws: seq<Word>, i: nat, j: nat)
    requires i < |ws| && j < 64
    ensures Flatten(ws)[64 * i + j] == ws[i][j]
  {
    if i < |ws| - 1 {
      FlattenAt(ws[..|ws| - 1], i, j);
    }
  }

  /** Word i is bits 64 i to 64 i + 63 of the flattening. */
  lemma FlattenWord(ws: seq<Word>, i: nat)
    requires i < |ws|
    ensures Flatten(ws)[64 * i..64 * i + 64] == ws[i]
  {
    forall j | 0 <= j < 64 ensures Flatten(ws)[64 * i + j] == ws[i][j] {
      FlattenAt(ws, i, j);
    }
  }

  lemma {:induction false} FlattenInjective(a: seq<Word>, b: seq<Word>)
    requires |a| == |b| && Flatten(a) == Flatten(b)
    ensures a == b
  {
    if |a| > 0 {
      var n := |a| - 1;
      assert Flatten(a)[..64 * n] == Flatten(a[..n]);
      assert Flatten(b)[..64 * n] == Flatten(b[..n]);
      assert Flatten(a)[64 * n..] == a[n];
      assert Flatten(b)[64 * n..] == b[n];
      FlattenInjective(a[..n], b[..n]);
      assert a == a[..n] + [a[n]] && b == b[..n] + [b[n]];
    }
  }

  /** Setting bit j of word i sets bit 64 i + j of the flattening. */
  lemma {:induction false} FlattenUpdate(ws: seq<Word>, i: nat, j: nat, b: bool)
    requires i < |ws| && j < 64
    ensures Flatten(ws[i := ws[i][j := b]]) == Flatten(ws)[64 * i + j := b]
  {
    var n := |ws| - 1;
    var ws' := ws[i := ws[i][j := b]];
    if i < n {
      assert ws'[..n] == ws[..n][i := ws[..n][i][j := b]];
      FlattenUpdate(ws[..n], i, j, b);
      assert Flatten(ws') == Flatten(ws[..n])[64 * i + j := b] + ws[n];
    } else {
      assert ws'[..n] == ws[..n];
    }
  }

  /** Removing word i removes its 64 bits from the flattening. */
  lemma {:induction false} FlattenRemove(ws: seq<Word>, i: nat)
    requires i < |ws|
    ensures Flatten(ws[..i] + ws[i + 1..]) == Flatten(ws)[..64 * i] + Flatten(ws)[64 * i + 64..]
  {
    var n := |ws| - 1;
    var f := Flatten(ws[..n]);
    assert Flatten(ws) == f + ws[n];
    if i == n {
      assert ws[..i] + ws[i + 1..] == ws[..n];
      assert Flatten(ws)[..64 * i] == f;
    } else {
      var rest := ws[..n][..i] + ws[..n][i + 1..];
      RemoveSnoc(ws, i);
      FlattenRemove(ws[..n], i);
      FlattenSnoc(rest, ws[n]);
      SliceAppend(f, ws[n], 64 * i, 64 * i + 64);
    }
  }

  /** Removing an element before the last one commutes with the last. */
  lemma RemoveSnoc(ws: seq<Word>, i: nat)
    requires i < |ws| - 1
    ensures var n := |ws| - 1;
            ws[..i] + ws[i + 1..] == (ws[..n][..i] + ws[..n][i + 1..]) + [ws[n]]
  {
  }

  lemma {:induction false} FlattenXor(a: seq<Word>, b: seq<Word>)
    requires |a| == |b|
    ensures Flatten(XorWords(a, b)) == Xor(Flatten(a), Flatten(b))
  {
    if |a| > 0 {
      var n := |a| - 1;
      assert XorWords(a, b)[..n] == XorWords(a[..n], b[..n]);
      FlattenXor(a[..n], b[..n]);
      XorAppend(Flatten(a[..n]), a[n], Flatten(b[..n]), b[n]);
    }
  }

  // ---------------------------------------------------------------------
  // Bits and weight of a well-formed representation

  lemma BitsWhole(ws: seq<Word>)
    requires Wellformed(ws, 0)
    ensures BitsOf(ws, 0) == Flatten(ws)
  {
    if |ws| > 0 {
      assert ws[|ws| - 1][..64] == ws[|ws| - 1];
    }
  }

  /** The words hold the bits followed by `off` clear padding bits. */
  lemma PaddedBits(ws: seq<Word>, off: nat)
    requires Wellformed(ws, off)
    ensures Flatten(ws) == BitsOf(ws, off) + Zeros(off)
  {
    if |ws| > 0 {
      var last := ws[|ws| - 1];
      assert last[64 - off..] == Zeros(off);
      assert last == last[..64 - off] + last[64 - off..];
    }
  }

  lemma {:induction false} WordsWeightFlatten(ws: seq<Word>)
    ensures WordsWeight(ws) == Count(Flatten(ws))
  {
    if |ws| > 0 {
      WordsWeightFlatten(ws[..|ws| - 1]);
      CountAppend(Flatten(ws[..|ws| - 1]), ws[|ws| - 1]);
    }
  }

  /** With the padding clear, the sum over the words is the weight of the bits. */
  lemma WeightOfBits(ws: seq<Word>, off: nat)
    requires Wellformed(ws, off)
    ensures WordsWeight(ws) == Count(BitsOf(ws, off))
  {
    WordsWeightFlatten(ws);
    PaddedBits(ws, off);
    CountAppend(BitsOf(ws, off), Zeros(off));
    CountZeros(off);
  }

  /** Replacing word k changes the sum by the difference of the weights. */
  lemma {:induction false} WordsWeightUpdate(ws: seq<Word>, k: nat, w: Word)
    requires k < |ws|
    ensures Count(ws[k]) <= WordsWeight(ws)
    ensures WordsWeight(ws[k := w]) == WordsWeight(ws) - Count(ws[k]) + Count(w)
  {
    var n := |ws| - 1;
    if k < n {
      assert ws[k := w][..n] == ws[..n][k := w];
      WordsWeightUpdate(ws[..n], k, w);
    } else {
      assert ws[k := w][..n] == ws[..n];
    }
  }

  /** Removing word k lowers the sum by its weight. */
  lemma {:induction false} WordsWeightRemove(ws: seq<Word>, k: nat)
    requires k < |ws|
    ensures Count(ws[k]) <= WordsWeight(ws)
    ensures WordsWeight(ws[..k] + ws[k + 1..]) == WordsWeight(ws) - Count(ws[k])
  {
    var n := |ws| - 1;
    var ws' := ws[..k] + ws[k + 1..];
    if k < n {
      assert ws'[..n - 1] == ws[..n][..k] + ws[..n][k + 1..];
      assert ws'[n - 1] == ws[n];
      WordsWeightRemove(ws[..n], k);
    } else {
      assert ws' == ws[..n];
    }
  }

  lemma SameLength(a: seq<Word>, oa: nat, b: seq<Word>, ob: nat)
    requires Wellformed(a, oa) && Wellformed(b, ob) && 64 * |a| - oa == 64 * |b| - ob
    ensures |a| == |b| && oa == ob
  {
  }

  /** The representation is canonical: the bits determine the words and the
      offset, so a contract about Bits() describes the whole state. */
  lemma Canonical(a: seq<Word>, oa: nat, b: seq<Word>, ob: nat)
    requires Wellformed(a, oa) && Wellformed(b, ob) && BitsOf(a, oa) == BitsOf(b, ob)
    ensures a == b && oa == ob
  {
    SameLength(a, oa, b, ob);
    PaddedBits(a, oa);
    PaddedBits(b, ob);
    FlattenInjective(a, b);
  }

  // ---------------------------------------------------------------------
  // One step of each mutator on the representation

  /** Writing b into the first free bit of the last word appends b. */
  lemma PushIntoLast(ws: seq<Word>, off: nat, b: bool)
    requires Wellformed(ws, off) && off > 0
    ensures var n := |ws| - 1;
            Wellformed(ws[n := ws[n][64 - off := b]], off - 1)
            && BitsOf(ws[n := ws[n][64 - off := b]], off - 1) == BitsOf(ws, off) + [b]
  {
    var n := |ws| - 1;
    var ws' := ws[n := ws[n][64 - off := b]];
    assert ws'[..n] == ws[..n];
    assert ws'[n][..64 - (off - 1)] == ws[n][..64 - off] + [b];
    assert ws'[n][64 - (off - 1)..] == ws[n][64 - off..][1..];
  }

  lemma PushIntoLastWeight(ws: seq<Word>, off: nat, b: bool)
    requires Wellformed(ws, off) && off > 0
    ensures var n := |ws| - 1;
            WordsWeight(ws[n := ws[n][64 - off := b]]) == WordsWeight(ws) + N(b)
  {
    var n := |ws| - 1;
    PushIntoLast(ws, off, b);
    WeightOfBits(ws, off);
    WeightOfBits(ws[n := ws[n][64 - off := b]], off - 1);
    CountAppend(BitsOf(ws, off), [b]);
  }

  /** Appending a word after a full last word appends its first 64 - off bits. */
  lemma PushWord(ws: seq<Word>, w: Word, off: nat)
    requires Wellformed(ws, 0) && off < 64 && IsZero(w[64 - off..])
    ensures Wellformed(ws + [w], off) && BitsOf(ws + [w], off) == BitsOf(ws, 0) + w[..64 - off]
    ensures WordsWeight(ws + [w]) == WordsWeight(ws) + Count(w)
  {
    BitsWhole(ws);
    assert (ws + [w])[..|ws|] == ws;
  }

  /** Push32 on a full last word: the new word holds d in its high half. */
  lemma PushWidened(ws: seq<Word>, d: Word32, ws2: seq<Word>, weight: nat)
    requires Wellformed(ws, 0) && ws2 == ws + [Widen(d)] && weight == WordsWeight(ws) + Count(Extend(d))
    ensures Wellformed(ws2, 32) && weight == WordsWeight(ws2) && BitsOf(ws2, 32) == BitsOf(ws, 0) + d
  {
    var w := Widen(d);
    assert w[..32] == d && w[32..] == Zeros(32);
    PushWord(ws, w, 32);
    CountAppend(d, Zeros(32));
    CountAppend(Zeros(32), d);
    CountZeros(32);
  }

  /** Push64 on a full last word: d becomes the new last word. */
  lemma PushFullWord(ws: seq<Word>, d: Word, ws2: seq<Word>, weight: nat)
    requires Wellformed(ws, 0) && ws2 == ws + [d] && weight == WordsWeight(ws) + Count(d)
    ensures Wellformed(ws2, 0) && weight == WordsWeight(ws2) && BitsOf(ws2, 0) == BitsOf(ws, 0) + d
  {
    assert IsZero(d[64..]) && d[..64] == d;
    PushWord(ws, d, 0);
  }

  /** PushBool on a full last word: the new word is b followed by 63 clear bits. */
  lemma PushNewWord(ws: seq<Word>, b: bool)
    requires Wellformed(ws, 0)
    ensures var w := ShiftLeft(FromBool(b), 63);
            Wellformed(ws + [w], 63) && BitsOf(ws + [w], 63) == BitsOf(ws, 0) + [b]
            && WordsWeight(ws + [w]) == WordsWeight(ws) + N(b)
  {
    var w := ShiftLeft(FromBool(b), 63);
    assert w == [b] + Zeros(63);
    PushWord(ws, w, 63);
    CountAppend([b], Zeros(63));
    CountZeros(63);
    assert [b][..0] == [];
  }

  /** PushBool's update closes: b goes into the first free bit of the last
      word, or into a new word when the last one is full, and the weight
      grows by one for a set bit. */
  lemma PushStep(ws: seq<Word>, off: nat, b: bool, ws2: seq<Word>, off2: nat, weight: nat)
    requires Wellformed(ws, off)
    requires off > 0 ==> ws2 == ws[|ws| - 1 := ws[|ws| - 1][64 - off := b]] && off2 == off - 1
    requires off == 0 ==> ws2 == ws + [ShiftLeft(FromBool(b), 63)] && off2 == 63
    requires weight == WordsWeight(ws) + N(b)
    ensures Wellformed(ws2, off2) && weight == WordsWeight(ws2) && BitsOf(ws2, off2) == BitsOf(ws, off) + [b]
  {
    if off > 0 {
      PushIntoLast(ws, off, b);
      PushIntoLastWeight(ws, off, b);
    } else {
      PushNewWord(ws, b);
    }
  }

  /** Setting bit i of the code word sets bit i % 64 of word i / 64. */
  lemma SetInBits(ws: seq<Word>, off: nat, i: nat, b: bool)
    requires Wellformed(ws, off) && i < |BitsOf(ws, off)|
    ensures var ws' := ws[i / 64 := ws[i / 64][i % 64 := b]];
            Wellformed(ws', off) && BitsOf(ws', off) == BitsOf(ws, off)[i := b]
  {
    var q, j := i / 64, i % 64;
    assert i == 64 * q + j;
    if q < |ws| - 1 {
      SetInFullWord(ws, off, q, j, b);
    } else {
      SetInLastWord(ws, off, q, j, b);
    }
  }

  lemma SetInFullWord(ws: seq<Word>, off: nat, q: nat, j: nat, b: bool)
    requires Wellformed(ws, off) && q < |ws| - 1 && j < 64
    ensures var ws' := ws[q := ws[q][j := b]];
            Wellformed(ws', off) && BitsOf(ws', off) == BitsOf(ws, off)[64 * q + j := b]
  {
    var n := |ws| - 1;
    var ws' := ws[q := ws[q][j := b]];
    assert ws'[..n] == ws[..n][q := ws[..n][q][j := b]];
    FlattenUpdate(ws[..n], q, j, b);
    UpdateAppend(Flatten(ws[..n]), ws[n][..64 - off], 64 * q + j, b);
  }

  lemma SetInLastWord(ws: seq<Word>, off: nat, q: nat, j: nat, b: bool)
    requires Wellformed(ws, off) && q == |ws| - 1 && j < 64 - off
    ensures var ws' := ws[q := ws[q][j := b]];
            Wellformed(ws', off) && BitsOf(ws', off) == BitsOf(ws, off)[64 * q + j := b]
  {
    var ws' := ws[q := ws[q][j := b]];
    assert ws'[..q] == ws[..q];
    assert ws'[q][64 - off..] == ws[q][64 - off..];
    assert ws'[q][..64 - off] == ws[q][..64 - off][j := b];
  }

  /** SetBool's update closes: the words with bit i % 64 of word i / 64
      set to b, and the weight recounted for that word, represent the old
      bits with bit i set to b. */
  lemma SetStep(ws: seq<Word>, off: nat, i: nat, b: bool, ws2: seq<Word>, weight: nat)
    requires Wellformed(ws, off) && i < |BitsOf(ws, off)|
    requires ws2 == ws[i / 64 := ws[i / 64][i % 64 := b]]
    requires weight == WordsWeight(ws) - Count(ws[i / 64]) + Count(ws2[i / 64])
    ensures Wellformed(ws2, off) && weight == WordsWeight(ws2) && BitsOf(ws2, off) == BitsOf(ws, off)[i := b]
  {
    WordsWeightUpdate(ws, i / 64, ws2[i / 64]);
    SetInBits(ws, off, i, b);
  }

  /** Clearing the last bit (bit 63 - off of the last word) when more than one
      bit of that word is in use gives it back to the padding. */
  lemma PopFromLast(ws: seq<Word>, off: nat)
    requires Wellformed(ws, off) && |ws| > 0 && off < 63
    ensures var n := |ws| - 1;
            var ws' := ws[n := ws[n][63 - off := false]];
            Wellformed(ws', off + 1) && BitsOf(ws', off + 1) == BitsOf(ws, off)[..64 * |ws| - off - 1]
  {
    var n := |ws| - 1;
    var ws' := ws[n := ws[n][63 - off := false]];
    assert ws'[..n] == ws[..n];
    assert ws'[n][..63 - off] == ws[n][..63 - off];
    assert ws[n][..64 - off][..63 - off] == ws[n][..63 - off];
    forall t | 63 - off <= t < 64 ensures !ws'[n][t] {
      if t > 63 - off {
        assert ws'[n][t] == ws[n][64 - off..][t - (64 - off)];
      }
    }
  }

  /** When the last word holds a single bit, clearing it empties the word,
      and dropping the word removes that bit. */
  lemma PopWholeWord(ws: seq<Word>)
    requires Wellformed(ws, 63) && |ws| > 0
    ensures var n := |ws| - 1;
            IsZero(ws[n][0 := false]) && Wellformed(ws[..n], 0)
            && BitsOf(ws[..n], 0) == BitsOf(ws, 63)[..64 * n]
  {
    var n := |ws| - 1;
    BitsWhole(ws[..n]);
    forall t | 0 < t < 64 ensures !ws[n][t] {
      assert ws[n][t] == ws[n][1..][t - 1];
    }
  }

  /** Removing word i removes its bits; when it was the last word the
      previous one is full, so no padding remains. */
  lemma EraseWord(ws: seq<Word>, off: nat, i: nat)
    requires Wellformed(ws, off) && i < |ws|
    ensures var ws' := ws[..i] + ws[i + 1..];
            var off' := if i == |ws| - 1 then 0 else off;
            Wellformed(ws', off') && BitsOf(ws', off') == DropWord(BitsOf(ws, off), i)
  {
    if i == |ws| - 1 {
      EraseLastWord(ws, off);
      assert ws[..i] + ws[i + 1..] == ws[..i];
    } else {
      EraseInnerWord(ws, off, i);
    }
  }

  lemma EraseLastWord(ws: seq<Word>, off: nat)
    requires Wellformed(ws, off) && |ws| > 0
    ensures var n := |ws| - 1;
            Wellformed(ws[..n], 0) && BitsOf(ws[..n], 0) == DropWord(BitsOf(ws, off), n)
  {
    var n := |ws| - 1;
    BitsWhole(ws[..n]);
  }

  lemma EraseInnerWord(ws: seq<Word>, off: nat, i: nat)
    requires Wellformed(ws, off) && i < |ws| - 1
    ensures var ws' := ws[..i] + ws[i + 1..];
            Wellformed(ws', off) && BitsOf(ws', off) == DropWord(BitsOf(ws, off), i)
  {
    var n := |ws| - 1;
    InnerWordRemoved(ws, off, i);
    DropWordAppend(Flatten(ws[..n]), ws[n][..64 - off], i);
  }

  /** Dropping a word inside f is not disturbed by what follows f. */
  lemma DropWordAppend(f: seq<bool>, t: seq<bool>, i: nat)
    requires 64 * i + 64 <= |f|
    ensures DropWord(f + t, i) == f[..64 * i] + f[64 * i + 64..] + t
  {
    SliceAppend(f, t, 64 * i, 64 * i + 64);
  }

  /** Removing a word before the last removes it from the full words. */
  lemma InnerWordRemoved(ws: seq<Word>, off: nat, i: nat)
    requires Wellformed(ws, off) && i < |ws| - 1
    ensures var n := |ws| - 1;
            var f := Flatten(ws[..n]);
            Wellformed(ws[..i] + ws[i + 1..], off)
            && BitsOf(ws[..i] + ws[i + 1..], off) == f[..64 * i] + f[64 * i + 64..] + ws[n][..64 - off]
  {
    var n := |ws| - 1;
    var ws' := ws[..i] + ws[i + 1..];
    assert ws'[..n - 1] == ws[..n][..i] + ws[..n][i + 1..];
    assert ws'[n - 1] == ws[n];
    FlattenRemove(ws[..n], i);
  }

  /** XOR of two representations with the same offset. */
  lemma XorBits(a: seq<Word>, b: seq<Word>, off: nat)
    requires Wellformed(a, off) && Wellformed(b, off) && |a| == |b|
    ensures Wellformed(XorWords(a, b), off)
    ensures BitsOf(XorWords(a, b), off) == Xor(BitsOf(a, off), BitsOf(b, off))
  {
    var x := XorWords(a, b);
    if |a| > 0 {
      var n := |a| - 1;
      forall t | 64 - off <= t < 64 ensures !x[n][t] {
        assert a[n][t] == a[n][64 - off..][t - (64 - off)];
        assert b[n][t] == b[n][64 - off..][t - (64 - off)];
      }
      assert IsZero(x[n][64 - off..]);
    }
    FlattenXor(a, b);
    PaddedBits(a, off);
    PaddedBits(b, off);
    PaddedBits(x, off);
    XorAppend(BitsOf(a, off), Zeros(off), BitsOf(b, off), Zeros(off));
    var L := |BitsOf(a, off)|;
    assert BitsOf(x, off) == Flatten(x)[..L];
    assert Xor(BitsOf(a, off), BitsOf(b, off)) == Flatten(x)[..L];
  }

  /** With clear padding, the last words agree after `>> off` exactly when
      they are equal. */
  lemma ShiftedLastWord(a: Word, b: Word, off: nat)
    requires off < 64 && IsZero(a[64 - off..]) && IsZero(b[64 - off..])
    ensures ShiftRight(a, off) == ShiftRight(b, off) <==> a == b
  {
    if ShiftRight(a, off) == ShiftRight(b, off) {
      assert a[..64 - off] == ShiftRight(a, off)[off..];
      assert b[..64 - off] == ShiftRight(b, off)[off..];
      assert a[64 - off..] == Zeros(off) == b[64 - off..];
      assert a == a[..64 - off] + a[64 - off..];
      assert b == b[..64 - off] + b[64 - off..];
    }
  }

  /** Word i as At64 returns it agrees for two representations with the
      same offset exactly when the stored words agree. */
  lemma WordsAgree(a: seq<Word>, b: seq<Word>, off: nat, i: nat)
    requires Wellformed(a, off) && Wellformed(b, off) && |a| == |b| && i < |a|
    ensures ((if |a| == i + 1 then ShiftRight(a[i], off) else a[i])
             == (if |b| == i + 1 then ShiftRight(b[i], off) else b[i])) <==> a[i] == b[i]
  {
    if |a| == i + 1 {
      ShiftedLastWord(a[i], b[i], off);
    }
  }

  /** Word q of a bit string as At64 hands it out: 64 bits when the word is
      full, and the bits of a shorter last word right-aligned behind zeros. */
  function WordOfBits(s: seq<bool>, q: nat): Word
    requires 64 * q < |s|
  {
    if 64 * q + 64 <= |s| then s[64 * q..64 * q + 64] else Zeros(64 * q + 64 - |s|) + s[64 * q..]
  }

  /** At64's word, computed on the words, is WordOfBits of the bits. */
  lemma At64OfBits(ws: seq<Word>, off: nat, i: nat)
    requires Wellformed(ws, off) && i < |ws|
    ensures 64 * i < |BitsOf(ws, off)|
    ensures (if |ws| == i + 1 then ShiftRight(ws[i], off) else ws[i]) == WordOfBits(BitsOf(ws, off), i)
  {
    var n, B := |ws| - 1, BitsOf(ws, off);
    if i < n {
      FlattenWord(ws[..n], i);
      assert B[64 * i..64 * i + 64] == Flatten(ws[..n])[64 * i..64 * i + 64];
    } else {
      assert B[64 * i..] == ws[i][..64 - off];
      if off == 0 {
        assert B[64 * i..64 * i + 64] == B[64 * i..];
      }
    }
  }

  /** The word At64 returns, read big-endian, is the value of the bits it
      covers, so it is below 2 to the number of those bits. */
  lemma WordOfBitsValue(s: seq<bool>, q: nat)
    requires 64 * q < |s|
    ensures var hi := Min(64 * q + 64, |s|);
            Value(WordOfBits(s, q)) == Value(s[64 * q..hi]) < Pow2(hi - 64 * q)
  {
    var hi := Min(64 * q + 64, |s|);
    if 64 * q + 64 > |s| {
      assert s[64 * q..] == s[64 * q..hi];
      ValueLeadingZeros(64 * q + 64 - |s|, s[64 * q..hi]);
    }
    ValueBound(s[64 * q..hi]);
  }

  /** The weight PopBool subtracts is part of the cached weight. */
  lemma PopCount(ws: seq<Word>, off: nat)
    requires |ws| > 0
    ensures Count(ws[|ws| - 1]) <= WordsWeight(ws)
  {
  }

  /** PopBool's steps on the representation: the last bit (bit 63 - off of
      the last word) is cleared and handed back to the padding, a last word
      left without bits is dropped, and the weight is recounted for the
      last word. The result holds the old bits but the last. */
  lemma PopStep(ws: seq<Word>, off: nat, ws2: seq<Word>, off2: nat, weight: nat)
    requires Wellformed(ws, off) && |ws| > 0
    requires var n := |ws| - 1;
             var ws' := ws[n := ws[n][63 - off := false]];
             ws2 == (if off == 63 then ws'[..n] else ws') && off2 == (if off == 63 then 0 else off + 1)
             && weight == WordsWeight(ws) - Count(ws[n]) + Count(ws'[n])
    ensures Wellformed(ws2, off2) && weight == WordsWeight(ws2)
    ensures BitsOf(ws2, off2) == BitsOf(ws, off)[..|BitsOf(ws, off)| - 1]
  {
    var n := |ws| - 1;
    var ws' := ws[n := ws[n][63 - off := false]];
    WordsWeightUpdate(ws, n, ws'[n]);
    if off < 63 {
      PopFromLast(ws, off);
    } else {
      PopWholeWord(ws);
      CountZero(ws'[n]);
      assert ws'[..n] == ws[..n];
    }
  }

  /** The words of a after the first i of them were XORed with those of b. */
  function XorUpTo(a: seq<Word>, b: seq<Word>, i: nat): (r: seq<Word>)
    requires |a| == |b| && i <= |a|
    ensures |r| == |a|
  {
    XorWords(a[..i], b[..i]) + a[i..]
  }

  /** One step of operator^=: word i is XORed, and the running sum of the
      weights of the first i words grows by the new word's weight. */
  lemma XorStep(a: seq<Word>, b: seq<Word>, i: nat, q: nat)
    requires |a| == |b| && i < |a| && q == i + 1
    ensures XorUpTo(a, b, i)[i] == a[i]
    ensures XorUpTo(a, b, i)[i := XorWord(a[i], b[i])] == XorUpTo(a, b, q)
  {
    var d, e := XorUpTo(a, b, i), XorUpTo(a, b, q);
    assert d[i := XorWord(d[i], b[i])] == e;
  }

  /** ... and the running sum of the weights of the first i words grows by
      the new word's weight. */
  lemma XorStepWeight(a: seq<Word>, b: seq<Word>, i: nat, q: nat)
    requires |a| == |b| && i < |a| && q == i + 1
    ensures WordsWeight(XorUpTo(a, b, q)[..q])
         == WordsWeight(XorUpTo(a, b, i)[..i]) + Count(XorWord(a[i], b[i]))
  {
    var d, e := XorUpTo(a, b, i), XorUpTo(a, b, q);
    XorStep(a, b, i, q);
    assert e[..q][..i] == d[..i];
  }

  /** One iteration of operator^='s loop closes: word i XORed and its
      weight added keep the loop's state in step. */
  lemma XorIterate(a: seq<Word>, b: seq<Word>, i: nat, q: nat, d: seq<Word>, w: nat, d2: seq<Word>, w2: nat)
    requires |a| == |b| && i < |a| && q == i + 1
    requires d == XorUpTo(a, b, i) && w == WordsWeight(XorUpTo(a, b, i)[..i])
    requires d2 == d[i := XorWord(d[i], b[i])] && w2 == w + Count(XorWord(d[i], b[i]))
    ensures d2 == XorUpTo(a, b, q) && w2 == WordsWeight(XorUpTo(a, b, q)[..q])
  {
    XorStep(a, b, i, q);
    XorStepWeight(a, b, i, q);
  }

  lemma XorWhole(a: seq<Word>, b: seq<Word>)
    requires |a| == |b|
    ensures XorUpTo(a, b, |a|)[..|a|] == XorWords(a, b)
  {
    XorUpToEnds(a, b);
  }

  lemma XorUpToEnds(a: seq<Word>, b: seq<Word>)
    requires |a| == |b|
    ensures XorUpTo(a, b, 0) == a && XorUpTo(a, b, |a|) == XorWords(a, b)
  {
    assert a[..|a|] == a && b[..|b|] == b;
    assert XorUpTo(a, b, |a|) == XorWords(a, b) + [];
  }

  /** One step of EraseBool's inner loop: bit p of the old bits f (bit
      p - base of the word w) is pushed unless it is the erased bit k. */
  lemma SkipStep(f: seq<bool>, p: nat, q: nat, k: nat, base: nat, w: Word, before: seq<bool>, after: seq<bool>)
    requires base <= p < base + 64 <= |f| && f[base..base + 64] == w && q == p + 1
    requires before == RemoveAt(f[..p], k)
    requires after == if p != k then before + [w[p - base]] else before
    ensures after == RemoveAt(f[..q], k)
  {
    RemoveAtStep(f, p, k);
    assert f[p] == w[p - base];
  }

  // ---------------------------------------------------------------------
  // The source as written, where it differs from what it documents

  /** PopBool exactly as written: it clears bit 63 - off of the last word and
      counts the offset up, wrapping 64 to 0 without removing the word. */
  function PopBoolAsWritten(ws: seq<Word>, off: nat): (r: (seq<Word>, nat))
    requires Wellformed(ws, off) && |ws| > 0
    ensures |r.0| == |ws| && r.1 < 64
  {
    var n := |ws| - 1;
    var last := And(ws[n], Not(ShiftLeft(FromBool(true), off)));
    (ws[n := last], if off + 1 == 64 then 0 else off + 1)
  }

  /** On a last word holding one bit, PopBool as written does not shorten the
      word by one: it clears that bit and turns the word's 63 padding bits into
      valid bits, so the length grows by 63. */
  lemma PopBoolAsWrittenGrows(ws: seq<Word>)
    requires Wellformed(ws, 63) && |ws| > 0
    ensures var r := PopBoolAsWritten(ws, 63);
            Wellformed(r.0, r.1)
            && BitsOf(r.0, r.1) == BitsOf(ws, 63)[..64 * |ws| - 64] + Zeros(64)
  {
    var n := |ws| - 1;
    var r := PopBoolAsWritten(ws, 63);
    AndNotMask(ws[n], 0);
    PopWholeWord(ws);
    assert r.0[n] == Zeros(64);
    assert r.0[..n] == ws[..n];
    BitsWhole(r.0);
    FlattenSnoc(ws[..n], Zeros(64));
    assert r.0 == ws[..n] + [Zeros(64)];
  }

  /** PopBool's wrap-around on the representation: with one bit in the
      last word, clearing it and wrapping the offset to 0 keeps the
      representation well formed and the cache right, and the bits are the
      full words before the last followed by 64 zeros. */
  lemma PopWrapStep(ws: seq<Word>, ws2: seq<Word>, off2: nat, weight: nat)
    requires Wellformed(ws, 63) && |ws| > 0
    requires ws2 == PopBoolAsWritten(ws, 63).0 && off2 == 0
    requires weight == WordsWeight(ws) - Count(ws[|ws| - 1]) + Count(ws2[|ws| - 1])
    ensures Wellformed(ws2, off2) && weight == WordsWeight(ws2)
    ensures BitsOf(ws2, off2) == BitsOf(ws, 63)[..64 * |ws| - 64] + Zeros(64)
  {
    PopBoolAsWrittenGrows(ws);
    WordsWeightUpdate(ws, |ws| - 1, ws2[|ws| - 1]);
  }

  /** Erase64 exactly as written: it removes the word and keeps the offset. */
  function Erase64AsWritten(ws: seq<Word>, off: nat, i: nat): (r: (seq<Word>, nat))
    requires i < |ws|
    ensures |r.0| == |ws| - 1
  {
    (ws[..i] + ws[i + 1..], off)
  }

  /** A 65-bit word of ones (two words, 63 free bits): erasing its last word
      as written leaves 64 cached ones in a word of length 1, whose padding is
      no longer clear. */
  lemma Erase64AsWrittenBreaksCache()
    ensures var ws := [Flip(Zeros(64)), Flip(Zeros(1)) + Zeros(63)];
            var r := Erase64AsWritten(ws, 63, 1);
            Wellformed(ws, 63) && WordsWeight(ws) == 65
            && !Wellformed(r.0, r.1) && 64 * |r.0| - r.1 == 1 && WordsWeight(r.0) == 64
  {
    var ones: Word := Flip(Zeros(64));
    var w: Word := Flip(Zeros(1)) + Zeros(63);
    var ws: seq<Word> := [ones, w];
    var one: seq<Word> := [ones];
    assert |one[..0]| == 0;
    CountFlip(Zeros(64));
    CountZeros(64);
    CountFlip(Zeros(1));
    CountZeros(1);
    CountAppend(Flip(Zeros(1)), Zeros(63));
    CountZeros(63);
    assert w[1..] == Zeros(63);
    assert ws[..1] == one;
    assert WordsWeight(one) == 64;
    assert WordsWeight(ws) == WordsWeight(one) + Count(w);
    assert Erase64AsWritten(ws, 63, 1).0 == one;
    assert ones[1..][0] == ones[1];
  }

  /** A two-bit word 01 with weights 1 and 5 for its two bits: as written the
      weighted weight is 1 (the weight of word 0), the documented one is 5. */
  lemma WeightIndexedByWord()
    ensures var ws := [[false, true] + Zeros(62)];
            Wellformed(ws, 62) && WordWeighted(ws, [1, 5]) == 1
            && WeightedCount(BitsOf(ws, 62), [1, 5]) == 5
  {
    var w := [false, true] + Zeros(62);
    var ws := [w];
    CountAppend([false, true], Zeros(62));
    CountZeros(62);
    assert [false, true][..1] == [false];
    assert |[false][..0]| == 0;
    assert w[2..] == Zeros(62);
    assert |ws[..0]| == 0;
    assert w[..2] == [false, true];
    assert BitsOf(ws, 62) == [false, true];
  }

  // ---------------------------------------------------------------------
  // The class

  class CodeWord {
    var data: seq<Word>
    var offset: nat
    var weight: nat

    /** The cache holds the weight of the words and the padding is clear. */
    predicate Valid()
      reads this
    {
      Wellformed(data, offset) && weight == WordsWeight(data)
    }

    /** The bits of the code word, in order. */
    function Bits(): seq<bool>
      reads this
      requires Valid()
    {
      BitsOf(data, offset)
    }

    /** A code word of length 0. */
    constructor()
      ensures Valid() && Bits() == []
    {
      data, offset, weight := [], 0, 0;
    }

    function GetHammingWeight(): (r: nat)
      reads this
      requires Valid()
      ensures r == Count(Bits())
    {
      WeightOfBits(data, offset);
      weight
    }

    /** GetHammingWeight(vWeights) as written: vWeights is indexed by the
        word, not by the bit. */
    method GetWeightedHammingWeight(v: seq<nat>) returns (r: nat)
      requires Valid() && |v| >= |data|
      ensures r == WordWeighted(data, v)
    {
      r := 0;
      for i := 0 to |data|
        invariant r == WordWeighted(data[..i], v)
      {
        WordWeightedStep(data, v, i);
        for j := 0 to 64
          invariant r == WordWeighted(data[..i], v) + v[i] * Count(data[i][..j])
        {
          WeightedBitStep(data[i], j, v[i]);
          if TestBit(data[i], j) {
            r := r + v[i];
          }
        }
      }
      assert data[..|data|] == data;
    }

    /** The weighted weight with one weight per bit, as the declaration
        documents it: the sum of vWeights[i] over the set bits i. */
    method GetBitWeightedHammingWeight(v: seq<nat>) returns (r: nat)
      requires Valid() && |v| >= |Bits()|
      ensures r == WeightedCount(Bits(), v)
    {
      r := 0;
      for i := 0 to GetLength()
        invariant r == WeightedCount(Bits()[..i], v)
      {
        assert Bits()[..i + 1][..i] == Bits()[..i];
        if AtBool(i) {
          r := r + v[i];
        }
      }
      assert Bits()[..|Bits()|] == Bits();
    }

    /** The length in bits. */
    function GetLength(): (r: nat)
      reads this
      requires Valid()
      ensures r == |Bits()| && r + offset == 64 * |data|
    {
      64 * |data| - offset
    }

    /** The length in 64-bit words: the bits rounded up to whole words. */
    function GetLength64(): (r: nat)
      reads this
      requires Valid()
      ensures r == |data| && r == (|Bits()| + 63) / 64
    {
      |data|
    }

    /** GetDataBool: every bit of every word, the padding included. */
    method GetDataBool() returns (r: seq<bool>)
      requires Valid()
      ensures |r| == 64 * GetLength64() && r == Bits() + Zeros(offset)
    {
      r := [];
      for i := 0 to |data|
        invariant r == Flatten(data[..i])
      {
        for j := 0 to 64
          invariant r == Flatten(data[..i]) + data[i][..j]
        {
          TestBitReads(data[i], j);
          assert data[i][..j + 1] == data[i][..j] + [data[i][j]];
          r := r + [TestBit(data[i], j)];
        }
        assert data[..i + 1] == data[..i] + [data[i]];
        assert data[i][..64] == data[i];
        FlattenSnoc(data[..i], data[i]);
      }
      assert data[..|data|] == data;
      PaddedBits(data, offset);
    }

    /** GetDataUInt32: each word as two 32-bit halves, the high half first. */
    method GetDataUInt32() returns (r: seq<Word32>)
      requires Valid()
      ensures |r| == 2 * |data|
      ensures forall i :: 0 <= i < |data| ==> r[2 * i] == data[i][..32] && r[2 * i + 1] == data[i][32..]
    {
      r := [];
      for i := 0 to |data|
        invariant |r| == 2 * i
        invariant forall k :: 0 <= k < i ==> r[2 * k] == data[k][..32] && r[2 * k + 1] == data[k][32..]
      {
        assert Truncate32(ShiftRight(data[i], 32)) == data[i][..32];
        r := r + [Truncate32(ShiftRight(data[i], 32)), Truncate32(data[i])];
      }
    }

    /** GetDataUInt64: the words, whose bits are the code word's bits followed
        by the clear padding. */
    function GetDataUInt64(): (r: seq<Word>)
      reads this
      requires Valid()
      ensures |r| == GetLength64() && Flatten(r) == Bits() + Zeros(offset)
    {
      PaddedBits(data, offset);
      data
    }

    /** AtBool(i), for i inside the allocated words: bit i, and false in the
        padding. */
    function AtBool(i: nat): (r: bool)
      reads this
      requires Valid() && i < 64 * |data|
      ensures r == (i < |Bits()| && Bits()[i])
    {
      TestBitReads(data[i / 64], i % 64);
      FlattenAt(data, i / 64, i % 64);
      PaddedBits(data, offset);
      TestBit(data[i / 64], i % 64)
    }

    /** At64(i): word i, the last one shifted right by the offset, which is
        the bits of word i right-aligned (see WordOfBitsValue). */
    function At64(i: nat): (r: Word)
      reads this
      requires Valid() && i < |data|
      ensures 64 * i < |Bits()| && r == WordOfBits(Bits(), i)
    {
      At64OfBits(data, offset, i);
      if |data| == i + 1 then ShiftRight(data[i], offset) else data[i]
    }

    /** SetBool(i, b): bit i becomes b, nothing else changes, and the cache
        follows. */
    method SetBool(i: nat, b: bool)
      modifies this
      requires Valid() && i < |Bits()|
      ensures Valid() && Bits() == old(Bits())[i := b]
    {
      var q, j := i / 64, i % 64;
      ghost var ws := data;
      var w := if b then Or(data[q], Mask(j)) else And(data[q], Not(Mask(j)));
      assert w == ws[q][j := b] by {
        OrMask(ws[q], j);
        AndNotMask(ws[q], j);
      }
      assert HammingWeight(data[q]) <= weight by {
        WordsWeightUpdate(ws, q, w);
      }
      weight := weight - HammingWeight(data[q]);
      data := data[q := w];
      weight := weight + HammingWeight(data[q]);
      SetStep(ws, offset, i, b, data, weight);
    }

    /** Set64(i, d): word i becomes d. For the last word d has to keep the
        padding clear. */
    method Set64(i: nat, d: Word)
      modifies this
      requires Valid() && i < |data| && (i == |data| - 1 ==> IsZero(d[64 - offset..]))
      ensures Valid() && data == old(data)[i := d] && offset == old(offset)
    {
      WordsWeightUpdate(data, i, d);
      weight := weight - HammingWeight(data[i]);
      data := data[i := d];
      weight := weight + HammingWeight(data[i]);
    }

    /** EraseBool(k): the bits are rebuilt one PushBool at a time, skipping
        bit k; a k inside the padding removes nothing. */
    method EraseBool(k: nat)
      modifies this
      requires Valid() && k < 64 * |data|
      ensures Valid() && Bits() == RemoveAt(old(Bits()), k)
    {
      var temp := data;
      var oldOffset := offset;
      ghost var f := Flatten(temp);
      PaddedBits(temp, oldOffset);
      Clear();
      for i := 0 to |temp| - 1
        invariant Valid() && Bits() == RemoveAt(f[..64 * i], k)
      {
        FlattenWord(temp, i);
        PushSkipping(temp[i], 64, 64 * i, k, f);
      }
      var n := |temp| - 1;
      FlattenWord(temp, n);
      PushSkipping(temp[n], 64 - oldOffset, 64 * n, k, f);
      assert f[..64 * n + 64 - oldOffset] == BitsOf(temp, oldOffset);
    }

    /** EraseBool's inner loop: pushes the first `count` bits of w, which
        are bits base.. of the old word f, skipping the one at position k. */
    method PushSkipping(w: Word, count: nat, base: nat, k: nat, ghost f: seq<bool>)
      modifies this
      requires Valid() && count <= 64 && base + 64 <= |f| && f[base..base + 64] == w
      requires Bits() == RemoveAt(f[..base], k)
      ensures Valid() && Bits() == RemoveAt(f[..base + count], k)
    {
      var p := base;
      while p < base + count
        invariant base <= p <= base + count
        invariant Valid() && Bits() == RemoveAt(f[..p], k)
      {
        ghost var before := Bits();
        if p != k {
          TestBitReads(w, p - base);
          PushBool(TestBit(w, p - base));
        }
        var q := p + 1;
        SkipStep(f, p, q, k, base, w, before, Bits());
        p := q;
      }
    }

    /** Erase64(i): word i and its bits are removed. When it is the last
        word, the offset is reset (see Erase64AsWritten). */
    method Erase64(i: nat)
      modifies this
      requires Valid() && i < |data|
      ensures Valid() && Bits() == DropWord(old(Bits()), i)
    {
      EraseWord(data, offset, i);
      WordsWeightRemove(data, i);
      weight := weight - HammingWeight(data[i]);
      data := data[..i] + data[i + 1..];
      if i == |data| {
        offset := 0;
      }
    }

    /** PushBool(b): b becomes the new last bit. */
    method PushBool(b: bool)
      modifies this
      requires Valid()
      ensures Valid() && Bits() == old(Bits()) + [b]
    {
      ghost var ws, off := data, offset;
      if offset > 0 {
        var n := |data| - 1;
        OrPushed(data[n], offset, b);
        data := data[n := Or(data[n], ShiftLeft(FromBool(b), offset - 1))];
        offset := offset - 1;
      } else {
        offset := 63;
        data := data + [ShiftLeft(FromBool(b), offset)];
      }
      if b {
        weight := weight + 1;
      }
      PushStep(ws, off, b, data, offset, weight);
    }

    /** Push32(d): the 32 bits of d are appended, most significant first. */
    method Push32(d: Word32)
      modifies this
      requires Valid()
      ensures Valid() && Bits() == old(Bits()) + d
    {
      if offset > 0 {
        var i := 0;
        while i < 32
          invariant i <= 32 && Valid() && Bits() == old(Bits()) + d[..i]
        {
          TestBitReads(Extend(d), 32 + i);
          ghost var before := Bits();
          PushBool(TestBit(Extend(d), 32 + i));
          var q := i + 1;
          PrefixStep(old(Bits()), d, i, q, before, Bits());
          i := q;
        }
        assert d[..32] == d;
      } else {
        ghost var ws := data;
        data := data + [Widen(d)];
        offset := 32;
        weight := weight + HammingWeight(Extend(d));
        PushWidened(ws, d, data, weight);
      }
    }

    /** Push64(d): the 64 bits of d are appended, most significant first. */
    method Push64(d: Word)
      modifies this
      requires Valid()
      ensures Valid() && Bits() == old(Bits()) + d
    {
      if offset > 0 {
        var i := 0;
        while i < 64
          invariant i <= 64 && Valid() && Bits() == old(Bits()) + d[..i]
        {
          TestBitReads(d, i);
          ghost var before := Bits();
          PushBool(TestBit(d, i));
          var q := i + 1;
          PrefixStep(old(Bits()), d, i, q, before, Bits());
          i := q;
        }
        assert d[..64] == d;
      } else {
        ghost var ws := data;
        data := data + [d];
        weight := weight + HammingWeight(d);
        PushFullWord(ws, d, data, weight);
      }
    }

    /** PopBool() as written: the last bit is cleared and the offset counted
        up. When the last word held one bit the offset wraps from 64 to 0
        and the now empty word stays, so its 64 zero bits become valid bits
        in place of the popped one. */
    method PopBool()
      modifies this
      requires Valid() && |data| > 0
      ensures Valid()
      ensures old(offset) < 63 ==> Bits() == old(Bits())[..|old(Bits())| - 1]
      ensures old(offset) == 63 ==> Bits() == old(Bits())[..64 * |old(data)| - 64] + Zeros(64)
    {
      var n := |data| - 1;
      ghost var ws, off := data, offset;
      AndNotMask(data[n], 63 - offset);
      PopCount(data, offset);
      weight := weight - HammingWeight(data[n]);
      data := data[n := And(data[n], Not(ShiftLeft(FromBool(true), offset)))];
      weight := weight + HammingWeight(data[n]);
      offset := offset + 1;
      if offset == 64 {
        offset := 0;
        PopWrapStep(ws, data, offset, weight);
      } else {
        PopStep(ws, off, data, offset, weight);
      }
    }

    /** PopBool as evidently intended: the last bit is removed, and a last
        word left without bits is dropped. */
    method PopBoolCorrected()
      modifies this
      requires Valid() && |data| > 0
      ensures Valid() && Bits() == old(Bits())[..|old(Bits())| - 1]
    {
      var n := |data| - 1;
      ghost var ws, off := data, offset;
      AndNotMask(data[n], 63 - offset);
      PopCount(data, offset);
      weight := weight - HammingWeight(data[n]);
      data := data[n := And(data[n], Not(ShiftLeft(FromBool(true), offset)))];
      weight := weight + HammingWeight(data[n]);
      offset := offset + 1;
      if offset == 64 {
        data := data[..n];
        offset := 0;
      }
      PopStep(ws, off, data, offset, weight);
    }

    /** Clear(): the empty code word. */
    method Clear()
      modifies this
      ensures Valid() && Bits() == []
    {
      weight := 0;
      data := [];
      offset := 0;
    }

    /** operator=: a copy of the other word's words, offset and cache. */
    method Assign(other: CodeWord)
      modifies this
      requires other.Valid()
      ensures Valid() && Bits() == old(other.Bits())
      ensures data == old(other.data) && offset == old(other.offset)
    {
      weight := other.weight;
      data := other.data;
      offset := other.offset;
    }

    /** operator^=: XOR with a word of the same length, recounting the cache
        word by word. */
    method XorAssign(other: CodeWord)
      modifies this
      requires Valid() && other.Valid() && |other.Bits()| == |Bits()|
      ensures Valid() && Bits() == Xor(old(Bits()), old(other.Bits()))
    {
      var od, oo := other.data, other.offset;
      ghost var a, off := data, offset;
      SameLength(data, offset, od, oo);
      XorWordsInto(od);
      XorBits(a, od, off);
      offset := Max(offset, oo);
    }

    /** The loop of operator^=: each word is XORed with the other's word in
        place and the weight is recounted from the new words. */
    method XorWordsInto(od: seq<Word>)
      modifies this
      requires |data| == |od|
      ensures data == XorWords(old(data), od) && weight == WordsWeight(data)
      ensures offset == old(offset)
    {
      var d, w := data, 0;
      ghost var a := data;
      XorUpToEnds(a, od);
      var i := 0;
      while i < |od|
        invariant i <= |od| && d == XorUpTo(a, od, i)
        invariant w == WordsWeight(XorUpTo(a, od, i)[..i])
        invariant offset == old(offset)
      {
        ghost var d0, w0 := d, w;
        var x := XorWord(d[i], od[i]);
        d := d[i := x];
        w := w + HammingWeight(x);
        var q := i + 1;
        XorIterate(a, od, i, q, d0, w0, d, w);
        i := q;
      }
      XorWhole(a, od);
      data, weight := d, w;
    }

    /** operator^: a fresh word holding the XOR; neither operand changes. */
    method XorOf(other: CodeWord) returns (r: CodeWord)
      requires Valid() && other.Valid() && |other.Bits()| == |Bits()|
      ensures fresh(r) && r.Valid() && r.Bits() == Xor(Bits(), other.Bits())
    {
      r := new CodeWord();
      r.Assign(this);
      r.XorAssign(other);
    }

    /** operator==: for words of equal length, compares At64 word by word;
        true exactly when the bits agree. */
    method Equals(other: CodeWord) returns (r: bool)
      requires Valid() && other.Valid() && |Bits()| == |other.Bits()|
      ensures r <==> Bits() == other.Bits()
    {
      SameLength(data, offset, other.data, other.offset);
      var i := 0;
      while i < other.GetLength64()
        invariant i <= |data| && data[..i] == other.data[..i]
      {
        var x, y := other.At64(i), At64(i);
        WordsAgree(data, other.data, offset, i);
        if x != y {
          return false;
        }
        var q := i + 1;
        PrefixGrows(data, other.data, i, q);
        i := q;
      }
      assert data == data[..i] && other.data == other.data[..i];
      return true;
    }
  }
}
