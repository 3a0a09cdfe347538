// The SHA-1 message-expansion code of the examples sha1me.cpp and
// allinone.cpp (both hold the same BuildFunction and SHA1ME). The message
// schedule of FIPS 180-4, section 6.1.2, step 1, cut off after 60 words, is
// GF(2)-linear, so expanding the 512 unit messages gives the rows of a
// 512 x 1920 generator matrix whose code words are exactly the expanded
// messages. 32-bit words are bit sequences, most significant bit first.

module Sha1Expansion {
  import opened Bits
  import opened Words
  import opened CodeWords
  import opened CodeMatrices
  import opened Reductions
  import opened Shortenings

  /** `w << k` on a uint32_t, for k < 32. */
  function ShiftLeft32(w: Word32, k: nat): Word32
    requires k < 32
  {
    w[k..] + Zeros(k)
  }

  /** `(w & 0xFFFFFFFF) >> k` on a uint32_t, for k < 32. */
  function ShiftRight32(w: Word32, k: nat): Word32
    requires k < 32
  {
    Zeros(k) + w[..32 - k]
  }

  function Or32(a: Word32, b: Word32): Word32
  {
    seq(32, i requires 0 <= i < 32 => a[i] || b[i])
  }

  function Xor32(a: Word32, b: Word32): Word32
  {
    Xor(a, b)
  }

  /** The macro ROTL(w, x) for 0 < x < 32, where both of its shifts are
      defined. */
  function Rotl(w: Word32, x: nat): Word32
    requires 0 < x < 32
  {
    Or32(ShiftLeft32(w, x), ShiftRight32(w, 32 - x))
  }

  /** The macro ROTR(w, x) for 0 < x < 32. */
  function Rotr(w: Word32, x: nat): Word32
    requires 0 < x < 32
  {
    Or32(ShiftRight32(w, x), ShiftLeft32(w, 32 - x))
  }

  /** The two shifts of ROTL touch disjoint bits: it is the rotation that
      moves bit x to the front. */
  lemma RotlRotates(w: Word32, x: nat)
    requires 0 < x < 32
    ensures Rotl(w, x) == w[x..] + w[..x]
  {
    var r, s := Rotl(w, x), w[x..] + w[..x];
    forall i | 0 <= i < 32 ensures r[i] == s[i] {
      if i < 32 - x {
        assert ShiftLeft32(w, x)[i] == w[x + i] && !ShiftRight32(w, 32 - x)[i];
      } else {
        assert !ShiftLeft32(w, x)[i] && ShiftRight32(w, 32 - x)[i] == w[i - (32 - x)];
      }
    }
  }

  lemma RotrRotates(w: Word32, x: nat)
    requires 0 < x < 32
    ensures Rotr(w, x) == w[32 - x..] + w[..32 - x]
  {
    var r, s := Rotr(w, x), w[32 - x..] + w[..32 - x];
    forall i | 0 <= i < 32 ensures r[i] == s[i] {
      if i < x {
        assert !ShiftRight32(w, x)[i] && ShiftLeft32(w, 32 - x)[i] == w[32 - x + i];
      } else {
        assert ShiftRight32(w, x)[i] == w[i - x] && !ShiftLeft32(w, 32 - x)[i];
      }
    }
  }

  /** ROTL(_, 1) is a bijection: ROTR(_, 1) undoes it. */
  lemma RotlInverse(w: Word32)
    ensures Rotr(Rotl(w, 1), 1) == w && Rotl(Rotr(w, 1), 1) == w
  {
    RotlRotates(w, 1);
    RotrRotates(Rotl(w, 1), 1);
    RotrRotates(w, 1);
    RotlRotates(Rotr(w, 1), 1);
    var r := Rotl(w, 1);
    assert r[31..] == w[..1] && r[..31] == w[1..];
    assert w[..1] + w[1..] == w;
    var l := Rotr(w, 1);
    assert l[1..] == w[..31] && l[..1] == w[31..];
    assert w[..31] + w[31..] == w;
  }

  /** ROTL(_, 1) distributes over XOR. */
  lemma RotlXor(a: Word32, b: Word32)
    ensures Rotl(Xor32(a, b), 1) == Xor32(Rotl(a, 1), Rotl(b, 1))
  {
    RotlRotates(Xor32(a, b), 1);
    RotlRotates(a, 1);
    RotlRotates(b, 1);
  }

  /** The word SHA1ME stores at j, from the words j - 3, j - 8, j - 14 and
      j - 16 before it. */
  function NextWord(s: seq<Word32>): Word32
    requires |s| >= 16
  {
    var j := |s|;
    Rotl(Xor32(Xor32(Xor32(s[j - 3], s[j - 8]), s[j - 14]), s[j - 16]), 1)
  }

  /** The new word is the XOR of the four earlier words rotated left by
      one place: its bits 1..31, then its bit 0. */
  lemma NextWordRotates(s: seq<Word32>)
    requires |s| >= 16
    ensures var j := |s|;
            var x := Xor32(Xor32(Xor32(s[j - 3], s[j - 8]), s[j - 14]), s[j - 16]);
            NextWord(s) == x[1..] + x[..1]
  {
    var j := |s|;
    RotlRotates(Xor32(Xor32(Xor32(s[j - 3], s[j - 8]), s[j - 14]), s[j - 16]), 1);
  }

  /** The first n words of the schedule of the 16-word message block m. */
  function Schedule(m: seq<Word32>, n: nat): (r: seq<Word32>)
    requires |m| == 16 && 16 <= n
    ensures |r| == n && r[..16] == m
  {
    if n == 16 then m else Schedule(m, n - 1) + [NextWord(Schedule(m, n - 1))]
  }

  /** The schedule keeps its words: a longer one extends a shorter one. */
  lemma {:induction false} ScheduleExtends(m: seq<Word32>, n: nat, n': nat)
    requires |m| == 16 && 16 <= n <= n'
    ensures Schedule(m, n')[..n] == Schedule(m, n)
    decreases n'
  {
    if n < n' {
      ScheduleExtends(m, n, n' - 1);
      assert Schedule(m, n')[..n' - 1] == Schedule(m, n' - 1);
    }
  }

  /** Word j of the schedule, for 16 <= j, is FIPS 180-4's recurrence. */
  lemma ScheduleWord(m: seq<Word32>, n: nat, j: nat)
    requires |m| == 16 && 16 <= j < n
    ensures Schedule(m, n)[j] == Rotl(Xor32(Xor32(Xor32(Schedule(m, n)[j - 3], Schedule(m, n)[j - 8]),
                                                   Schedule(m, n)[j - 14]), Schedule(m, n)[j - 16]), 1)
  {
    ScheduleExtends(m, j + 1, n);
    ScheduleExtends(m, j, n);
    assert Schedule(m, j + 1)[..j] == Schedule(m, j);
  }

  /** SHA1ME(m): words 16..59 of the array filled in place from the first
      16. */
  method Sha1Me(m: array<Word32>)
    modifies m
    requires m.Length == 60
    ensures m[..] == Schedule(old(m[..16]), 60)
  {
    ghost var block := m[..16];
    var j := 16;
    while j < 60
      invariant 16 <= j <= 60 && m[..j] == Schedule(block, j)
    {
      assert m[..j] == Schedule(block, j);
      m[j] := Rotl(Xor32(Xor32(Xor32(m[j - 3], m[j - 8]), m[j - 14]), m[j - 16]), 1);
      assert m[..j + 1] == m[..j] + [m[j]];
      j := j + 1;
    }
  }

  /** Word-wise XOR of two word sequences of the same length. */
  function XorWords32(a: seq<Word32>, b: seq<Word32>): (r: seq<Word32>)
    requires |a| == |b|
    ensures |r| == |a| && forall i :: 0 <= i < |a| ==> r[i] == Xor32(a[i], b[i])
  {
    seq(|a|, i requires 0 <= i < |a| => Xor32(a[i], b[i]))
  }

  lemma Xor4(a0: Word32, a1: Word32, a2: Word32, a3: Word32, b0: Word32, b1: Word32, b2: Word32, b3: Word32)
    ensures Xor32(Xor32(Xor32(Xor32(a0, b0), Xor32(a1, b1)), Xor32(a2, b2)), Xor32(a3, b3)) ==
            Xor32(Xor32(Xor32(Xor32(a0, a1), a2), a3), Xor32(Xor32(Xor32(b0, b1), b2), b3))
  {
  }

  /** The words the recurrence reads from a XOR b are the XORs of those it
      reads from a and from b. */
  lemma NextWordOfXor(sa: seq<Word32>, sb: seq<Word32>)
    requires |sa| == |sb| >= 16
    ensures var j := |sa|;
            NextWord(XorWords32(sa, sb)) ==
            Rotl(Xor32(Xor32(Xor32(Xor32(sa[j - 3], sb[j - 3]), Xor32(sa[j - 8], sb[j - 8])),
                             Xor32(sa[j - 14], sb[j - 14])), Xor32(sa[j - 16], sb[j - 16])), 1)
  {
  }

  /** One step of the recurrence is linear. */
  lemma NextWordXor(sa: seq<Word32>, sb: seq<Word32>)
    requires |sa| == |sb| >= 16
    ensures NextWord(XorWords32(sa, sb)) == Xor32(NextWord(sa), NextWord(sb))
  {
    var j := |sa|;
    NextWordOfXor(sa, sb);
    Xor4(sa[j - 3], sa[j - 8], sa[j - 14], sa[j - 16], sb[j - 3], sb[j - 8], sb[j - 14], sb[j - 16]);
    RotlXor(Xor32(Xor32(Xor32(sa[j - 3], sa[j - 8]), sa[j - 14]), sa[j - 16]),
            Xor32(Xor32(Xor32(sb[j - 3], sb[j - 8]), sb[j - 14]), sb[j - 16]));
  }

  /** The schedule is GF(2)-linear: expanding a XOR b gives the XOR of the
      expansions, which is what makes the rows a linear code. */
  lemma {:induction false} ScheduleXor(a: seq<Word32>, b: seq<Word32>, n: nat)
    requires |a| == 16 && |b| == 16 && 16 <= n
    ensures Schedule(XorWords32(a, b), n) == XorWords32(Schedule(a, n), Schedule(b, n))
  {
    if n > 16 {
      ScheduleXor(a, b, n - 1);
      var sa, sb := Schedule(a, n - 1), Schedule(b, n - 1);
      NextWordXor(sa, sb);
      assert XorWords32(Schedule(a, n), Schedule(b, n)) == XorWords32(sa, sb) + [Xor32(NextWord(sa), NextWord(sb))];
    }
  }

  /** The bits of a sequence of 32-bit words, in order: what pushing them
      one after another with Push32 produces. */
  function Flatten32(ws: seq<Word32>): (r: seq<bool>)
    ensures |r| == 32 * |ws|
  {
    seq(32 * |ws|, k requires 0 <= k < 32 * |ws| => ws[k / 32][k % 32])
  }

  /** The 32-bit words of a bit string whose length is a multiple of 32. */
  function Words32Of(x: seq<bool>): (ws: seq<Word32>)
    requires |x| % 32 == 0
    ensures |ws| == |x| / 32
  {
    seq(|x| / 32, j requires 0 <= j < |x| / 32 => x[32 * j..32 * j + 32])
  }

  lemma Flatten32Snoc(ws: seq<Word32>, w: Word32)
    ensures Flatten32(ws + [w]) == Flatten32(ws) + w
  {
    var a, b := Flatten32(ws + [w]), Flatten32(ws) + w;
    forall k | 0 <= k < |a| ensures a[k] == b[k] {
      if k >= 32 * |ws| {
        assert k / 32 == |ws|;
      }
    }
  }

  lemma Flatten32Words(x: seq<bool>)
    requires |x| % 32 == 0
    ensures Flatten32(Words32Of(x)) == x
  {
    var f := Flatten32(Words32Of(x));
    forall k | 0 <= k < |x| ensures f[k] == x[k] {
      var j := k / 32;
      assert x[32 * j..32 * j + 32][k % 32] == x[k];
    }
  }

  lemma Flatten32Xor(a: seq<Word32>, b: seq<Word32>)
    requires |a| == |b|
    ensures Flatten32(XorWords32(a, b)) == Xor(Flatten32(a), Flatten32(b))
  {
  }

  lemma Words32OfXor(x: seq<bool>, y: seq<bool>)
    requires |x| == |y| && |x| % 32 == 0
    ensures Words32Of(Xor(x, y)) == XorWords32(Words32Of(x), Words32Of(y))
  {
    var a, b := Words32Of(Xor(x, y)), XorWords32(Words32Of(x), Words32Of(y));
    forall j | 0 <= j < |a| ensures a[j] == b[j] {
      assert a[j] == Xor(x, y)[32 * j..32 * j + 32];
    }
  }

  /** The 1920-bit code word of the 512-bit message x: its 60-word schedule
      pushed word by word. */
  function Expand(x: seq<bool>): (r: seq<bool>)
    requires |x| == 512
    ensures |r| == 1920
  {
    Flatten32(Schedule(Words32Of(x), 60))
  }

  /** The expansion begins with the message itself. */
  lemma ExpandPrefix(x: seq<bool>)
    requires |x| == 512
    ensures Expand(x)[..512] == x
  {
    var ws := Words32Of(x);
    var s := Schedule(ws, 60);
    forall k | 0 <= k < 512 ensures Expand(x)[k] == x[k] {
      assert s[k / 32] == ws[k / 32];
      assert x[32 * (k / 32)..32 * (k / 32) + 32][k % 32] == x[k];
    }
  }

  lemma ExpandXor(x: seq<bool>, y: seq<bool>)
    requires |x| == 512 && |y| == 512
    ensures Expand(Xor(x, y)) == Xor(Expand(x), Expand(y))
  {
    Words32OfXor(x, y);
    ScheduleXor(Words32Of(x), Words32Of(y), 60);
    Flatten32Xor(Schedule(Words32Of(x), 60), Schedule(Words32Of(y), 60));
  }

  lemma ExpandZeros()
    ensures Expand(Zeros(512)) == Zeros(1920)
  {
    XorSelfInverse(Zeros(512), Zeros(512));
    assert Xor(Zeros(512), Zeros(512)) == Zeros(512);
    ExpandXor(Zeros(512), Zeros(512));
    assert Xor(Expand(Zeros(512)), Expand(Zeros(512))) == Zeros(1920);
  }

  /** The value 1 as a uint32_t. */
  function One32(): Word32
  {
    Zeros(31) + [true]
  }

  /** The unit word BuildFunction stores in m[i / 32] as written:
      ROTR(1, i + 1). Its shifts are defined only for shift counts below 32,
      that is for i <= 30; for i >= 31 the right shift is by at least 32
      places, which C++ leaves undefined, so no value is given. */
  function UnitWordAsWritten(i: nat): (r: Option<Word32>)
    ensures r.Some? <==> i <= 30
  {
    if i + 1 < 32 then Some(Rotr(One32(), i + 1)) else None
  }

  /** Where it is defined, ROTR(1, i + 1) is the word with only bit i set. */
  lemma UnitWordAsWrittenDefined(i: nat)
    requires i <= 30
    ensures UnitWordAsWritten(i).Some? && UnitWordAsWritten(i).value == Unit(32, i)
  {
    RotrRotates(One32(), i + 1);
  }

  /** Row 31 of the generator is already outside what the macro defines. */
  lemma UnitWordAsWrittenUndefined()
    ensures UnitWordAsWritten(31) == None
  {
  }

  /** The word with only bit i % 32 set, `1 << (31 - i % 32)`: what ROTR(1,
      i + 1) is meant to give for every row i. */
  function UnitWord(i: nat): (w: Word32)
    ensures w == Unit(32, i % 32)
  {
    var w := ShiftLeft32(One32(), 31 - i % 32);
    assert forall b :: 0 <= b < 32 ==> w[b] == (b == i % 32) by {
      forall b | 0 <= b < 32 ensures w[b] == (b == i % 32) {
        if b < i % 32 + 1 {
          assert w[b] == One32()[b + 31 - i % 32];
        }
      }
    }
    w
  }

  /** The 16 words of the unit message e_i. */
  lemma UnitMessage(i: nat)
    requires i < 512
    ensures Words32Of(Unit(512, i)) == seq(16, j => Zeros(32))[i / 32 := UnitWord(i)]
  {
    var a, b := Words32Of(Unit(512, i)), seq(16, j => Zeros(32))[i / 32 := UnitWord(i)];
    forall j | 0 <= j < 16 ensures a[j] == b[j] {
      forall t | 0 <= t < 32 ensures a[j][t] == b[j][t] {
        assert a[j][t] == Unit(512, i)[32 * j + t];
      }
    }
  }

  /** Row i of the generator: the expansion of the unit message e_i. */
  function Row(i: nat): seq<bool>
  {
    if i < 512 then Expand(Unit(512, i)) else []
  }

  /** BuildFunction(i), with the unit word built as intended: a fresh code
      word holding the 60 schedule words of the unit message e_i. */
  method BuildFunction(i: nat) returns (c: CodeWord)
    requires i < 512
    ensures fresh(c) && c.Valid() && c.Bits() == Row(i)
  {
    c := new CodeWord();
    var m := new Word32[60](j => Zeros(32));
    m[i / 32] := UnitWord(i);
    UnitMessage(i);
    assert m[..16] == Words32Of(Unit(512, i));
    Sha1Me(m);
    ghost var words := m[..];
    assert Flatten32(words) == Row(i);
    var j := 0;
    while j < 60
      invariant j <= 60 && c.Valid() && c.Bits() == Flatten32(m[..j]) && m[..] == words
    {
      Flatten32Snoc(m[..j], m[j]);
      assert m[..j + 1] == m[..j] + [m[j]];
      c.Push32(m[j]);
      j := j + 1;
    }
    assert m[..] == m[..60];
  }

  /** The generator Build(&BuildFunction, 512) produces: 512 rows of 1920
      bits. */
  function Generator(): (g: seq<seq<bool>>)
    ensures |g| == 512 && Rectangular(g, 1920)
  {
    seq(512, i requires 0 <= i => Row(i))
  }

  lemma BuildGenerator()
    ensures Built(Row, 512) == Generator()
  {
    BuiltUniform(Row, 512);
  }

  /** The messages whose bits lie in the first k positions. */
  function Truncated(x: seq<bool>, k: nat): (y: seq<bool>)
    requires k <= |x|
    ensures |y| == |x|
  {
    x[..k] + Zeros(|x| - k)
  }

  /** The combination of the first k rows selected by the first k bits of x
      is the expansion of those bits. */
  lemma {:induction false} CombinePrefix(x: seq<bool>, k: nat)
    requires |x| == 512 && k <= 512
    ensures Combine(Generator()[..k], x[..k], 1920) == Expand(Truncated(x, k))
  {
    var g := Generator();
    if k == 0 {
      CombineNone(g[..0], 1920);
      assert x[..0] == Zeros(0);
      assert Truncated(x, 0) == Zeros(512);
      ExpandZeros();
    } else {
      CombinePrefix(x, k - 1);
      assert g[..k][..k - 1] == g[..k - 1] && x[..k][..k - 1] == x[..k - 1];
      var before := Truncated(x, k - 1);
      if x[k - 1] {
        var after := Truncated(x, k);
        assert after == Xor(before, Unit(512, k - 1));
        ExpandXor(before, Unit(512, k - 1));
      } else {
        assert Truncated(x, k) == before;
      }
    }
  }

  /** The code is exactly the set of expanded messages: the combination of
      generator rows selected by the message x is the expansion of x. */
  lemma CodeIsExpansion(x: seq<bool>)
    requires |x| == 512
    ensures Combine(Generator(), x, 1920) == Expand(x)
  {
    CombinePrefix(x, 512);
    assert Generator()[..512] == Generator() && x[..512] == x;
    assert Truncated(x, 512) == x;
  }

  /** Every code word is the expansion of its own first 512 bits, so
      re-expanding the first 16 words of a code word whose last 32 bits are
      zero gives a zero word 59. */
  lemma CodeWordReexpands(c: seq<bool>)
    requires InSpan(c, Generator(), 1920)
    ensures |c| == 1920 && Expand(c[..512]) == c
    ensures IsZero(c[1888..]) ==> Schedule(Words32Of(c[..512]), 60)[59] == Zeros(32)
  {
    var x :| |x| == 512 && Combine(Generator(), x, 1920) == c;
    CodeIsExpansion(x);
    ExpandPrefix(x);
    if IsZero(c[1888..]) {
      var s := Schedule(Words32Of(c[..512]), 60);
      forall t | 0 <= t < 32 ensures !s[59][t] {
        assert Flatten32(s)[32 * 59 + t] == s[59][t];
        assert c[1888..][t] == c[1888 + t];
      }
    }
  }

  /** The column list main builds for shortening: the last 32 columns of a
      matrix with n columns, in ascending order. */
  method ForceZeroColumns(n: nat) returns (r: seq<nat>)
    requires n >= 32
    ensures |r| == 32 && forall i :: 0 <= i < 32 ==> n - 32 <= r[i] < n
    ensures forall i, j :: 0 <= i < j < 32 ==> r[i] < r[j]
    ensures forall i :: 0 <= i < 32 ==> r[i] == n - 32 + i
  {
    r := [];
    var i := 0;
    while i < 32
      invariant i <= 32 && |r| == i && forall t :: 0 <= t < i ==> r[t] == n - 32 + t
    {
      r := r + [n - 32 + i];
      i := i + 1;
    }
  }

  /** main with "-f": the generator shortened on its last 32 columns. Any
      code word of the shortened matrix, such as the one the search
      returns, is the expansion of its first 512 bits with those 32 columns
      deleted, so re-expanding its first 16 words gives a zero word 59. */
  lemma ShortenedWordReexpands(reduced: seq<seq<bool>>, cols: seq<nat>, w: seq<bool>)
    requires |cols| == 32 && forall i :: 0 <= i < 32 ==> cols[i] == 1888 + i
    requires Reaches(reduced, [], Generator(), 1920) && Cleared(reduced, cols, 1920, 32)
    requires Retains(Generator(), reduced, cols, 1920, 32)
    requires InSpan(w, ShortenedRows(reduced, cols, 1920, 32), 1888)
    ensures |w| == 1888 && Schedule(Words32Of(w[..512]), 60)[59] == Zeros(32)
  {
    ShortenedLast(Generator(), reduced, cols, 1920, w);
    var v :| |v| == 1920 && InSpan(v, Generator(), 1920) && IsZero(v[1888..]) && v[..1888] == w;
    TailCutReexpands(v, w);
  }

  /** A code word with a zero tail of 32 bits, the tail cut off, still
      re-expands to a zero word 59. */
  lemma TailCutReexpands(v: seq<bool>, w: seq<bool>)
    requires |v| == 1920 && InSpan(v, Generator(), 1920) && IsZero(v[1888..]) && v[..1888] == w
    ensures |w| == 1888 && Schedule(Words32Of(w[..512]), 60)[59] == Zeros(32)
  {
    assert w[..512] == v[..512];
    CodeWordReexpands(v);
  }
}
