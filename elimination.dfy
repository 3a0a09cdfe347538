// The row operations GaussMod2 and DeltaGauss apply (LowWeightSearch.cpp):
// adding the pivot row to the rows selected by a test, and what that does to
// the bookkeeping of Reductions, to the unit columns built so far and to the
// Gauss-combinations matrix, whose rows are wider than the generator has
// rows.

module Eliminations {
  import opened Bits
  import opened Reductions

  // ---------------------------------------------------------------------
  // Adding the pivot row

  /** Row j added to every other row i that add selects; row j stays. */
  function AddPivot(m: seq<seq<bool>>, j: nat, add: seq<bool>, w: nat): (r: seq<seq<bool>>)
    requires Rectangular(m, w) && j < |m| && |add| == |m|
    ensures |r| == |m| && Rectangular(r, w)
  {
    seq(|m|, i requires 0 <= i < |m| => if add[i] && i != j then Xor(m[i], m[j]) else m[i])
  }

  /** The rows the elimination loop of GaussMod2 adds row j to: every other
      row whose pivot test for column j succeeds. */
  function PivotTests(rows: seq<seq<bool>>, j: nat, exact: bool): (r: seq<bool>)
    requires forall i :: 0 <= i < |rows| ==> exact || 64 * (j / 64) < |rows[i]|
    ensures |r| == |rows|
  {
    seq(|rows|, i requires 0 <= i < |rows| => i != j && PivotTest(rows[i], j, exact))
  }

  /** On rows of whole words the source's pivot test reads the entry: a
      column whose word exists is inside the row. */
  lemma PivotTestExact(row: seq<bool>, j: nat)
    requires |row| % 64 == 0 && 64 * (j / 64) < |row|
    ensures j < |row| && PivotTest(row, j, false) == PivotTest(row, j, true)
  {
    var p := |row| / 64;
    assert |row| == 64 * p;
    assert j / 64 < p;
    PivotBitReads(row, j);
  }

  /** Adding row j to rows adds the matching combinations as well. */
  lemma TracksAddPivot(rows: seq<seq<bool>>, p: seq<nat>, g: seq<seq<bool>>, coef: seq<seq<bool>>, n: nat,
                       j: nat, add: seq<bool>)
    requires Tracks(rows, p, g, coef, n) && j < |rows| && |add| == |rows|
    ensures Tracks(AddPivot(rows, j, add, n), p, g, AddPivot(coef, j, add, |g|), n)
  {
    var rows', coef' := AddPivot(rows, j, add, n), AddPivot(coef, j, add, |g|);
    forall r | 0 <= r < |rows'| ensures Unpermute(rows'[r], p) == Combine(g, coef'[r], n) {
      if add[r] && r != j {
        UnpermuteXor(rows[r], rows[j], p);
        CombineXor(g, coef[r], coef[j], n);
      }
    }
  }

  /** Row i of m with row j added where add says so is the combination of m
      that row i of the unit rows, given the same additions, selects. */
  lemma AddPivotCombines(m: seq<seq<bool>>, w: nat, j: nat, add: seq<bool>)
    requires Rectangular(m, w) && j < |m| && |add| == |m|
    ensures RowsCombine(AddPivot(m, j, add, w), m, AddPivot(IdentityRows(|m|), j, add, |m|), w)
  {
    var k := |m|;
    var t := AddPivot(IdentityRows(k), j, add, k);
    forall i | 0 <= i < k ensures AddPivot(m, j, add, w)[i] == Combine(m, t[i], w) {
      CombineUnit(m, i, w);
      if add[i] && i != j {
        CombineUnit(m, j, w);
        CombineXor(m, Unit(k, i), Unit(k, j), w);
      }
    }
  }

  /** The unit rows with row j added where add says so are independent:
      outside column j each column still has its one 1. */
  lemma IndependentAddedIdentity(k: nat, j: nat, add: seq<bool>)
    requires j < k && |add| == k
    ensures Independent(AddPivot(IdentityRows(k), j, add, k), k)
  {
    var t := AddPivot(IdentityRows(k), j, add, k);
    forall c | |c| == k && c != Zeros(k) ensures Combine(t, c, k) != Zeros(k) {
      if q :| 0 <= q < k && q != j && c[q] {
        forall r | 0 <= r < k ensures t[r][q] == (r == q) {
        }
        CombineColumnOne(t, c, k, q, q);
      } else {
        assert c == Unit(k, j);
        CombineUnit(t, j, k);
        assert t[j][j];
      }
    }
  }

  /** Adding row j to other rows keeps the rows independent. */
  lemma IndependentAddPivot(m: seq<seq<bool>>, w: nat, j: nat, add: seq<bool>)
    requires Rectangular(m, w) && j < |m| && |add| == |m| && Independent(m, w)
    ensures Independent(AddPivot(m, j, add, w), w)
  {
    AddPivotCombines(m, w, j, add);
    IndependentAddedIdentity(|m|, j, add);
    IndependentCompose(m, AddPivot(IdentityRows(|m|), j, add, |m|), AddPivot(m, j, add, w), w);
  }

  /** With a 1 in column j of row j and unit columns before j, adding row j
      to every other row with a 1 in column j makes column j a unit column
      too. */
  lemma UnitColumnsAddPivot(rows: seq<seq<bool>>, n: nat, j: nat, add: seq<bool>)
    requires Rectangular(rows, n) && j < |rows| && j < n && UnitColumns(rows, n, j) && rows[j][j]
    requires |add| == |rows| && forall i :: 0 <= i < |rows| ==> add[i] == (i != j && rows[i][j])
    ensures UnitColumns(AddPivot(rows, j, add, n), n, j + 1)
  {
    var rows' := AddPivot(rows, j, add, n);
    forall r, c | 0 <= r < |rows| && 0 <= c < j + 1 ensures rows'[r][c] == (r == c) {
      if c < j {
        assert rows[j][c] == (j == c);
      }
    }
  }

  // ---------------------------------------------------------------------
  // The Gauss-combinations matrix

  /** CreateGaussMatrix(k): k unit rows of w bits. */
  function UnitRows(k: nat, w: nat): (r: seq<seq<bool>>)
    ensures |r| == k && Rectangular(r, w)
    ensures forall i :: 0 <= i < k ==> r[i] == Unit(w, i)
  {
    seq(k, i requires 0 <= i < k => Unit(w, i))
  }

  /** The generator g with zero rows appended up to w rows, so that rows of
      w coefficients combine it. */
  function Pad(g: seq<seq<bool>>, w: nat, n: nat): (r: seq<seq<bool>>)
    requires Rectangular(g, n) && |g| <= w
    ensures |r| == w && Rectangular(r, n)
    ensures forall i :: 0 <= i < |g| ==> r[i] == g[i]
    ensures forall i :: |g| <= i < w ==> r[i] == Zeros(n)
  {
    g + seq(w - |g|, i => Zeros(n))
  }

  /** The zero rows contribute nothing: a combination of the padded rows is
      the combination of g by the first |g| coefficients. */
  lemma {:induction false} CombinePad(g: seq<seq<bool>>, w: nat, n: nat, c: seq<bool>)
    requires Rectangular(g, n) && |g| <= w && |c| == w
    ensures Combine(Pad(g, w, n), c, n) == Combine(g, c[..|g|], n)
    decreases w
  {
    var m := Pad(g, w, n);
    if w == |g| {
      assert m == g && c[..|g|] == c;
    } else {
      var c' := c[..w - 1];
      assert m[..w - 1] == Pad(g, w - 1, n);
      CombinePad(g, w - 1, n, c');
      assert c'[..|g|] == c[..|g|];
      XorZeros(Combine(m[..w - 1], c', n));
    }
  }

  /** Whatever the padded rows span, g spans. */
  lemma PadSpan(g: seq<seq<bool>>, w: nat, n: nat, v: seq<bool>)
    requires Rectangular(g, n) && |g| <= w && InSpan(v, Pad(g, w, n), n)
    ensures InSpan(v, g, n)
  {
    var c :| |c| == w && Combine(Pad(g, w, n), c, n) == v;
    CombinePad(g, w, n, c);
  }

  /** The unit rows CreateGaussMatrix builds record the generator itself:
      row i of g is the combination of the padded rows by unit row i. */
  lemma TracksUnitRows(g: seq<seq<bool>>, w: nat, n: nat)
    requires Rectangular(g, n) && |g| <= w
    ensures Tracks(g, [], Pad(g, w, n), UnitRows(|g|, w), n)
  {
    forall r | 0 <= r < |g| ensures Unpermute(g[r], []) == Combine(Pad(g, w, n), UnitRows(|g|, w)[r], n) {
      CombineUnit(Pad(g, w, n), r, n);
    }
  }

  /** Bookkeeping against no permutation is bookkeeping against the
      identity, the column vector GaussMod2 starts from. */
  lemma TracksIdentity(rows: seq<seq<bool>>, g: seq<seq<bool>>, coef: seq<seq<bool>>, n: nat)
    requires Tracks(rows, [], g, coef, n)
    ensures IsPermutation(Identity(n), n) && Tracks(rows, Identity(n), g, coef, n)
  {
    IdentityIsPermutation(n);
    forall r | 0 <= r < |rows| ensures Unpermute(rows[r], Identity(n)) == rows[r] {
      ScatterIdentity(rows[r]);
    }
  }

  /** The DeltaGauss step on rows that track combinations: row lambda added
      where add says so, columns lambda and c exchanged, the exchange
      recorded in p, and the same additions made to the combinations. */
  lemma SwappedSumsTrack(a: seq<seq<bool>>, b: seq<seq<bool>>, p: seq<nat>, g: seq<seq<bool>>, coef: seq<seq<bool>>,
                         n: nat, lambda: nat, c: nat, add: seq<bool>)
    requires Tracks(a, p, g, coef, n) && IsPermutation(p, n) && SwappedSums(a, b, lambda, c, add, n) && !add[lambda]
    ensures IsPermutation(Swap(p, lambda, c), n)
    ensures Tracks(b, Swap(p, lambda, c), g, AddPivot(coef, lambda, add, |g|), n)
  {
    SwapPermutation(p, n, lambda, c);
    var q, coef' := Swap(p, lambda, c), AddPivot(coef, lambda, add, |g|);
    forall i | 0 <= i < |b| ensures |b[i]| == n && Unpermute(b[i], q) == Combine(g, coef'[i], n) {
      assert SwappedRow(a, b, lambda, c, add, i);
      var x := if add[i] then Xor(a[i], a[lambda]) else a[i];
      ScatterSwap(x, p, lambda, c);
      if add[i] {
        UnpermuteXor(a[i], a[lambda], p);
        CombineXor(g, coef[i], coef[lambda], n);
      }
    }
  }
}
