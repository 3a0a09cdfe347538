// Row reduction over GF(2) as LowWeightSearch.cpp performs it (GaussMod2,
// CodeShortening, DeltaGauss) and the column permutations the search undoes
// at the end (BuildMinVector): the pivot test as the source computes it, and
// the bookkeeping that relates the rows reached by row swaps, row additions
// and column swaps to the rows they started from.

module Reductions {
  import opened Bits
  import opened Words
  import opened CodeWords
  import opened CodeMatrices

  // ---------------------------------------------------------------------
  // The pivot test

  /** GaussMod2's pivot test for column j, `(At64(j / 64) << (j % 64)) & MSB`:
      bit j % 64 of the word At64 hands out for j / 64. */
  predicate PivotBit(row: seq<bool>, j: nat)
    requires 64 * (j / 64) < |row|
  {
    LeadsAfterShift(WordOfBits(row, j / 64), j % 64)
  }

  /** The test the reduction applies: the entry itself (AtBool, false past
      the end) when exact, the source's word test otherwise. */
  predicate PivotTest(row: seq<bool>, j: nat, exact: bool)
    requires exact || 64 * (j / 64) < |row|
  {
    if exact then j < |row| && row[j] else PivotBit(row, j)
  }

  /** Column j lies in a word of a row of n bits: the condition under which
      At64(j / 64) exists. */
  lemma WordIndex(j: nat, n: nat)
    requires j < 64 * ((n + 63) / 64)
    ensures 64 * (j / 64) < n
  {
  }

  /** In a full word the test reads entry j. */
  lemma PivotBitReads(row: seq<bool>, j: nat)
    requires j < 64 * (|row| / 64)
    ensures 64 * (j / 64) < |row| && PivotBit(row, j) == row[j]
  {
    var q := j / 64;
    assert 64 * q + 64 <= |row|;
    LeadsAfterShiftReads(WordOfBits(row, q), j % 64);
  }

  /** In a partly filled last word the test reads the entry pad places
      earlier, pad being the free bits of the word, or one of the leading
      zeros At64 shifts in. */
  lemma PivotBitInLastWord(row: seq<bool>, j: nat)
    requires 64 * (j / 64) < |row| < 64 * (j / 64) + 64
    ensures var pad := 64 * (j / 64) + 64 - |row|;
            PivotBit(row, j) == (j % 64 >= pad && row[j - pad])
  {
    var q, pad := j / 64, 64 * (j / 64) + 64 - |row|;
    var w := WordOfBits(row, q);
    assert w == Zeros(pad) + row[64 * q..];
    LeadsAfterShiftReads(w, j % 64);
    if j % 64 >= pad {
      assert w[j % 64] == row[64 * q..][j % 64 - pad];
    }
  }

  /** The full-rank matrix [[1, 1], [0, 1]] of length 2: every pivot test
      GaussMod2 applies to it reads false, although the diagonal is set. So
      the row search never succeeds, the column search settles on column j
      itself, no row is ever added, and the matrix, which is not systematic,
      comes back unchanged. */
  lemma PivotBitMisreads()
    ensures var g := [[true, true], [false, true]];
            !PivotBit(g[0], 0) && !PivotBit(g[0], 1) && !PivotBit(g[1], 0) && !PivotBit(g[1], 1) &&
            g[0][0] && g[1][1] && !Systematic(g, 2)
  {
    var g := [[true, true], [false, true]];
    PivotBitInLastWord(g[0], 0);
    PivotBitInLastWord(g[0], 1);
    PivotBitInLastWord(g[1], 0);
    PivotBitInLastWord(g[1], 1);
    assert g[0][1] != (0 == 1);
  }

  // ---------------------------------------------------------------------
  // Undoing column permutations

  /** An empty vector (no permutation applied) or a permutation of 0..n-1. */
  predicate Unpermutable(p: seq<nat>, n: nat)
  {
    |p| == 0 || IsPermutation(p, n)
  }

  /** The columns put back where p took them from, as the loops
      `r.SetBool(p[j], s.AtBool(j))` of BuildMinVector do; an empty p leaves
      s as it is. */
  function Unpermute(s: seq<bool>, p: seq<nat>): (r: seq<bool>)
    requires Unpermutable(p, |s|)
    ensures |r| == |s|
  {
    if |p| == 0 then s else Scatter(s, p)
  }

  lemma UnpermuteXor(a: seq<bool>, b: seq<bool>, p: seq<nat>)
    requires |a| == |b| && Unpermutable(p, |a|)
    ensures Unpermute(Xor(a, b), p) == Xor(Unpermute(a, p), Unpermute(b, p))
  {
    if |p| > 0 {
      ScatterXor(a, b, p);
    }
  }

  lemma ScatterIdentity(s: seq<bool>)
    ensures IsPermutation(Identity(|s|), |s|) && Scatter(s, Identity(|s|)) == s
  {
    IdentityIsPermutation(|s|);
    var r := Scatter(s, Identity(|s|));
    assert forall x :: 0 <= x < |s| ==> r[Identity(|s|)[x]] == s[x];
  }

  /** A string whose entry p[j] is s[j] for every j is the scattered s. */
  lemma ScatterUnique(s: seq<bool>, p: seq<nat>, r: seq<bool>)
    requires IsPermutation(p, |s|) && |r| == |s|
    requires forall j :: 0 <= j < |s| ==> r[p[j]] == s[j]
    ensures r == Scatter(s, p)
  {
    var t := Scatter(s, p);
    forall x | 0 <= x < |s| ensures r[x] == t[x] {
      var j := IndexOf(p, |s|, x);
      assert r[p[j]] == s[j] == t[p[j]];
    }
  }

  /** Swapping two columns and the same two entries of the permutation
      leaves the scattered string alone: what makes column swaps harmless
      once the permutation records them. */
  lemma ScatterSwap(s: seq<bool>, p: seq<nat>, a: nat, b: nat)
    requires IsPermutation(p, |s|) && a < |s| && b < |s|
    ensures IsPermutation(Swap(p, a, b), |s|)
    ensures Scatter(Swap(s, a, b), Swap(p, a, b)) == Scatter(s, p)
  {
    SwapPermutation(p, |s|, a, b);
    var q := Swap(p, a, b);
    var l, r := Scatter(Swap(s, a, b), q), Scatter(s, p);
    forall x | 0 <= x < |s| ensures l[x] == r[x] {
      var j := IndexOf(p, |s|, x);
      var j' := if j == a then b else if j == b then a else j;
      assert q[j'] == x;
      assert l[q[j']] == Swap(s, a, b)[j'];
      assert r[p[j]] == s[j];
    }
  }

  /** Scattering moves the set bits without creating or losing any. */
  lemma CountScatter(s: seq<bool>, p: seq<nat>)
    requires IsPermutation(p, |s|)
    ensures Count(Scatter(s, p)) == Count(s)
  {
    CountOnes(s);
    CountOnes(Scatter(s, p));
    OnesScatter(s, p);
    ImageSize(Ones(s), p, |s|);
  }

  /** The set bits of the scattered string are the images of the set bits. */
  lemma OnesScatter(s: seq<bool>, p: seq<nat>)
    requires IsPermutation(p, |s|)
    ensures Ones(Scatter(s, p)) == Image(Ones(s), p)
  {
    var r, n := Scatter(s, p), |s|;
    forall x | x in Ones(r) ensures x in Image(Ones(s), p) {
      var j := IndexOf(p, n, x);
      assert r[p[j]] == s[j];
    }
    forall x | x in Image(Ones(s), p) ensures x in Ones(r) {
      var j :| j in Ones(s) && p[j] == x;
      assert r[p[j]] == s[j];
    }
  }

  function Image(a: set<nat>, p: seq<nat>): set<nat>
    requires forall j :: j in a ==> j < |p|
  {
    set j | j in a :: p[j]
  }

  lemma UnpermuteCount(s: seq<bool>, p: seq<nat>)
    requires Unpermutable(p, |s|)
    ensures Count(Unpermute(s, p)) == Count(s)
  {
    if |p| > 0 {
      CountScatter(s, p);
    }
  }

  /** The positions of the set bits. */
  function Ones(s: seq<bool>): set<nat>
  {
    set i | 0 <= i < |s| && s[i]
  }

  lemma {:induction false} CountOnes(s: seq<bool>)
    ensures Count(s) == |Ones(s)|
  {
    if |s| > 0 {
      var s' := s[..|s| - 1];
      CountOnes(s');
      if s[|s| - 1] {
        assert Ones(s) == Ones(s') + {|s| - 1};
      } else {
        assert Ones(s) == Ones(s');
      }
    } else {
      assert Ones(s) == {};
    }
  }

  /** An injective map keeps the size of a set. */
  lemma {:induction false} ImageSize(a: set<nat>, p: seq<nat>, n: nat)
    requires IsPermutation(p, n) && forall j :: j in a ==> j < n
    ensures |Image(a, p)| == |a|
    decreases |a|
  {
    if a != {} {
      var x :| x in a;
      var b := a - {x};
      ImageSize(b, p, n);
      forall y | y in b ensures p[y] != p[x] {
        if y < x { assert p[y] != p[x]; } else { assert p[x] != p[y]; }
      }
      assert p[x] !in Image(b, p);
      assert Image(a, p) == Image(b, p) + {p[x]};
      assert |a| == |b| + 1;
    } else {
      assert Image(a, p) == {};
    }
  }

  // ---------------------------------------------------------------------
  // Tracking row operations

  /** The rows of the k-by-k identity: the combinations that select one row. */
  function IdentityRows(k: nat): (r: seq<seq<bool>>)
    ensures |r| == k && Rectangular(r, k)
    ensures forall i :: 0 <= i < k ==> r[i] == Unit(k, i)
  {
    seq(k, i requires 0 <= i => Unit(k, i))
  }

  /** The unit rows are independent. */
  lemma IndependentIdentity(k: nat)
    ensures Independent(IdentityRows(k), k)
  {
    var id := IdentityRows(k);
    forall c | |c| == k && c != Zeros(k) ensures Combine(id, c, k) != Zeros(k) {
      var q :| 0 <= q < k && c[q];
      CombineColumnOne(id, c, k, q, q);
    }
  }

  /** Where the exchange of a and b sends i. */
  function Exchanged(i: nat, a: nat, b: nat): nat
  {
    if i == a then b else if i == b then a else i
  }

  /** The unit rows with rows a and b exchanged are independent. */
  lemma IndependentSwappedIdentity(k: nat, a: nat, b: nat)
    requires a < k && b < k
    ensures Independent(Swap(IdentityRows(k), a, b), k)
  {
    var t := Swap(IdentityRows(k), a, b);
    assert forall i :: 0 <= i < k ==> t[i] == Unit(k, Exchanged(i, a, b));
    forall c | |c| == k && c != Zeros(k) ensures Combine(t, c, k) != Zeros(k) {
      var q :| 0 <= q < k && c[q];
      var col := Exchanged(q, a, b);
      forall r | 0 <= r < k ensures t[r][col] == (r == q) {
        assert t[r] == Unit(k, Exchanged(r, a, b));
      }
      CombineColumnOne(t, c, k, col, q);
    }
  }

  /** Exchanging two rows keeps them independent. */
  lemma IndependentSwap(m: seq<seq<bool>>, w: nat, a: nat, b: nat)
    requires Rectangular(m, w) && a < |m| && b < |m| && Independent(m, w)
    ensures Independent(Swap(m, a, b), w)
  {
    var t := Swap(IdentityRows(|m|), a, b);
    SwapCombines(m, w, a, b);
    IndependentSwappedIdentity(|m|, a, b);
    IndependentCompose(m, t, Swap(m, a, b), w);
  }

  /** Row i of m with rows a and b exchanged is the combination of m that
      row i of the exchanged unit rows selects. */
  lemma SwapCombines(m: seq<seq<bool>>, w: nat, a: nat, b: nat)
    requires Rectangular(m, w) && a < |m| && b < |m|
    ensures RowsCombine(Swap(m, a, b), m, Swap(IdentityRows(|m|), a, b), w)
  {
    var t := Swap(IdentityRows(|m|), a, b);
    forall i | 0 <= i < |m| ensures Swap(m, a, b)[i] == Combine(m, t[i], w) {
      assert t[i] == Unit(|m|, Exchanged(i, a, b));
      CombineUnit(m, Exchanged(i, a, b), w);
    }
  }

  /** rows were reached from g by row operations and the column swaps that
      perm records: row r, its columns put back, is the combination coef[r]
      of the rows of g. */
  ghost predicate Tracks(rows: seq<seq<bool>>, perm: seq<nat>, g: seq<seq<bool>>, coef: seq<seq<bool>>, n: nat)
  {
    Rectangular(rows, n) && Rectangular(g, n) && Unpermutable(perm, n) &&
    |coef| == |rows| && Rectangular(coef, |g|) &&
    forall r :: 0 <= r < |rows| ==> Unpermute(rows[r], perm) == Combine(g, coef[r], n)
  }

  /** Every row is its own combination before anything happens. */
  lemma TracksStart(g: seq<seq<bool>>, n: nat, perm: seq<nat>)
    requires Rectangular(g, n)
    requires |perm| == 0 || perm == Identity(n)
    ensures Tracks(g, perm, g, IdentityRows(|g|), n)
  {
    IdentityIsPermutation(n);
    forall r | 0 <= r < |g| ensures Unpermute(g[r], perm) == Combine(g, IdentityRows(|g|)[r], n) {
      CombineUnit(g, r, n);
      if |perm| > 0 {
        ScatterIdentity(g[r]);
      }
    }
  }

  lemma TracksSwapRows(rows: seq<seq<bool>>, perm: seq<nat>, g: seq<seq<bool>>, coef: seq<seq<bool>>, n: nat, a: nat, b: nat)
    requires Tracks(rows, perm, g, coef, n) && a < |rows| && b < |rows|
    ensures Tracks(Swap(rows, a, b), perm, g, Swap(coef, a, b), n)
  {
  }

  /** Adding row j to row i adds the combinations as well. */
  lemma TracksAddRow(rows: seq<seq<bool>>, perm: seq<nat>, g: seq<seq<bool>>, coef: seq<seq<bool>>, n: nat, i: nat, j: nat)
    requires Tracks(rows, perm, g, coef, n) && i < |rows| && j < |rows|
    ensures Tracks(rows[i := Xor(rows[i], rows[j])], perm, g, coef[i := Xor(coef[i], coef[j])], n)
  {
    UnpermuteXor(rows[i], rows[j], perm);
    CombineXor(g, coef[i], coef[j], n);
  }

  /** A column swap recorded in the permutation changes no combination. */
  lemma TracksSwapColumns(rows: seq<seq<bool>>, perm: seq<nat>, g: seq<seq<bool>>, coef: seq<seq<bool>>, n: nat, a: nat, b: nat)
    requires Tracks(rows, perm, g, coef, n) && IsPermutation(perm, n) && a < n && b < n
    ensures IsPermutation(Swap(perm, a, b), n)
    ensures Tracks(SwapColumns(rows, n, a, b), Swap(perm, a, b), g, coef, n)
  {
    SwapPermutation(perm, n, a, b);
    var rows' := SwapColumns(rows, n, a, b);
    forall r | 0 <= r < |rows| ensures Unpermute(rows'[r], Swap(perm, a, b)) == Combine(g, coef[r], n) {
      ScatterSwap(rows[r], perm, a, b);
    }
  }

  lemma TracksRemoveRow(rows: seq<seq<bool>>, perm: seq<nat>, g: seq<seq<bool>>, coef: seq<seq<bool>>, n: nat, r: nat)
    requires Tracks(rows, perm, g, coef, n) && r < |rows|
    ensures Tracks(RemoveAt(rows, r), perm, g, RemoveAt(coef, r), n)
  {
    var rows', coef' := RemoveAt(rows, r), RemoveAt(coef, r);
    forall t | 0 <= t < |rows'| ensures Unpermute(rows'[t], perm) == Combine(g, coef'[t], n) {
      var s := if t < r then t else t + 1;
      assert rows'[t] == rows[s] && coef'[t] == coef[s];
    }
  }

  /** A zero row tracked by a combination from independent coefficients is a
      nonempty combination of g that vanishes: g is not independent. */
  lemma TracksZeroRow(rows: seq<seq<bool>>, perm: seq<nat>, g: seq<seq<bool>>, coef: seq<seq<bool>>, n: nat, zr: nat)
    requires Tracks(rows, perm, g, coef, n) && Independent(coef, |g|) && zr < |rows| && rows[zr] == Zeros(n)
    ensures !Independent(g, n)
  {
    if |perm| > 0 {
      ScatterZeros(n, perm);
    }
    assert Combine(g, coef[zr], n) == Zeros(n);
    CombineUnit(coef, zr, |g|);
    assert Unit(|coef|, zr)[zr] != Zeros(|coef|)[zr];
  }

  /** Every tracked row, its columns put back, lies in the row space of g. */
  lemma TracksInSpan(rows: seq<seq<bool>>, perm: seq<nat>, g: seq<seq<bool>>, coef: seq<seq<bool>>, n: nat)
    requires Tracks(rows, perm, g, coef, n)
    ensures Reaches(rows, perm, g, n)
  {
  }

  /** Every row of a, its columns put back through p, lies in the row space
      of b. */
  ghost predicate Reaches(a: seq<seq<bool>>, p: seq<nat>, b: seq<seq<bool>>, n: nat)
  {
    Rectangular(a, n) && Rectangular(b, n) && Unpermutable(p, n) &&
    forall r :: 0 <= r < |a| ==> RowReaches(a, p, b, n, r)
  }

  /** Row r of a, its columns put back through p, lies in the row space of b. */
  ghost predicate RowReaches(a: seq<seq<bool>>, p: seq<nat>, b: seq<seq<bool>>, n: nat, r: nat)
  {
    r < |a| && |a[r]| == n && Rectangular(b, n) && Unpermutable(p, n) && InSpan(Unpermute(a[r], p), b, n)
  }

  /** The rows of b are those of a, row lambda added to each row where add
      says so, with columns lambda and c exchanged afterwards. */
  ghost predicate SwappedSums(a: seq<seq<bool>>, b: seq<seq<bool>>, lambda: nat, c: nat, add: seq<bool>, n: nat)
  {
    Rectangular(a, n) && |b| == |a| == |add| && lambda < |a| && lambda < n && c < n &&
    forall i :: 0 <= i < |b| ==> SwappedRow(a, b, lambda, c, add, i)
  }

  /** Row i of b is row i of a, plus row lambda where add says so, with
      columns lambda and c exchanged. */
  ghost predicate SwappedRow(a: seq<seq<bool>>, b: seq<seq<bool>>, lambda: nat, c: nat, add: seq<bool>, i: nat)
  {
    i < |a| && i < |b| && i < |add| && lambda < |a| && |a[i]| == |a[lambda]| && lambda < |a[i]| && c < |a[i]| &&
    b[i] == Swap(if add[i] then Xor(a[i], a[lambda]) else a[i], lambda, c)
  }

  /** One row of such a b, put back through p with the same exchange,
      lies in the row space that rows i and lambda of a reach through p. */
  lemma SwappedRowReaches(a: seq<seq<bool>>, b: seq<seq<bool>>, p: seq<nat>, g: seq<seq<bool>>, n: nat,
                          lambda: nat, c: nat, add: seq<bool>, i: nat)
    requires Reaches(a, p, g, n) && IsPermutation(p, n) && SwappedSums(a, b, lambda, c, add, n) && i < |b|
    ensures IsPermutation(Swap(p, lambda, c), n) && RowReaches(b, Swap(p, lambda, c), g, n, i)
  {
    var x := if add[i] then Xor(a[i], a[lambda]) else a[i];
    assert SwappedRow(a, b, lambda, c, add, i);
    assert b[i] == Swap(x, lambda, c) && |x| == n;
    assert RowReaches(a, p, g, n, i) && RowReaches(a, p, g, n, lambda);
    SummedRowInSpan(a[i], a[lambda], add[i], p, g, n);
    ScatterSwap(x, p, lambda, c);
    var q := Swap(p, lambda, c);
    assert Unpermute(b[i], q) == Scatter(x, p);
  }

  /** A row, plus another where add says so, put back through p, stays in
      the row space both reach through p. */
  lemma SummedRowInSpan(u: seq<bool>, w: seq<bool>, add: bool, p: seq<nat>, g: seq<seq<bool>>, n: nat)
    requires |u| == |w| == n && IsPermutation(p, n) && Rectangular(g, n)
    requires InSpan(Scatter(u, p), g, n) && InSpan(Scatter(w, p), g, n)
    ensures InSpan(Scatter(if add then Xor(u, w) else u, p), g, n)
  {
    if add {
      ScatterXor(u, w, p);
      SpanXor(g, Scatter(u, p), Scatter(w, p), n);
    }
  }

  /** Adding rows to one another and exchanging two columns, recorded in the
      permutation, keeps every row within the same row space. */
  lemma SwappedSumsReach(a: seq<seq<bool>>, b: seq<seq<bool>>, p: seq<nat>, g: seq<seq<bool>>, n: nat,
                         lambda: nat, c: nat, add: seq<bool>)
    requires Reaches(a, p, g, n) && IsPermutation(p, n) && SwappedSums(a, b, lambda, c, add, n)
    ensures IsPermutation(Swap(p, lambda, c), n) && Reaches(b, Swap(p, lambda, c), g, n)
  {
    SwapPermutation(p, n, lambda, c);
    forall i | 0 <= i < |b| ensures |b[i]| == n && RowReaches(b, Swap(p, lambda, c), g, n, i) {
      SwappedRowReaches(a, b, p, g, n, lambda, c, add, i);
    }
  }

  /** Then so does every combination of the rows of a. */
  lemma ReachesSpan(a: seq<seq<bool>>, p: seq<nat>, b: seq<seq<bool>>, n: nat, v: seq<bool>)
    requires Reaches(a, p, b, n) && InSpan(v, a, n)
    ensures InSpan(Unpermute(v, p), b, n)
  {
    var c :| |c| == |a| && Combine(a, c, n) == v;
    if |p| == 0 {
      forall r | 0 <= r < |a| ensures InSpan(a[r], b, n) {
        assert RowReaches(a, p, b, n, r);
      }
      SpanTransitive(a, b, c, n);
    } else {
      ScatterCombine(a, c, p, n);
      var a' := ScatterRows(a, p, n);
      forall r | 0 <= r < |a'| ensures InSpan(a'[r], b, n) {
        assert RowReaches(a, p, b, n, r);
      }
      SpanTransitive(a', b, c, n);
    }
  }

  /** A matrix reaches its own row space without a permutation. */
  lemma ReachesItself(g: seq<seq<bool>>, n: nat)
    requires Rectangular(g, n)
    ensures Reaches(g, [], g, n)
  {
    forall r | 0 <= r < |g| ensures InSpan(g[r], g, n) {
      SpanRow(g, r, n);
    }
  }

  /** Gathering columns by a permutation is undone by scattering. */
  lemma ReachesGathered(g: seq<seq<bool>>, p: seq<nat>, rows: seq<seq<bool>>, n: nat)
    requires Rectangular(g, n) && IsPermutation(p, n) && |rows| == |g|
    requires forall r :: 0 <= r < |g| ==> rows[r] == Gather(g[r], p)
    ensures Reaches(rows, p, g, n)
  {
    forall r | 0 <= r < |g| ensures InSpan(Unpermute(rows[r], p), g, n) {
      ScatterGather(g[r], p);
      SpanRow(g, r, n);
    }
  }

  // ---------------------------------------------------------------------
  // Unit columns

  /** Columns 0..j-1 are unit columns: column c is set in row c only. */
  predicate UnitColumns(rows: seq<seq<bool>>, n: nat, j: nat)
    requires Rectangular(rows, n) && j <= n
  {
    forall r, c :: 0 <= r < |rows| && 0 <= c < j ==> rows[r][c] == (r == c)
  }

  lemma UnitColumnsSystematic(rows: seq<seq<bool>>, n: nat)
    requires Rectangular(rows, n) && |rows| <= n && UnitColumns(rows, n, |rows|)
    ensures Systematic(rows, n)
  {
  }

  /** Swapping two rows at or below j keeps the unit columns before j. */
  lemma UnitColumnsSwapRows(rows: seq<seq<bool>>, n: nat, j: nat, a: nat)
    requires Rectangular(rows, n) && j <= n && j <= a < |rows| && j < |rows| && UnitColumns(rows, n, j)
    ensures UnitColumns(Swap(rows, a, j), n, j)
  {
    var rows' := Swap(rows, a, j);
    forall r, c | 0 <= r < |rows| && 0 <= c < j ensures rows'[r][c] == (r == c) {
      if r == a || r == j {
        assert rows'[r][c] == rows[if r == a then j else a][c];
      }
    }
  }

  /** Swapping column j with a later one keeps the unit columns before j. */
  lemma UnitColumnsSwapColumns(rows: seq<seq<bool>>, n: nat, j: nat, c: nat)
    requires Rectangular(rows, n) && j <= c < n && UnitColumns(rows, n, j)
    ensures UnitColumns(SwapColumns(rows, n, j, c), n, j)
  {
  }
}
