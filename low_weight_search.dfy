// LowWeightSearch (LowWeightSearch.h, LowWeightSearch.cpp): the
// Canteaut-Chabaud search for low-weight code words and the matrix
// operations it is built from. The object keeps the Gauss-combinations
// matrix, the rows combined into the last word found, the weight vector,
// the check function and the random number generator; the code-word file
// is modelled by the ghost log of the words written to it.

module LowWeightSearches {
  import opened Bits
  import opened Words
  import opened HammingWeights
  import opened CodeWords
  import opened CodeMatrices
  import opened RandomNumbers
  import opened ParameterSets
  import opened Reductions
  import opened Eliminations
  import opened Candidates
  import opened HashTables
  import opened Shortenings
  import opened SearchFacts

  /** How CanteautChabaud ends: it returns a word (empty when it gives up
      early), its first steps are undefined (sigma > 30, see Search), or it
      never returns (DeltaGauss on a Z without a 1). */
  datatype Outcome = Returned(word: seq<bool>) | Undefined | Hangs

  /** What CanteautChabaud has done once past its checks on the settings,
      for k rows of n columns, when its outcome is defined: every word
      accepted is in found with its score, the words written since are
      those accepted, and the last is returned; without any, the fallback
      over the reduced generator (restored to the columns of the input when
      corrected) returns and writes its improvements. The rounds stop at
      ITER or early at a score at or below MINIMUM, and a hang happens only
      in the first round, on a Z without a 1. */
  ghost predicate Concluded(out: Outcome, rounds: nat, minWeight: nat, found: seq<seq<bool>>, scores: seq<nat>,
                            written0: seq<seq<bool>>, written: seq<seq<bool>>, combos: seq<seq<bool>>, combined: seq<nat>,
                            check: Option<seq<bool> -> bool>, unweighted: bool,
                            iter: nat, minimum: nat, corrected: bool, chain: Chain, k: nat, n: nat)
    requires Prepared(chain, k, n)
  {
    !out.Undefined? ==>
      |combos| == k &&
      Progress(found, scores, minWeight, if |found| == 0 then [] else found[|found| - 1], combined, k / 2,
               check, unweighted, chain, n) &&
      (out.Returned? && 0 < |found| ==> out.word == found[|found| - 1] && written == written0 + found) &&
      (out.Returned? && |found| == 0 ==>
         var s := Lightest(if corrected then RestoredRows(chain.gRed, n, chain.gaussPerm, chain.randPerm) else chain.gRed,
                           k, Unset);
         out.word == s.word && written == written0 + s.log) &&
      (out.Returned? ==> rounds <= iter && (rounds == iter || (0 < |found| && minWeight <= minimum))) &&
      (out.Hangs? ==> 0 < iter && rounds == 0 && !HasOne(ZPart(chain.gRed, k, n))) &&
      (out.Returned? && 0 < |found| && chain.reduced ==> InSpan(out.word, chain.g, n)) &&
      (out.Returned? && |found| == 0 && corrected && out.word != [] ==> InSpan(out.word, chain.g, n))
  }

  /** The outcome of a search that ran to the end: the loop left found,
      scores and the word ret, then either ret or the fallback was
      returned. */
  lemma ConcludeReturned(word: seq<bool>, ret: seq<bool>, rounds: nat, minWeight: nat,
                         found: seq<seq<bool>>, scores: seq<nat>,
                         written0: seq<seq<bool>>, written1: seq<seq<bool>>, written: seq<seq<bool>>,
                         combos: seq<seq<bool>>, combined: seq<nat>, check: Option<seq<bool> -> bool>, unweighted: bool,
                         iter: nat, minimum: nat, corrected: bool, chain: Chain, k: nat, n: nat)
    requires Prepared(chain, k, n) && 0 < n
    requires |combos| == k && Progress(found, scores, minWeight, ret, combined, k / 2, check, unweighted, chain, n)
    requires written1 == written0 + found
    requires rounds <= iter && (rounds == iter || (0 < |found| && minWeight <= minimum))
    requires |ret| > 0 ==> word == ret && written == written1
    requires |ret| == 0 ==>
               var s := Lightest(if corrected then RestoredRows(chain.gRed, n, chain.gaussPerm, chain.randPerm) else chain.gRed,
                                 k, Unset);
               word == s.word && written == written1 + s.log
    requires |ret| == 0 && corrected && word != [] ==> InSpan(word, chain.g, n)
    ensures Concluded(Returned(word), rounds, minWeight, found, scores, written0, written, combos, combined, check, unweighted,
                      iter, minimum, corrected, chain, k, n)
  {
    if 0 < |found| {
      assert AcceptedAt(found, scores, |found| - 1, check, unweighted, chain, n);
    }
  }

  /** The outcome of a search whose DeltaGauss hangs in the first round. */
  lemma ConcludeHangs(ret: seq<bool>, rounds: nat, minWeight: nat, found: seq<seq<bool>>, scores: seq<nat>,
                      written0: seq<seq<bool>>, written: seq<seq<bool>>,
                      combos: seq<seq<bool>>, combined: seq<nat>, check: Option<seq<bool> -> bool>, unweighted: bool,
                      iter: nat, minimum: nat, corrected: bool, chain: Chain, k: nat, n: nat)
    requires Prepared(chain, k, n)
    requires |combos| == k && Progress(found, scores, minWeight, ret, combined, k / 2, check, unweighted, chain, n)
    requires 0 < iter && rounds == 0 && !HasOne(ZPart(chain.gRed, k, n))
    ensures Concluded(Hangs, rounds, minWeight, found, scores, written0, written, combos, combined, check, unweighted,
                      iter, minimum, corrected, chain, k, n)
  {
    assert ret == if |found| == 0 then [] else found[|found| - 1];
  }

  /** The integer settings CanteautChabaud has read when it stops, for
      k rows of n columns: SIGMA at once; PERMUTE once the dimensions and
      SIGMA pass the checks; ITER once the rounds begin (GaussMod2 as
      written done first); MINIMUM once a word has been accepted; DOUTPUT
      once a round has ended. */
  function SettingsRead(sigma: nat, k: nat, n: nat, corrected: bool, accepted: bool, rounds: nat): set<string>
  {
    var checked := 0 < k && 0 < n && sigma <= 30;
    var early := if checked then {Sigma} + {Permute} else {Sigma};
    var looped := if checked && (corrected || k <= Width(n)) then early + {Iter} else early;
    var stopped := if accepted then looped + {Minimum} else looped;
    if 0 < rounds then stopped + {DOutput} else stopped
  }

  /** What CanteautChabaud reads before it starts: SIGMA and the name of
      the output file, each inserted when absent. The settings read later
      are looked up without inserting them (an absent one counts as 0):
      nothing touches the parameters before those reads. */
  method ReadFirst(params: Parameters) returns (sigma: Uint64, permute: Uint64, iter: Uint64, minimum: Uint64)
    modifies params
    ensures var ints := old(params.integers);
            sigma == Setting(ints, Sigma) && permute == Setting(ints, Permute) &&
            iter == Setting(ints, Iter) && minimum == Setting(ints, Minimum)
    ensures params.integers == WithDefaults(old(params.integers), {Sigma})
    ensures params.strings == old(params.strings)[Output := if Output in old(params.strings) then old(params.strings)[Output] else ""]
    ensures params.helpTexts == old(params.helpTexts)
  {
    ghost var ints := params.integers;
    DefaultNamesDistinct();
    assert DefaultNames()[0] == Sigma && DefaultNames()[4] == Permute;
    assert DefaultNames()[1] == Iter && DefaultNames()[2] == Minimum;
    sigma := params.GetIntegerParameter(Sigma);
    var output := params.GetStringParameter(Output);
    ReadOneMore(ints, {}, Sigma);
    assert {} + {Sigma} == {Sigma};
    permute, iter, minimum := Setting(params.integers, Permute), Setting(params.integers, Iter),
                              Setting(params.integers, Minimum);
  }

  /** The reads the search makes on its way, each inserting an absent
      setting as 0: PERMUTE after the checks, ITER at the first loop test,
      MINIMUM after an accepted word, DOUTPUT after a round. */
  method ReadLater(params: Parameters, ghost ints: map<string, Uint64>, sigma: Uint64, k: nat, n: nat, corrected: bool,
                   accepted: bool, rounds: nat)
    modifies params
    requires sigma == Setting(ints, Sigma) && params.integers == WithDefaults(ints, {Sigma})
    ensures params.integers == WithDefaults(ints, SettingsRead(sigma, k, n, corrected, accepted, rounds))
    ensures params.strings == old(params.strings) && params.helpTexts == old(params.helpTexts)
  {
    var checked := 0 < k && 0 < n && sigma <= 30;
    ghost var early := if checked then {Sigma} + {Permute} else {Sigma};
    if checked {
      var permute := params.GetIntegerParameter(Permute);
      ReadOneMore(ints, {Sigma}, Permute);
    }
    var loops := checked && (corrected || k <= Width(n));
    ghost var looped := if loops then early + {Iter} else early;
    if loops {
      var iter := params.GetIntegerParameter(Iter);
      ReadOneMore(ints, early, Iter);
    }
    ghost var stopped := if accepted then looped + {Minimum} else looped;
    assert SettingsRead(sigma, k, n, corrected, accepted, rounds) == if 0 < rounds then stopped + {DOutput} else stopped;
    if accepted {
      var minimum := params.GetIntegerParameter(Minimum);
      ReadOneMore(ints, looped, Minimum);
    }
    if 0 < rounds {
      var dOutput := params.GetIntegerParameter(DOutput);
      ReadOneMore(ints, stopped, DOutput);
    }
  }

  /** The scores only fall from Unset on, so a search state has accepted a
      word exactly when its minimum weight is below Unset. */
  lemma ProgressAccepted(found: seq<seq<bool>>, scores: seq<nat>, minWeight: nat, ret: seq<bool>,
                         combined: seq<nat>, h: nat, check: Option<seq<bool> -> bool>, unweighted: bool, chain: Chain, n: nat)
    requires Progress(found, scores, minWeight, ret, combined, h, check, unweighted, chain, n)
    ensures 0 < |found| <==> minWeight < Unset
  {
    if 0 < |found| {
      ScoreBelowUnset(found, scores, |found| - 1, check, unweighted, chain, n);
    }
  }

  /** Every accepted score is below Unset. */
  lemma {:induction false} ScoreBelowUnset(found: seq<seq<bool>>, scores: seq<nat>, t: nat,
                                           check: Option<seq<bool> -> bool>, unweighted: bool, chain: Chain, n: nat)
    requires t < |found| == |scores| && forall u :: 0 <= u < |found| ==> AcceptedAt(found, scores, u, check, unweighted, chain, n)
    ensures scores[t] < Unset
  {
    assert AcceptedAt(found, scores, t, check, unweighted, chain, n);
    if t > 0 {
      ScoreBelowUnset(found, scores, t - 1, check, unweighted, chain, n);
    }
  }

  /** The loop of BuildMinVector that puts the columns back:
      `r.SetBool(p[j], front.AtBool(j))` for every j, starting from front. */
  method PermuteBack(front: seq<bool>, p: seq<nat>) returns (r: seq<bool>)
    requires |p| <= |front| && forall j :: 0 <= j < |p| ==> p[j] < |front|
    ensures |r| == |front|
    ensures Unpermutable(p, |front|) ==> r == Unpermute(front, p)
  {
    r := front;
    for j := 0 to |p|
      invariant |r| == |front| && (|p| == 0 ==> r == front)
      invariant Unpermutable(p, |front|) ==> forall t :: 0 <= t < j ==> r[p[t]] == front[t]
    {
      r := r[p[j] := front[j]];
    }
    if |p| > 0 && Unpermutable(p, |front|) {
      ScatterUnique(front, p, r);
    }
  }

  /** The first row at or below j whose pivot test for column j succeeds:
      the row search of GaussMod2. */
  method FindPivotRow(matrix: CodeMatrix, j: nat, exact: bool) returns (i: nat, found: bool)
    requires matrix.Valid() && j < |matrix.rows| && (exact || 64 * (j / 64) < matrix.GetColumns())
    ensures found ==> j <= i < |matrix.rows| && PivotTest(matrix.rows[i], j, exact)
    ensures !found ==> forall t :: j <= t < |matrix.rows| ==> !PivotTest(matrix.rows[t], j, exact)
  {
    i := j;
    while i < matrix.GetRows()
      invariant j <= i <= |matrix.rows|
      invariant forall t :: j <= t < i ==> !PivotTest(matrix.rows[t], j, exact)
    {
      if PivotTest(matrix.rows[i], j, exact) {
        return i, true;
      }
      i := i + 1;
    }
    found := false;
  }

  /** The first column at or after j holding a 1 in row j: the column
      search of GaussMod2 when no row has a pivot. */
  method FindPivotColumn(matrix: CodeMatrix, j: nat) returns (c: nat, found: bool)
    requires matrix.Valid() && j < |matrix.rows|
    ensures found ==> j <= c < matrix.GetColumns() && matrix.rows[j][c]
    ensures !found ==> forall t :: j <= t < matrix.GetColumns() ==> !matrix.rows[j][t]
  {
    c := j;
    while c < matrix.GetColumns()
      invariant j <= c && (c == j || c <= matrix.GetColumns())
      invariant forall t :: j <= t < c && t < matrix.GetColumns() ==> !matrix.rows[j][t]
    {
      if matrix.AtBool(j, c) {
        return c, true;
      }
      c := c + 1;
    }
    found := false;
  }

  /** The column exchange of GaussMod2: columns a and b of every row. */
  method ExchangeColumns(matrix: CodeMatrix, a: nat, b: nat)
    modifies matrix
    requires matrix.Valid() && a < matrix.GetColumns() && b < matrix.GetColumns()
    ensures matrix.Valid() && matrix.rows == SwapColumns(old(matrix.rows), old(matrix.GetColumns()), a, b)
  {
    ghost var n := matrix.GetColumns();
    ghost var target := SwapColumns(matrix.rows, n, a, b);
    for l := 0 to matrix.GetRows()
      invariant matrix.Valid() && |matrix.rows| == |target| && Rectangular(matrix.rows, n)
      invariant forall t :: 0 <= t < l ==> matrix.rows[t] == target[t]
      invariant forall t :: l <= t < |matrix.rows| ==> matrix.rows[t] == old(matrix.rows)[t]
    {
      var temp := matrix.AtBool(l, b);
      matrix.SetBool(l, b, matrix.AtBool(l, a));
      matrix.SetBool(l, a, temp);
      assert matrix.rows[l] == target[l];
    }
    assert matrix.rows == target;
  }

  /** The first loops of BuildMinVector: k zeros, then a 1 at every picked
      row. */
  method MarkRows(picks: seq<nat>, k: nat) returns (front: seq<bool>)
    requires forall i :: 0 <= i < |picks| ==> picks[i] < k
    ensures front == Indicator(k, picks)
  {
    front := [];
    for i := 0 to k
      invariant front == Zeros(i)
    {
      front := front + [false];
    }
    for i := 0 to |picks|
      invariant |front| == k && forall c :: 0 <= c < k ==> front[c] == (c in picks[..i])
    {
      assert picks[..i + 1] == picks[..i] + [picks[i]];
      front := front[picks[i] := true];
    }
    assert picks[..|picks|] == picks;
  }

  /** The XOR loop of BuildMinVector: the Z rows of the picks added up,
      starting from the first. */
  method AddRows(picks: seq<nat>, z: CodeMatrix) returns (temp: seq<bool>)
    requires z.Valid() && |picks| > 0 && forall i :: 0 <= i < |picks| ==> picks[i] < |z.rows|
    ensures temp == SumRows(z.rows, picks, z.GetColumns())
  {
    var m := z.GetColumns();
    temp := z.Row(picks[0]);
    SumOne(z.rows, m, picks[0]);
    assert picks[..1] == [picks[0]];
    for i := 1 to |picks|
      invariant temp == SumRows(z.rows, picks[..i], m)
    {
      assert picks[..i + 1][..i] == picks[..i];
      temp := Xor(temp, z.Row(picks[i]));
    }
    assert picks[..|picks|] == picks;
  }

  /** BuildMinVector(vMinimum, oZ, vColsPerm, vGaussPerm, vRandPerm): k
      zeros with the picked rows set, followed by the sum of their Z rows,
      then the columns put back through each of the three vectors in turn.
      When each vector is empty or a permutation this is MinVector. */
  method BuildMinVector(picks: seq<nat>, z: CodeMatrix, colsPerm: seq<nat>, gaussPerm: seq<nat>, randPerm: seq<nat>,
                        ghost k: nat, ghost m: nat)
    returns (w: seq<bool>)
    requires z.Valid() && k == |z.rows| && m == z.GetColumns()
    requires |picks| > 0 && forall i :: 0 <= i < |picks| ==> picks[i] < k
    requires (|colsPerm| <= k + m && forall j :: 0 <= j < |colsPerm| ==> colsPerm[j] < k + m) &&
             (|gaussPerm| <= k + m && forall j :: 0 <= j < |gaussPerm| ==> gaussPerm[j] < k + m) &&
             (|randPerm| <= k + m && forall j :: 0 <= j < |randPerm| ==> randPerm[j] < k + m)
    ensures |w| == k + m
    ensures Unpermutable(colsPerm, k + m) && Unpermutable(gaussPerm, k + m) && Unpermutable(randPerm, k + m) ==>
              w == MinVector(picks, z.rows, k, m, colsPerm, gaussPerm, randPerm)
  {
    var front := MarkRows(picks, z.GetRows());
    var temp := AddRows(picks, z);
    ghost var full := front + temp;
    for i := 0 to |temp|
      invariant front == full[..k + i]
    {
      front := front + [temp[i]];
    }
    assert front == full;
    w := PermuteBack(front, colsPerm);
    w := PermuteBack(w, gaussPerm);
    w := PermuteBack(w, randPerm);
  }

  /** The lookup of a probe: the key of row i of Z2 (`At64(i, 0)`), or of
      rows i and j together (`At64(i, 0) ^ At64(j, 0)`), and the head record
      of its bucket when the bucket is not empty; that record's rows of Z1
      add up to the probe on the sampled columns. */
  method Lookup(z2: CodeMatrix, t: Table, i: nat, pair: bool, j: nat, ghost z1: seq<seq<bool>>, ghost sigma: nat)
    returns (hit: bool, rec: Record)
    requires z2.Valid() && 0 < z2.GetColumns() <= 64 && i < |z2.rows| && (pair ==> j < |z2.rows|)
    requires Rectangular(z1, z2.GetColumns()) && Consistent(t, z1, z2.GetColumns(), sigma)
    ensures hit ==> rec.rows in {1, 2} && rec.row1 < |z1| && (rec.rows == 2 ==> rec.row1 < rec.row2 < |z1|)
    ensures var x := if pair then Xor(z2.rows[i], z2.rows[j]) else z2.rows[i];
            hit == (KeyOf(x) in t) &&
            (hit ==> rec == t[KeyOf(x)][0] && RecordSum(rec, z1, z2.GetColumns()) == x)
  {
    ghost var s := z2.GetColumns();
    ghost var x := if pair then Xor(z2.rows[i], z2.rows[j]) else z2.rows[i];
    var key := if pair then Value(XorWord(z2.At64(i, 0), z2.At64(j, 0))) else Value(z2.At64(i, 0));
    if pair {
      PairKeyOfSum(z2.rows[i], z2.rows[j]);
    }
    assert key == KeyOf(x);
    hit := key in t;
    rec := Record(0, 0, 0);
    if hit {
      rec := t[key][0];
      HeadMatches(t, z1, s, sigma, x);
    }
  }

  /** The candidate a bucket's head record makes with the probe: oTempWord,
      XORed together from row i of Z2 (and row j when two rows are probed)
      and the record's rows of Z1, and vMinimum, the rows it combines. */
  method Candidate(z: CodeMatrix, rec: Record, vI1: seq<nat>, vI2: seq<nat>, i: nat, pair: bool, j: nat,
                   ghost m: nat)
    returns (temp: seq<bool>, picks: seq<nat>)
    requires z.Valid() && m == z.GetColumns() && 2 * |vI1| <= |z.rows|
    requires vI1 == Interval(0, |vI1|) && vI2 == Interval(|vI1|, 2 * |vI1|) && i < |vI1| && (pair ==> i < j < |vI1|)
    requires rec.row1 < |vI1| && (rec.rows == 2 ==> rec.row2 < |vI1|)
    ensures temp == ProbeSum(z.rows, m, rec, |vI1|, i, pair, j)
    ensures picks == ProbePicks(rec, |vI1|, i, pair, j)
  {
    temp := if pair then Xor(Xor(z.Row(vI2[i]), z.Row(vI2[j])), z.Row(vI1[rec.row1]))
            else Xor(z.Row(vI2[i]), z.Row(vI1[rec.row1]));
    if rec.rows == 2 {
      temp := Xor(temp, z.Row(vI1[rec.row2]));
    }
    picks := [vI1[rec.row1]] + (if rec.rows == 2 then [vI1[rec.row2]] else []) + [vI2[i]] + (if pair then [vI2[j]] else []);
  }

  /** Entry (r, c) once RandomPermuteColumns has filled the first i
      columns: the drawn column for those, the old entry for the rest. */
  function PermutedEntry(rows0: seq<seq<bool>>, perm: seq<nat>, i: nat, r: nat, c: nat): bool
    requires r < |rows0| && c < |rows0[r]| && i <= |perm| && forall t :: 0 <= t < |perm| ==> perm[t] < |rows0[r]|
  {
    if c < i then rows0[r][perm[c]] else rows0[r][c]
  }

  /** The inner loop of RandomPermuteColumns: column src of every row of
      source copied into column i of target. */
  method CopyColumn(target: CodeMatrix, source: CodeMatrix, i: nat, src: nat)
    modifies target
    requires target.Valid() && source.Valid() && |target.rows| == |source.rows|
    requires i < target.GetColumns() && src < source.GetColumns()
    ensures target.Valid() && |target.rows| == old(|target.rows|) && target.GetColumns() == old(target.GetColumns())
    ensures forall r, c :: 0 <= r < |target.rows| && 0 <= c < target.GetColumns() ==>
              target.rows[r][c] == if c == i then source.rows[r][src] else old(target.rows)[r][c]
  {
    ghost var n := target.GetColumns();
    for j := 0 to source.GetRows()
      invariant target.Valid() && |target.rows| == old(|target.rows|) && Rectangular(target.rows, n)
      invariant forall r, c :: 0 <= r < |target.rows| && 0 <= c < n ==>
                  target.rows[r][c] == if c == i && r < j then source.rows[r][src] else old(target.rows)[r][c]
    {
      target.SetBool(j, i, source.AtBool(j, src));
    }
  }

  /** The row exchange of GaussMod2 through oTempRow. */
  method ExchangeRows(matrix: CodeMatrix, a: nat, b: nat)
    modifies matrix
    requires matrix.Valid() && a < |matrix.rows| && b < |matrix.rows|
    ensures matrix.Valid() && matrix.rows == Swap(old(matrix.rows), a, b)
  {
    var temp := matrix.Row(a);
    matrix.SetRow(a, matrix.Row(b));
    matrix.SetRow(b, temp);
  }

  /** What GaussMod2 keeps track of: the column exchanges so far form a
      permutation, coef records how every row arose from the input rows0,
      and, when tracked, the Gauss-combinations matrix records how it arose
      from g. */
  ghost predicate Bookkept(rows: seq<seq<bool>>, perm: seq<nat>, rows0: seq<seq<bool>>, coef: seq<seq<bool>>,
                           g: seq<seq<bool>>, combos: seq<seq<bool>>, n: nat, tracked: bool)
  {
    IsPermutation(perm, n) && Tracks(rows, perm, rows0, coef, n) && (tracked ==> Tracks(rows, perm, g, combos, n))
  }

  /** A row exchange (made on the combinations too when they are tracked)
      or a recorded column exchange at or after j keeps the bookkeeping and
      the unit columns before j. */
  lemma PivotKeeps(rowsA: seq<seq<bool>>, permA: seq<nat>, coefA: seq<seq<bool>>, combosA: seq<seq<bool>>,
                   rowsB: seq<seq<bool>>, permB: seq<nat>, combosB: seq<seq<bool>>,
                   rows0: seq<seq<bool>>, g: seq<seq<bool>>, n: nat, j: nat, at: nat,
                   byRow: bool, swapCombos: bool, tracked: bool) returns (coefB: seq<seq<bool>>)
    requires Bookkept(rowsA, permA, rows0, coefA, g, combosA, n, tracked) && (tracked ==> swapCombos)
    requires j < |rowsA| == |combosA|
    requires byRow ==> j <= at < |rowsA| && rowsB == Swap(rowsA, at, j) && permB == permA &&
                       combosB == if swapCombos then Swap(combosA, at, j) else combosA
    requires !byRow ==> j <= at < n && rowsB == SwapColumns(rowsA, n, j, at) && permB == Swap(permA, j, at) && combosB == combosA
    ensures Bookkept(rowsB, permB, rows0, coefB, g, combosB, n, tracked)
    ensures j <= n && UnitColumns(rowsA, n, j) ==> UnitColumns(rowsB, n, j)
    ensures coefB == if byRow then Swap(coefA, at, j) else coefA
  {
    if byRow {
      TracksSwapRows(rowsA, permA, rows0, coefA, n, at, j);
      if tracked {
        TracksSwapRows(rowsA, permA, g, combosA, n, at, j);
      }
      coefB := Swap(coefA, at, j);
      if j <= n && UnitColumns(rowsA, n, j) {
        UnitColumnsSwapRows(rowsA, n, j, at);
      }
    } else {
      TracksSwapColumns(rowsA, permA, rows0, coefA, n, j, at);
      if tracked {
        TracksSwapColumns(rowsA, permA, g, combosA, n, j, at);
      }
      coefB := coefA;
      if UnitColumns(rowsA, n, j) {
        UnitColumnsSwapColumns(rowsA, n, j, at);
      }
    }
  }

  /** The elimination for column j keeps the bookkeeping: coef and the
      combinations receive the same row additions as the rows. */
  lemma EliminationKeeps(rows: seq<seq<bool>>, perm: seq<nat>, rows0: seq<seq<bool>>, coef: seq<seq<bool>>,
                         g: seq<seq<bool>>, combos: seq<seq<bool>>, n: nat, w: nat, j: nat, exact: bool, tracked: bool)
    requires Bookkept(rows, perm, rows0, coef, g, combos, n, tracked)
    requires j < |rows| == |combos| && Rectangular(combos, w) && (exact || 64 * (j / 64) < n)
    ensures var add := PivotTests(rows, j, exact);
            Bookkept(AddPivot(rows, j, add, n), perm, rows0, AddPivot(coef, j, add, |rows0|), g, AddPivot(combos, j, add, w), n, tracked)
  {
    var add := PivotTests(rows, j, exact);
    TracksAddPivot(rows, perm, rows0, coef, n, j, add);
    if tracked {
      assert w == |g| by {
        assert |combos[0]| == w;
      }
      TracksAddPivot(rows, perm, g, combos, n, j, add);
    }
  }

  /** What the pivot search of GaussMod2 for column j does (see FindPivot):
      rowsA, combosA and permA before it, rowsB, combosB and permB after. */
  ghost predicate PivotSearch(rowsA: seq<seq<bool>>, combosA: seq<seq<bool>>, permA: seq<nat>,
                              rowsB: seq<seq<bool>>, combosB: seq<seq<bool>>, permB: seq<nat>,
                              n: nat, j: nat, exact: bool, swapCombos: bool, pivoted: bool, byRow: bool, at: nat)
  {
    Rectangular(rowsA, n) && j < |rowsA| == |combosA| && |permA| == n && (exact || 64 * (j / 64) < n) &&
    (pivoted && byRow ==>
       j <= at < |rowsA| && PivotTest(rowsA[at], j, exact) && rowsB == Swap(rowsA, at, j) && permB == permA &&
       combosB == if swapCombos then Swap(combosA, at, j) else combosA) &&
    (pivoted && !byRow ==>
       (forall t :: j <= t < |rowsA| ==> !PivotTest(rowsA[t], j, exact)) &&
       j <= at < n && rowsA[j][at] && rowsB == SwapColumns(rowsA, n, j, at) && permB == Swap(permA, j, at) && combosB == combosA) &&
    (!pivoted ==>
       (forall t :: j <= t < |rowsA| ==> !PivotTest(rowsA[t], j, exact)) &&
       (forall c :: j <= c < n ==> !rowsA[j][c]) &&
       rowsB == rowsA && permB == permA && combosB == combosA)
  }

  /** The unit combinations record the rows e1, e0 of 64 bits. */
  lemma UnitCombosTrack()
    ensures var g := [Unit(64, 1), Unit(64, 0)];
            Tracks(g, Identity(64), g, [Unit(2, 0), Unit(2, 1)], 64)
  {
    var g: seq<seq<bool>> := [Unit(64, 1), Unit(64, 0)];
    var combos: seq<seq<bool>> := [Unit(2, 0), Unit(2, 1)];
    CombineUnit(g, 0, 64);
    CombineUnit(g, 1, 64);
    assert Tracks(g, [], g, combos, 64);
    TracksIdentity(g, g, combos, 64);
  }

  /** On the rows e1, e0 the pivot search for column 0 as written has to
      exchange row 1 with row 0, and leaves the combinations alone. */
  lemma PivotSearchTakesRow1(rowsB: seq<seq<bool>>, combosB: seq<seq<bool>>, permB: seq<nat>,
                             pivoted: bool, byRow: bool, at: nat)
    requires PivotSearch([Unit(64, 1), Unit(64, 0)], [Unit(2, 0), Unit(2, 1)], Identity(64),
                         rowsB, combosB, permB, 64, 0, false, false, pivoted, byRow, at)
    ensures rowsB[0] == Unit(64, 0) && combosB[0] == Unit(2, 0) && permB == Identity(64)
  {
    var g: seq<seq<bool>> := [Unit(64, 1), Unit(64, 0)];
    PivotTestExact(g[1], 0);
    assert PivotTest(g[1], 0, false);
    assert pivoted && byRow;
    PivotTestExact(g[0], 0);
    assert at == 1;
  }

  /** GaussMod2 as written exchanges rows without exchanging the matching
      rows of the Gauss-combinations matrix. On the rows e1, e0 of 64 bits,
      which the unit combinations record exactly, the pivot search for
      column 0 has to take row 1 and exchange it with row 0; afterwards row
      0 is e0 while its combination still names row 0 of the input, e1, so
      the combinations no longer record the rows. */
  lemma CombosNotExchanged(rowsB: seq<seq<bool>>, combosB: seq<seq<bool>>, permB: seq<nat>,
                           pivoted: bool, byRow: bool, at: nat)
    requires PivotSearch([Unit(64, 1), Unit(64, 0)], [Unit(2, 0), Unit(2, 1)], Identity(64),
                         rowsB, combosB, permB, 64, 0, false, false, pivoted, byRow, at)
    ensures var g := [Unit(64, 1), Unit(64, 0)];
            Tracks(g, Identity(64), g, [Unit(2, 0), Unit(2, 1)], 64) && !Tracks(rowsB, permB, g, combosB, 64)
  {
    var g: seq<seq<bool>> := [Unit(64, 1), Unit(64, 0)];
    UnitCombosTrack();
    PivotSearchTakesRow1(rowsB, combosB, permB, pivoted, byRow, at);
    CombineUnit(g, 0, 64);
    ScatterIdentity(rowsB[0]);
    assert Unpermute(rowsB[0], permB)[0] != Combine(g, combosB[0], 64)[0];
  }

  /** One pass of GaussMod2's loop keeps the bookkeeping, and, with an exact
      test or on rows of whole words, a successful pivot search adds column
      j to the unit columns. */
  lemma ColumnKeeps(rowsA: seq<seq<bool>>, permA: seq<nat>, coefA: seq<seq<bool>>, combosA: seq<seq<bool>>,
                    rowsB: seq<seq<bool>>, permB: seq<nat>, combosB: seq<seq<bool>>,
                    rows0: seq<seq<bool>>, g: seq<seq<bool>>, n: nat, w: nat, j: nat,
                    exact: bool, swapCombos: bool, tracked: bool, pivoted: bool, byRow: bool, at: nat)
    returns (coefC: seq<seq<bool>>)
    requires PivotSearch(rowsA, combosA, permA, rowsB, combosB, permB, n, j, exact, swapCombos, pivoted, byRow, at)
    requires Bookkept(rowsA, permA, rows0, coefA, g, combosA, n, tracked) && (tracked ==> swapCombos) && Rectangular(combosA, w)
    ensures Rectangular(rowsB, n) && |rowsB| == |rowsA| && |combosB| == |combosA| && Rectangular(combosB, w)
    ensures var add := PivotTests(rowsB, j, exact);
            Bookkept(AddPivot(rowsB, j, add, n), permB, rows0, coefC, g, AddPivot(combosB, j, add, w), n, tracked) &&
            ((exact || n % 64 == 0) && pivoted && j <= n && UnitColumns(rowsA, n, j) ==>
               j < n && UnitColumns(AddPivot(rowsB, j, add, n), n, j + 1))
    ensures coefC == AddPivot(if pivoted && byRow then Swap(coefA, at, j) else coefA, j, PivotTests(rowsB, j, exact), |rows0|)
  {
    SearchShape(rowsA, combosA, permA, rowsB, combosB, permB, n, w, j, exact, swapCombos, pivoted, byRow, at);
    var coefB := coefA;
    if pivoted {
      coefB := PivotKeeps(rowsA, permA, coefA, combosA, rowsB, permB, combosB, rows0, g, n, j, at, byRow, swapCombos, tracked);
    }
    var add := PivotTests(rowsB, j, exact);
    PivotAddsColumn(rowsA, permA, combosA, rowsB, combosB, permB, n, j, exact, swapCombos, pivoted, byRow, at);
    EliminationKeeps(rowsB, permB, rows0, coefB, g, combosB, n, w, j, exact, tracked);
    coefC := AddPivot(coefB, j, add, |rows0|);
  }

  /** A pivot search keeps the rows n wide and the combinations w wide. */
  lemma SearchShape(rowsA: seq<seq<bool>>, combosA: seq<seq<bool>>, permA: seq<nat>,
                    rowsB: seq<seq<bool>>, combosB: seq<seq<bool>>, permB: seq<nat>, n: nat, w: nat, j: nat,
                    exact: bool, swapCombos: bool, pivoted: bool, byRow: bool, at: nat)
    requires PivotSearch(rowsA, combosA, permA, rowsB, combosB, permB, n, j, exact, swapCombos, pivoted, byRow, at)
    requires Rectangular(combosA, w)
    ensures Rectangular(rowsB, n) && |rowsB| == |rowsA| && |combosB| == |combosA| && Rectangular(combosB, w)
  {
  }

  /** With an exact test or on rows of whole words, a successful pivot search
      of column j followed by the elimination adds column j to the unit columns. */
  lemma PivotAddsColumn(rowsA: seq<seq<bool>>, permA: seq<nat>, combosA: seq<seq<bool>>,
                        rowsB: seq<seq<bool>>, combosB: seq<seq<bool>>, permB: seq<nat>, n: nat, j: nat,
                        exact: bool, swapCombos: bool, pivoted: bool, byRow: bool, at: nat)
    requires PivotSearch(rowsA, combosA, permA, rowsB, combosB, permB, n, j, exact, swapCombos, pivoted, byRow, at)
    ensures (exact || n % 64 == 0) && pivoted && j <= n && UnitColumns(rowsA, n, j) ==>
              j < n && UnitColumns(AddPivot(rowsB, j, PivotTests(rowsB, j, exact), n), n, j + 1)
  {
    if (exact || n % 64 == 0) && pivoted && j <= n && UnitColumns(rowsA, n, j) {
      PivotFound(rowsA, rowsB, n, j, at, exact, byRow);
      UnitColumnsAddPivot(rowsB, n, j, PivotTests(rowsB, j, exact));
    }
  }

  /** After the pivot search of column j succeeds, with an exact test or on
      rows of whole words: row j has its 1 in column j, and the rows the
      elimination selects are exactly the other rows with a 1 there. */
  lemma PivotFound(rowsA: seq<seq<bool>>, rowsB: seq<seq<bool>>, n: nat, j: nat, at: nat, exact: bool, byRow: bool)
    requires Rectangular(rowsA, n) && j < |rowsA| && (exact || n % 64 == 0) && (exact || 64 * (j / 64) < n)
    requires byRow ==> j <= at < |rowsA| && PivotTest(rowsA[at], j, exact) && rowsB == Swap(rowsA, at, j)
    requires !byRow ==> j <= at < n && rowsA[j][at] && rowsB == SwapColumns(rowsA, n, j, at)
    ensures Rectangular(rowsB, n) && |rowsB| == |rowsA| && j < n && rowsB[j][j]
    ensures forall i :: 0 <= i < |rowsB| ==> PivotTests(rowsB, j, exact)[i] == (i != j && rowsB[i][j])
  {
    if !exact {
      PivotTestExact(rowsA[j], j);
    }
    if byRow && !exact {
      PivotTestExact(rowsA[at], j);
    }
    forall i | 0 <= i < |rowsB| ensures PivotTests(rowsB, j, exact)[i] == (i != j && rowsB[i][j]) {
      if !exact {
        PivotTestExact(rowsB[i], j);
      }
    }
  }

  /** A pivot search for column j that fails after unit columns 0..j-1,
      with an exact test or on rows of whole words, leaves row j zero, and
      the elimination keeps it so. */
  lemma ZeroRowFound(rowsA: seq<seq<bool>>, combosA: seq<seq<bool>>, permA: seq<nat>,
                     rowsB: seq<seq<bool>>, combosB: seq<seq<bool>>, permB: seq<nat>,
                     n: nat, j: nat, exact: bool, swapCombos: bool, byRow: bool, at: nat)
    requires PivotSearch(rowsA, combosA, permA, rowsB, combosB, permB, n, j, exact, swapCombos, false, byRow, at)
    requires j <= n && UnitColumns(rowsA, n, j)
    ensures AddPivot(rowsB, j, PivotTests(rowsB, j, exact), n)[j] == Zeros(n)
  {
    forall c | 0 <= c < n ensures !rowsA[j][c] {
      if c < j {
        assert rowsA[j][c] == (j == c);
      }
    }
  }

  /** A zero row above j stays zero through the pivot search and the
      elimination for column j, with an exact test or on rows of whole
      words. */
  lemma ZeroRowKept(rowsA: seq<seq<bool>>, combosA: seq<seq<bool>>, permA: seq<nat>,
                    rowsB: seq<seq<bool>>, combosB: seq<seq<bool>>, permB: seq<nat>,
                    n: nat, j: nat, exact: bool, swapCombos: bool, pivoted: bool, byRow: bool, at: nat, zr: nat)
    requires PivotSearch(rowsA, combosA, permA, rowsB, combosB, permB, n, j, exact, swapCombos, pivoted, byRow, at)
    requires (exact || n % 64 == 0) && zr < j && rowsA[zr] == Zeros(n)
    ensures AddPivot(rowsB, j, PivotTests(rowsB, j, exact), n)[zr] == Zeros(n)
  {
    if pivoted && !byRow {
      assert rowsB[zr] == Swap(rowsA[zr], j, at);
    }
    assert rowsB[zr] == Zeros(n);
    if !exact {
      PivotTestExact(rowsB[zr], j);
    }
  }

  /** The coefficient rows stay independent through an optional row
      exchange of at and j and the elimination of column j. */
  lemma CoefficientsStayIndependent(coefA: seq<seq<bool>>, coefC: seq<seq<bool>>, k: nat, j: nat, add: seq<bool>,
                                    swapped: bool, at: nat)
    requires Rectangular(coefA, k) && j < |coefA| && |add| == |coefA| && (swapped ==> at < |coefA|)
    requires coefC == AddPivot(if swapped then Swap(coefA, at, j) else coefA, j, add, k)
    ensures Independent(coefA, k) ==> Independent(coefC, k)
  {
    if Independent(coefA, k) {
      if swapped {
        var m := Swap(coefA, at, j);
        assert Rectangular(m, k);
        IndependentSwap(coefA, k, at, j);
        assert Independent(m, k);
        IndependentAddPivot(m, k, j, add);
        assert coefC == AddPivot(m, j, add, k);
        assert Independent(coefC, k);
      } else {
        IndependentAddPivot(coefA, k, j, add);
      }
    }
  }

  /** What one pass of GaussMod2's loop does to the rank: the combinations
      stay independent, a failed pivot search after unit columns 0..j-1
      leaves row j zero (with an exact test or on rows of whole words), and
      a zero row above j stays zero. */
  lemma ColumnRank(rowsA: seq<seq<bool>>, combosA: seq<seq<bool>>, permA: seq<nat>,
                   rowsB: seq<seq<bool>>, combosB: seq<seq<bool>>, permB: seq<nat>,
                   coefA: seq<seq<bool>>, coefC: seq<seq<bool>>, k: nat, n: nat, j: nat,
                   exact: bool, swapCombos: bool, pivoted: bool, byRow: bool, at: nat, zr: nat)
    requires PivotSearch(rowsA, combosA, permA, rowsB, combosB, permB, n, j, exact, swapCombos, pivoted, byRow, at)
    requires Rectangular(coefA, k) && |coefA| == |rowsA|
    requires coefC == AddPivot(if pivoted && byRow then Swap(coefA, at, j) else coefA, j, PivotTests(rowsB, j, exact), k)
    ensures Independent(coefA, k) ==> Independent(coefC, k)
    ensures var rowsC := AddPivot(rowsB, j, PivotTests(rowsB, j, exact), n);
            ((exact || n % 64 == 0) && !pivoted && j <= n && UnitColumns(rowsA, n, j) ==> rowsC[j] == Zeros(n)) &&
            ((exact || n % 64 == 0) && zr < j && rowsA[zr] == Zeros(n) ==> rowsC[zr] == Zeros(n))
  {
    CoefficientsStayIndependent(coefA, coefC, k, j, PivotTests(rowsB, j, exact), pivoted && byRow, at);
    if !pivoted && j <= n && UnitColumns(rowsA, n, j) {
      ZeroRowFound(rowsA, combosA, permA, rowsB, combosB, permB, n, j, exact, swapCombos, byRow, at);
    }
    if (exact || n % 64 == 0) && zr < j && rowsA[zr] == Zeros(n) {
      ZeroRowKept(rowsA, combosA, permA, rowsB, combosB, permB, n, j, exact, swapCombos, pivoted, byRow, at, zr);
    }
  }

  /** The inner loop of CodeShortening for one column: the first row with
      a 1 in col becomes the pivot, the scan restarts (`i = 0`, so at row 1)
      and the pivot row is added to every other row with a 1 in col. */
  method ClearColumn(m: CodeMatrix, col: nat, ghost n: nat) returns (found: bool, pivot: nat)
    modifies m
    requires m.Valid() && Rectangular(m.rows, n) && (|m.rows| == 0 || col < n)
    ensures m.Valid() && Rectangular(m.rows, n)
    ensures !found ==> m.rows == old(m.rows) && forall t :: 0 <= t < |m.rows| ==> !m.rows[t][col]
    ensures found ==> pivot < |old(m.rows)| && old(m.rows)[pivot][col] &&
                      (forall t :: 0 <= t < pivot ==> !old(m.rows)[t][col]) &&
                      m.rows == AddPivot(old(m.rows), pivot, ColumnTests(old(m.rows), pivot, col), n)
  {
    ghost var rows0 := m.rows;
    found, pivot := false, 0;
    var i := 0;
    while i < m.GetRows()
      invariant m.Valid() && |m.rows| == |rows0| && Rectangular(m.rows, n)
      invariant !found ==> i <= |rows0| && m.rows == rows0 && forall t :: 0 <= t < i ==> !rows0[t][col]
      invariant found ==> 1 <= i <= |rows0| && pivot < |rows0| && rows0[pivot][col] &&
                          (forall t :: 0 <= t < pivot ==> !rows0[t][col]) &&
                          forall t :: 0 <= t < |rows0| ==>
                            m.rows[t] == if t < i && t != pivot && rows0[t][col] then Xor(rows0[t], rows0[pivot]) else rows0[t]
      decreases if found then 0 else 1, |rows0| - i
    {
      if !found {
        if m.AtBool(i, col) {
          found := true;
          pivot := i;
          i := 0;
        }
      } else {
        if i != pivot {
          if m.AtBool(i, col) {
            m.SetRow(i, Xor(m.Row(i), m.Row(pivot)));
          }
        }
      }
      i := i + 1;
    }
    if found {
      assert m.rows == AddPivot(rows0, pivot, ColumnTests(rows0, pivot, col), n);
    }
  }

  /** The last loop of CodeShortening: `DeleteColumn(vColumns[i] - i)` for
      each i, which deletes exactly the listed columns. */
  method DeleteListed(m: CodeMatrix, cols: seq<nat>, n: nat)
    modifies m
    requires m.Valid() && |m.rows| > 0 && m.GetColumns() == n && Shortenable(cols, n)
    ensures m.Valid() && m.rows == ShortenedRows(old(m.rows), cols, n, |cols|)
  {
    ghost var rows0 := m.rows;
    ShortenedNone(rows0, cols, n);
    for i := 0 to |cols|
      invariant m.Valid() && m.rows == ShortenedRows(rows0, cols, n, i)
    {
      assert Shift(cols, n, i) == cols[i] - i < |m.rows[0]|;
      m.DeleteColumn(cols[i] - i);
      DeleteListedStep(rows0, cols, n, i);
    }
  }

  /** Before any deletion every column is left. */
  lemma ShortenedNone(rows0: seq<seq<bool>>, cols: seq<nat>, n: nat)
    requires Rectangular(rows0, n) && Shortenable(cols, n)
    ensures rows0 == ShortenedRows(rows0, cols, n, 0)
  {
    forall t | 0 <= t < |rows0| ensures Gather(rows0[t], Survivors(cols, n, 0)) == rows0[t] {
      assert |rows0[t]| == n;
    }
  }

  /** One deletion of DeleteListed: the next listed column leaves the
      gathered rows. */
  lemma DeleteListedStep(rows0: seq<seq<bool>>, cols: seq<nat>, n: nat, i: nat)
    requires Rectangular(rows0, n) && Shortenable(cols, n) && i < |cols|
    ensures DropColumn(ShortenedRows(rows0, cols, n, i), Shift(cols, n, i)) == ShortenedRows(rows0, cols, n, i + 1)
  {
    var a, b := DropColumn(ShortenedRows(rows0, cols, n, i), Shift(cols, n, i)), ShortenedRows(rows0, cols, n, i + 1);
    forall t | 0 <= t < |rows0| ensures a[t] == b[t] {
      GatherRemoveAt(rows0[t], Survivors(cols, n, i), Shift(cols, n, i));
    }
  }

  /** The loops `for (i = lo; i < hi; i++) v.push_back(i)` that build the
      column vector 0, ..., n - 1 and the row and column lists of Z: the
      numbers from lo up to hi, none when hi is not above lo. */
  method Range(lo: nat, hi: nat) returns (r: seq<nat>)
    ensures lo <= hi ==> r == Interval(lo, hi)
    ensures hi < lo ==> r == []
  {
    r := [];
    var i := lo;
    while i < hi
      invariant lo <= i && (lo <= hi ==> i <= hi) && (hi < lo ==> i == lo) && r == Interval(lo, i)
    {
      r := r + [i];
      i := i + 1;
    }
  }

  /** The loop that builds vI1 and vI2 together: the first floor(k / 2)
      rows, and as many rows after them. */
  method Halves(k: nat) returns (vI1: seq<nat>, vI2: seq<nat>)
    ensures vI1 == Interval(0, k / 2) && vI2 == Interval(k / 2, 2 * (k / 2))
  {
    vI1, vI2 := [], [];
    for i := 0 to k / 2
      invariant vI1 == Interval(0, i) && vI2 == Interval(k / 2, k / 2 + i)
    {
      vI1, vI2 := vI1 + [i], vI2 + [k / 2 + i];
    }
  }

  /** One pass of CodeShortening's column loop: ClearColumn on column
      cols[j], then the pivot row deleted when there is one. The rows stay in
      the span of the input, columns 0..j of the list are cleared, the code
      words zero on them are kept, and a pivot is found exactly when column
      j is not forced to zero. */
  method ShortenColumn(r: CodeMatrix, cols: seq<nat>, n: nat, j: nat,
                       ghost rows0: seq<seq<bool>>, ghost live: bool, ghost pivoted: seq<bool>)
    returns (found: bool)
    modifies r
    requires j < |cols| && (live <==> |rows0| > 0) && (live ==> Shortenable(cols, n))
    requires r.Valid() && Rectangular(r.rows, n) && Reaches(r.rows, [], rows0, n)
    requires |pivoted| == j && |rows0| == |r.rows| + Count(pivoted)
    requires live ==> Cleared(r.rows, cols, n, j) && Retains(rows0, r.rows, cols, n, j)
    requires live ==> forall i :: 0 <= i < j ==> (pivoted[i] <==> !Forced(rows0, cols, n, i))
    requires !live ==> r.rows == []
    ensures r.Valid() && Rectangular(r.rows, n) && Reaches(r.rows, [], rows0, n)
    ensures |rows0| == |r.rows| + Count(pivoted + [found])
    ensures live ==> Cleared(r.rows, cols, n, j + 1) && Retains(rows0, r.rows, cols, n, j + 1)
    ensures live ==> forall i :: 0 <= i < j + 1 ==> ((pivoted + [found])[i] <==> !Forced(rows0, cols, n, i))
    ensures !live ==> r.rows == []
  {
    ghost var before := r.rows;
    var pivot;
    found, pivot := ClearColumn(r, cols[j], n);
    if found {
      ShortenStep(before, r.rows, rows0, cols, n, j, pivot);
      r.DeleteRow(pivot);
    } else if live {
      ClearedNoPivot(before, cols, n, j);
      RetainsNoPivot(rows0, before, cols, n, j);
    }
    assert (pivoted + [found])[..j] == pivoted;
  }

  /** The rows of the reduced generator put back into the columns of the
      input: the fallback as evidently intended scans these. */
  method RestoreRows(gen: CodeMatrix, gaussPerm: seq<nat>, randPerm: seq<nat>) returns (rows: seq<seq<bool>>)
    requires gen.Valid() && Unpermutable(gaussPerm, gen.GetColumns()) && Unpermutable(randPerm, gen.GetColumns())
    ensures rows == RestoredRows(gen.rows, gen.GetColumns(), gaussPerm, randPerm)
  {
    ghost var n := gen.GetColumns();
    rows := [];
    for i := 0 to gen.GetRows()
      invariant |rows| == i && forall t :: 0 <= t < i ==> rows[t] == Restored(gen.rows[t], gaussPerm, randPerm)
    {
      var a := PermuteBack(gen.Row(i), gaussPerm);
      var b := PermuteBack(a, randPerm);
      rows := rows + [b];
    }
  }

  /** Z and the Gauss-combinations matrix part way through the loop of
      DeltaGauss on (lambda, mu): the first i rows pivoted, the rest as
      they were. */
  ghost predicate DeltaPartial(zr: seq<seq<bool>>, gr: seq<seq<bool>>, z0: seq<seq<bool>>, g0: seq<seq<bool>>,
                               m: nat, w: nat, lambda: nat, mu: nat, i: nat)
  {
    Rectangular(z0, m) && Rectangular(g0, w) && |g0| == |z0| && lambda < |z0| && mu < m && i <= |z0| &&
    |zr| == |z0| && |gr| == |z0| && Rectangular(zr, m) && Rectangular(gr, w) &&
    (forall t :: 0 <= t < i ==> zr[t] == DeltaRow(z0, m, lambda, mu, t)) &&
    (forall t :: i <= t < |z0| ==> zr[t] == z0[t]) &&
    (forall t :: 0 <= t < i ==> gr[t] == AddPivot(g0, lambda, Added(z0, m, lambda, mu), w)[t]) &&
    (forall t :: i <= t < |z0| ==> gr[t] == g0[t])
  }

  /** The loop of DeltaGauss starts from Z and the matrix as they are. */
  lemma DeltaPartialStart(z0: seq<seq<bool>>, g0: seq<seq<bool>>, m: nat, w: nat, lambda: nat, mu: nat)
    requires Rectangular(z0, m) && Rectangular(g0, w) && |g0| == |z0| && lambda < |z0| && mu < m
    ensures DeltaPartial(z0, g0, z0, g0, m, w, lambda, mu, 0)
  {
  }

  /** One more row of the loop: a row other than lambda with a 1 in column
      mu gets row lambda added, in Z with its 1 put back, and in the
      matrix; any other row stays. Row lambda is never touched. */
  lemma DeltaPartialStep(zr: seq<seq<bool>>, gr: seq<seq<bool>>, z0: seq<seq<bool>>, g0: seq<seq<bool>>,
                         m: nat, w: nat, lambda: nat, mu: nat, i: nat, zr': seq<seq<bool>>, gr': seq<seq<bool>>)
    requires DeltaPartial(zr, gr, z0, g0, m, w, lambda, mu, i) && i < |z0|
    requires zr[i][mu] && i != lambda ==>
               zr' == zr[i := Xor(zr[i], zr[lambda])[mu := true]] && gr' == gr[i := Xor(gr[i], gr[lambda])]
    requires !(zr[i][mu] && i != lambda) ==> zr' == zr && gr' == gr
    ensures zr[lambda] == z0[lambda] && gr[lambda] == g0[lambda] && zr[i] == z0[i]
    ensures DeltaPartial(zr', gr', z0, g0, m, w, lambda, mu, i + 1)
  {
    assert zr[lambda] == z0[lambda] by {
      if lambda < i {
        assert zr[lambda] == DeltaRow(z0, m, lambda, mu, lambda);
      }
    }
    assert gr[lambda] == g0[lambda] by {
      if lambda < i {
        assert gr[lambda] == AddPivot(g0, lambda, Added(z0, m, lambda, mu), w)[lambda];
      }
    }
    assert Added(z0, m, lambda, mu)[i] == (i != lambda && z0[i][mu]);
  }

  /** Once every row is done the loop has computed DeltaZ and AddPivot. */
  lemma DeltaPartialEnd(zr: seq<seq<bool>>, gr: seq<seq<bool>>, z0: seq<seq<bool>>, g0: seq<seq<bool>>,
                        m: nat, w: nat, lambda: nat, mu: nat)
    requires DeltaPartial(zr, gr, z0, g0, m, w, lambda, mu, |z0|)
    ensures zr == DeltaZ(z0, m, lambda, mu) && gr == AddPivot(g0, lambda, Added(z0, m, lambda, mu), w)
  {
  }

  /** One column of CodeShortening that finds a pivot: the rows after the
      pivot row is added and deleted still reach the input, are cleared in
      one more column and keep every code word zero in it. */
  lemma ShortenStep(before: seq<seq<bool>>, added: seq<seq<bool>>, rows0: seq<seq<bool>>, cols: seq<nat>, n: nat,
                    j: nat, pivot: nat)
    requires Rectangular(before, n) && Reaches(before, [], rows0, n) && j < |cols|
    requires |rows0| > 0 ==> Shortenable(cols, n) && Cleared(before, cols, n, j) && Retains(rows0, before, cols, n, j)
    requires pivot < |before| && cols[j] < n && before[pivot][cols[j]]
    requires added == AddPivot(before, pivot, ColumnTests(before, pivot, cols[j]), n)
    ensures Reaches(RemoveAt(added, pivot), [], rows0, n)
    ensures |rows0| > 0 ==> Cleared(RemoveAt(added, pivot), cols, n, j + 1) && Retains(rows0, RemoveAt(added, pivot), cols, n, j + 1)
    ensures |rows0| > 0 ==> !Forced(rows0, cols, n, j)
  {
    ReachesAddPivot(before, rows0, n, pivot, ColumnTests(before, pivot, cols[j]));
    ReachesRemoveAt(added, rows0, n, pivot);
    if |rows0| > 0 {
      ClearedPivot(before, cols, n, j, pivot);
      RetainsPivot(rows0, before, cols, n, j, pivot);
      PivotNotForced(rows0, before, cols, n, j, pivot);
    }
  }

  class LowWeightSearch {
    /** m_oGaussCombinations: the row operations performed, applied to an
        identity matrix. */
    var gaussCombinations: seq<seq<bool>>
    /** m_vCombinedRows: the rows combined into the last word found. */
    var combinedRows: seq<nat>
    /** m_vWeights: the weights of the bits, empty for plain weights. */
    var weights: seq<nat>
    /** m_pCheckFunction: None for the null pointer. */
    var checkFunction: Option<seq<bool> -> bool>
    /** m_oRnGen. */
    const rng: RandomNumberGenerator
    /** The words m_oOutputFile.WriteCodeWord received, in order. */
    ghost var written: seq<seq<bool>>

    /** LowWeightSearch(): no check function; the generator seeded with s. */
    constructor(s: Uint32, outputs: nat -> nat)
      ensures fresh(rng) && rng.seed == s && rng.stream == outputs && rng.position == 0
      ensures gaussCombinations == [] && combinedRows == [] && weights == [] && checkFunction == None && written == []
    {
      rng := new RandomNumberGenerator(s, outputs);
      gaussCombinations, combinedRows, weights, checkFunction, written := [], [], [], None, [];
    }

    /** The width of the rows of the Gauss-combinations matrix. */
    function CombinationWidth(): nat
      reads this
    {
      if |gaussCombinations| == 0 then 0 else |gaussCombinations[0]|
    }

    /** SetCheckFunction(f). */
    method SetCheckFunction(f: Option<seq<bool> -> bool>)
      modifies this
      ensures checkFunction == f
      ensures gaussCombinations == old(gaussCombinations) && combinedRows == old(combinedRows)
      ensures weights == old(weights) && written == old(written)
    {
      checkFunction := f;
    }

    /** SetWeightVector(v). */
    method SetWeightVector(v: seq<nat>)
      modifies this
      ensures weights == v
      ensures gaussCombinations == old(gaussCombinations) && combinedRows == old(combinedRows)
      ensures checkFunction == old(checkFunction) && written == old(written)
    {
      weights := v;
    }

    /** GetCombinedRows(): a copy of the rows of Z the last accepted word
        combines. */
    function GetCombinedRows(): (r: seq<nat>)
      reads this
      ensures r == combinedRows
    {
      combinedRows
    }

    /** GetGaussCombinations(): the Gauss-combinations matrix, whose rows
        are CombinationWidth() wide. */
    function GetGaussCombinations(): (r: seq<seq<bool>>)
      reads this
      ensures r == gaussCombinations
      ensures |r| == 0 ==> CombinationWidth() == 0
      ensures 0 < |r| ==> CombinationWidth() == |r[0]|
    {
      gaussCombinations
    }

    /** CheckParameters: refuses a sigma above 30; reading "-s" inserts it
        with value 0 when absent. */
    method CheckParameters(params: Parameters) returns (ok: bool)
      modifies params
      ensures ok <==> Setting(old(params.integers), Sigma) <= 30
      ensures params.integers == old(params.integers)[Sigma := Setting(old(params.integers), Sigma)]
      ensures params.strings == old(params.strings) && params.helpTexts == old(params.helpTexts)
    {
      ok := true;
      var sigma := params.GetIntegerParameter(Sigma);
      if sigma > 30 {
        ok := false;
      }
    }

    /** CreateGaussMatrix(dim): dim rows of (dim + 63) / 64 zero words, row
        i with bit i set. */
    method CreateGaussMatrix(dim: nat)
      modifies this
      ensures gaussCombinations == UnitRows(dim, Width(dim))
      ensures combinedRows == old(combinedRows) && weights == old(weights)
      ensures checkFunction == old(checkFunction) && written == old(written)
    {
      var temp := new CodeMatrix();
      var words := (dim + 63) / 64;
      for i := 0 to dim
        invariant temp.Valid() && temp.rows == UnitRows(i, Width(dim))
        modifies temp
      {
        var word: seq<bool> := [];
        for j := 0 to words
          invariant word == Zeros(64 * j)
        {
          word := word + Zeros(64);
        }
        word := word[i := true];
        assert word == Unit(Width(dim), i);
        temp.AddRow(word);
        assert temp.rows == UnitRows(i + 1, Width(dim));
      }
      gaussCombinations := temp.rows;
    }

    // -------------------------------------------------------------------
    // GaussMod2

    /** The elimination loop of GaussMod2 for column j: every other row
        whose pivot test succeeds gets row j added, and so does its row of
        the Gauss-combinations matrix. */
    method EliminateColumn(matrix: CodeMatrix, j: nat, exact: bool)
      modifies this`gaussCombinations, matrix
      requires matrix.Valid() && j < |matrix.rows| && (exact || 64 * (j / 64) < matrix.GetColumns())
      requires |gaussCombinations| == |matrix.rows| && Rectangular(gaussCombinations, CombinationWidth())
      ensures matrix.Valid() && matrix.GetColumns() == old(matrix.GetColumns())
      ensures var add := PivotTests(old(matrix.rows), j, exact);
              matrix.rows == AddPivot(old(matrix.rows), j, add, old(matrix.GetColumns())) &&
              gaussCombinations == AddPivot(old(gaussCombinations), j, add, old(CombinationWidth()))
    {
      ghost var n, w := matrix.GetColumns(), CombinationWidth();
      ghost var add := PivotTests(matrix.rows, j, exact);
      ghost var rowsT := AddPivot(matrix.rows, j, add, n);
      ghost var combosT := AddPivot(gaussCombinations, j, add, w);
      for i := 0 to matrix.GetRows()
        invariant matrix.Valid() && Rectangular(matrix.rows, n) && Rectangular(gaussCombinations, w)
        invariant |matrix.rows| == |rowsT| && |gaussCombinations| == |combosT|
        invariant matrix.rows[j] == old(matrix.rows)[j] && gaussCombinations[j] == old(gaussCombinations)[j]
        invariant forall t :: 0 <= t < i ==> matrix.rows[t] == rowsT[t] && gaussCombinations[t] == combosT[t]
        invariant forall t :: i <= t < |rowsT| ==> matrix.rows[t] == old(matrix.rows)[t] && gaussCombinations[t] == old(gaussCombinations)[t]
      {
        if i != j && PivotTest(matrix.Row(i), j, exact) {
          matrix.SetRow(i, Xor(matrix.Row(i), matrix.Row(j)));
          gaussCombinations := gaussCombinations[i := Xor(gaussCombinations[i], gaussCombinations[j])];
        }
      }
      assert matrix.rows == rowsT && gaussCombinations == combosT;
    }

    /** The pivot search of GaussMod2 for column j: the first row at or
        below j whose test succeeds is exchanged with row j (and, when
        swapCombos, so are the rows of the Gauss-combinations matrix);
        failing that, the first column at or after j with a 1 in row j is
        exchanged with column j and the exchange recorded; failing that
        nothing changes. */
    method FindPivot(matrix: CodeMatrix, j: nat, exact: bool, swapCombos: bool, colChange: seq<nat>)
      returns (perm: seq<nat>, pivoted: bool, ghost byRow: bool, ghost at: nat)
      modifies this`gaussCombinations, matrix
      requires matrix.Valid() && j < |matrix.rows| && (exact || 64 * (j / 64) < matrix.GetColumns())
      requires |gaussCombinations| == |matrix.rows| && |colChange| == matrix.GetColumns()
      ensures matrix.Valid() && |matrix.rows| == old(|matrix.rows|) && matrix.GetColumns() == old(matrix.GetColumns())
      ensures PivotSearch(old(matrix.rows), old(gaussCombinations), colChange, matrix.rows, gaussCombinations, perm,
                          old(matrix.GetColumns()), j, exact, swapCombos, pivoted, byRow, at)
    {
      perm := colChange;
      var i, found := FindPivotRow(matrix, j, exact);
      if found {
        ExchangeRows(matrix, i, j);
        if swapCombos {
          gaussCombinations := Swap(gaussCombinations, i, j);
        }
        return perm, true, true, i;
      }
      var c, foundColumn := FindPivotColumn(matrix, j);
      if foundColumn {
        ExchangeColumns(matrix, j, c);
        perm := Swap(colChange, j, c);
        return perm, true, false, c;
      }
      pivoted, byRow, at := false, false, 0;
    }

    /** One pass of GaussMod2's loop, for column j: the pivot search, then
        the elimination. pivoted is false when the source prints that the
        matrix has not full rank. */
    method ReduceColumn(matrix: CodeMatrix, j: nat, exact: bool, swapCombos: bool, colChange: seq<nat>,
                        ghost g: seq<seq<bool>>, ghost rows0: seq<seq<bool>>, ghost coef: seq<seq<bool>>, ghost tracked: bool,
                        ghost zr: nat)
      returns (perm: seq<nat>, pivoted: bool, ghost coef': seq<seq<bool>>)
      modifies this`gaussCombinations, matrix
      requires matrix.Valid() && j < |matrix.rows| && (exact || 64 * (j / 64) < matrix.GetColumns())
      requires |gaussCombinations| == |matrix.rows| && Rectangular(gaussCombinations, CombinationWidth())
      requires (tracked ==> swapCombos) && Bookkept(matrix.rows, colChange, rows0, coef, g, gaussCombinations, matrix.GetColumns(), tracked)
      ensures matrix.Valid() && |matrix.rows| == old(|matrix.rows|) && matrix.GetColumns() == old(matrix.GetColumns())
      ensures |gaussCombinations| == old(|gaussCombinations|) && Rectangular(gaussCombinations, old(CombinationWidth()))
      ensures Bookkept(matrix.rows, perm, rows0, coef', g, gaussCombinations, matrix.GetColumns(), tracked)
      ensures (exact || matrix.GetColumns() % 64 == 0) && pivoted && j <= matrix.GetColumns() && UnitColumns(old(matrix.rows), matrix.GetColumns(), j) ==>
                j < matrix.GetColumns() && UnitColumns(matrix.rows, matrix.GetColumns(), j + 1)
      ensures Independent(coef, |rows0|) ==> Independent(coef', |rows0|)
      ensures (exact || matrix.GetColumns() % 64 == 0) && !pivoted && j <= matrix.GetColumns() &&
                UnitColumns(old(matrix.rows), matrix.GetColumns(), j) ==>
                  matrix.rows[j] == Zeros(matrix.GetColumns())
      ensures (exact || matrix.GetColumns() % 64 == 0) && zr < j && old(matrix.rows)[zr] == Zeros(matrix.GetColumns()) ==>
                matrix.rows[zr] == Zeros(matrix.GetColumns())
    {
      ghost var n, w := matrix.GetColumns(), CombinationWidth();
      ghost var rowsA, combosA := matrix.rows, gaussCombinations;
      ghost var byRow, at;
      perm, pivoted, byRow, at := FindPivot(matrix, j, exact, swapCombos, colChange);
      coef' := ColumnKeeps(rowsA, colChange, coef, combosA, matrix.rows, perm, gaussCombinations,
                           rows0, g, n, w, j, exact, swapCombos, tracked, pivoted, byRow, at);
      ColumnRank(rowsA, combosA, colChange, matrix.rows, gaussCombinations, perm, coef, coef', |rows0|, n, j,
                 exact, swapCombos, pivoted, byRow, at, zr);
      EliminateColumn(matrix, j, exact);
    }

    /** GaussMod2's loop over the rows, with the pivot test exact or as the
        source writes it, and the rows of the Gauss-combinations matrix
        exchanged along with those of the matrix or not; fullRank is false
        when the source prints that the matrix has not full rank. With an
        exact test or on rows of whole words, independent rows always reach
        full rank, and a rank defect leaves a zero row. */
    method Reduce(matrix: CodeMatrix, exact: bool, swapCombos: bool, ghost g: seq<seq<bool>>)
      returns (colChange: seq<nat>, fullRank: bool)
      modifies this`gaussCombinations, matrix
      requires matrix.Valid() && (exact || |matrix.rows| <= 64 * matrix.GetColumns64())
      requires |gaussCombinations| == |matrix.rows| && Rectangular(gaussCombinations, CombinationWidth())
      ensures matrix.Valid() && |matrix.rows| == old(|matrix.rows|) && matrix.GetColumns() == old(matrix.GetColumns())
      ensures |gaussCombinations| == old(|gaussCombinations|) && Rectangular(gaussCombinations, old(CombinationWidth()))
      ensures IsPermutation(colChange, old(matrix.GetColumns()))
      ensures Reaches(matrix.rows, colChange, old(matrix.rows), old(matrix.GetColumns()))
      ensures swapCombos && Tracks(old(matrix.rows), [], g, old(gaussCombinations), old(matrix.GetColumns())) ==>
                Tracks(matrix.rows, colChange, g, gaussCombinations, old(matrix.GetColumns()))
      ensures (exact || old(matrix.GetColumns()) % 64 == 0) && fullRank ==> Systematic(matrix.rows, old(matrix.GetColumns()))
      ensures (exact || old(matrix.GetColumns()) % 64 == 0) && !fullRank ==>
                exists i :: 0 <= i < |matrix.rows| && matrix.rows[i] == Zeros(old(matrix.GetColumns()))
      ensures (exact || old(matrix.GetColumns()) % 64 == 0) && Independent(old(matrix.rows), old(matrix.GetColumns())) ==> fullRank
    {
      var cols := matrix.GetColumns();
      ghost var n, k, w := cols, |matrix.rows|, CombinationWidth();
      ghost var rows0, combos0 := matrix.rows, gaussCombinations;
      ghost var tracked := swapCombos && Tracks(rows0, [], g, combos0, n);
      ghost var cond := exact || n % 64 == 0;
      colChange := [];
      for i := 0 to cols
        invariant colChange == Identity(i)
      {
        colChange := colChange + [i];
      }
      ghost var coef := IdentityRows(k);
      TracksStart(rows0, n, []);
      TracksIdentity(rows0, rows0, coef, n);
      if tracked {
        TracksIdentity(rows0, g, combos0, n);
      }
      IndependentIdentity(k);
      fullRank := true;
      ghost var zr := 0;
      for j := 0 to matrix.GetRows()
        invariant matrix.Valid() && |matrix.rows| == k && matrix.GetColumns() == n
        invariant |gaussCombinations| == k && Rectangular(gaussCombinations, w)
        invariant Bookkept(matrix.rows, colChange, rows0, coef, g, gaussCombinations, n, tracked)
        invariant Independent(coef, k)
        invariant cond && fullRank ==> j <= n && UnitColumns(matrix.rows, n, j)
        invariant cond && !fullRank ==> zr < j && matrix.rows[zr] == Zeros(n)
      {
        if !exact {
          WordIndex(j, n);
        }
        var pivoted;
        colChange, pivoted, coef := ReduceColumn(matrix, j, exact, swapCombos, colChange, g, rows0, coef, tracked, zr);
        if fullRank && !pivoted {
          zr := j;
        }
        fullRank := fullRank && pivoted;
      }
      TracksInSpan(matrix.rows, colChange, rows0, coef, n);
      if cond && fullRank {
        UnitColumnsSystematic(matrix.rows, n);
      }
      if cond && !fullRank {
        TracksZeroRow(matrix.rows, colChange, rows0, coef, n, zr);
      }
    }

    /** GaussMod2 as the source writes it: the word pivot test, and rows of
        the Gauss-combinations matrix that are added to but never exchanged.
        The column exchanges form a permutation, the rows stay in the row
        space of the input, and on rows of whole words the matrix ends
        systematic unless a rank defect is reported, which happens only when
        the rows of the input are dependent and leaves a zero row. */
    method GaussMod2(matrix: CodeMatrix) returns (colChange: seq<nat>, fullRank: bool)
      modifies this`gaussCombinations, matrix
      requires matrix.Valid() && |matrix.rows| <= 64 * matrix.GetColumns64()
      requires |gaussCombinations| == |matrix.rows| && Rectangular(gaussCombinations, CombinationWidth())
      ensures matrix.Valid() && |matrix.rows| == old(|matrix.rows|) && matrix.GetColumns() == old(matrix.GetColumns())
      ensures |gaussCombinations| == old(|gaussCombinations|) && Rectangular(gaussCombinations, old(CombinationWidth()))
      ensures IsPermutation(colChange, old(matrix.GetColumns()))
      ensures Reaches(matrix.rows, colChange, old(matrix.rows), old(matrix.GetColumns()))
      ensures old(matrix.GetColumns()) % 64 == 0 && fullRank ==> Systematic(matrix.rows, old(matrix.GetColumns()))
      ensures old(matrix.GetColumns()) % 64 == 0 && !fullRank ==>
                exists i :: 0 <= i < |matrix.rows| && matrix.rows[i] == Zeros(old(matrix.GetColumns()))
      ensures old(matrix.GetColumns()) % 64 == 0 && Independent(old(matrix.rows), old(matrix.GetColumns())) ==> fullRank
    {
      colChange, fullRank := Reduce(matrix, false, false, []);
    }

    /** GaussMod2 as evidently intended: the entry itself as pivot test, and
        the rows of the Gauss-combinations matrix exchanged with those of the
        matrix. The matrix ends systematic whatever its length unless a rank
        defect is reported, which happens only when the rows of the input
        are dependent and leaves a zero row; combinations that recorded how
        the rows arose from g still do. */
    method GaussMod2Corrected(matrix: CodeMatrix, ghost g: seq<seq<bool>>) returns (colChange: seq<nat>, fullRank: bool)
      modifies this`gaussCombinations, matrix
      requires matrix.Valid()
      requires |gaussCombinations| == |matrix.rows| && Rectangular(gaussCombinations, CombinationWidth())
      ensures matrix.Valid() && |matrix.rows| == old(|matrix.rows|) && matrix.GetColumns() == old(matrix.GetColumns())
      ensures |gaussCombinations| == old(|gaussCombinations|) && Rectangular(gaussCombinations, old(CombinationWidth()))
      ensures IsPermutation(colChange, old(matrix.GetColumns()))
      ensures Reaches(matrix.rows, colChange, old(matrix.rows), old(matrix.GetColumns()))
      ensures Tracks(old(matrix.rows), [], g, old(gaussCombinations), old(matrix.GetColumns())) ==>
                Tracks(matrix.rows, colChange, g, gaussCombinations, old(matrix.GetColumns()))
      ensures fullRank ==> Systematic(matrix.rows, old(matrix.GetColumns()))
      ensures !fullRank ==> exists i :: 0 <= i < |matrix.rows| && matrix.rows[i] == Zeros(old(matrix.GetColumns()))
      ensures Independent(old(matrix.rows), old(matrix.GetColumns())) ==> fullRank
    {
      colChange, fullRank := Reduce(matrix, true, true, g);
    }

    // -------------------------------------------------------------------
    // DeltaGauss

    /** DeltaGauss(oZ, vColsPerm): a 1 of Z at (lambda, mu) is drawn; every
        other row with a 1 in column mu gets row lambda added but keeps that
        1, the Gauss-combinations matrix gets the same row additions, and
        entries lambda and k + mu of the column vector are exchanged. */
    method DeltaGauss(z: CodeMatrix, colsPerm: seq<nat>) returns (newPerm: seq<nat>, ghost lambda: nat, ghost mu: nat)
      modifies this`gaussCombinations, z
      requires z.Valid() && exists a, b :: 0 <= a < |z.rows| && 0 <= b < z.GetColumns() && z.rows[a][b]
      requires |colsPerm| >= |z.rows| + z.GetColumns()
      requires |gaussCombinations| == |z.rows| && Rectangular(gaussCombinations, CombinationWidth())
      ensures z.Valid() && lambda < old(|z.rows|) && mu < old(z.GetColumns()) && old(z.rows)[lambda][mu]
      ensures z.rows == DeltaZ(old(z.rows), old(z.GetColumns()), lambda, mu)
      ensures gaussCombinations == AddPivot(old(gaussCombinations), lambda, Added(old(z.rows), old(z.GetColumns()), lambda, mu), old(CombinationWidth()))
      ensures newPerm == Swap(colsPerm, lambda, old(|z.rows|) + mu)
    {
      var l: nat, c: nat :| l < |z.rows| && c < z.GetColumns() && z.rows[l][c];
      lambda, mu := l, c;
      ghost var z0, g0 := z.rows, gaussCombinations;
      ghost var m, w := z.GetColumns(), CombinationWidth();
      DeltaPartialStart(z0, g0, m, w, l, c);
      var rows := z.GetRows();
      for i := 0 to rows
        invariant z.Valid() && z.GetColumns() == m && Rectangular(gaussCombinations, w)
        invariant DeltaPartial(z.rows, gaussCombinations, z0, g0, m, w, l, c, i)
      {
        ghost var zr, gr := z.rows, gaussCombinations;
        if z.AtBool(i, c) && i != l {
          AddPivotRow(z, i, l, c);
        }
        DeltaPartialStep(zr, gr, z0, g0, m, w, l, c, i, z.rows, gaussCombinations);
      }
      DeltaPartialEnd(z.rows, gaussCombinations, z0, g0, m, w, l, c);
      newPerm := Swap(colsPerm, l, c + rows);
    }

    /** The body of the loop of DeltaGauss for a row i other than lambda with
        a 1 in column mu: row lambda added to row i, the 1 put back, and the
        same addition in the Gauss-combinations matrix. */
    method AddPivotRow(z: CodeMatrix, i: nat, l: nat, c: nat)
      modifies this`gaussCombinations, z
      requires z.Valid() && i < |z.rows| && l < |z.rows| && c < z.GetColumns() && z.rows[i][c]
      requires |gaussCombinations| == |z.rows| && Rectangular(gaussCombinations, CombinationWidth())
      ensures z.Valid() && z.rows == old(z.rows)[i := Xor(old(z.rows)[i], old(z.rows)[l])[c := true]]
      ensures gaussCombinations == old(gaussCombinations)[i := Xor(old(gaussCombinations)[i], old(gaussCombinations)[l])]
    {
      var temp := Xor(z.Row(i), z.Row(l));
      var b := z.AtBool(i, c);
      z.SetRow(i, temp);
      z.SetBool(i, c, b);
      gaussCombinations := gaussCombinations[i := Xor(gaussCombinations[i], gaussCombinations[l])];
    }

    // -------------------------------------------------------------------
    // RandomPermuteColumns

    /** RandomPermuteColumns(oGenerator): a draw of all n columns without
        repetition, and column i of every row replaced by the drawn column
        perm[i]. The new rows, their columns put back, lie in the row space
        of the old ones. */
    method RandomPermuteColumns(gen: CodeMatrix) returns (perm: seq<nat>)
      modifies gen, rng
      requires gen.Valid() && gen.GetColumns() > 0
      ensures gen.Valid() && |gen.rows| == old(|gen.rows|) && gen.GetColumns() == old(gen.GetColumns())
      ensures IsPermutation(perm, old(gen.GetColumns()))
      ensures forall r :: 0 <= r < |gen.rows| ==> gen.rows[r] == Gather(old(gen.rows)[r], perm)
      ensures Reaches(gen.rows, perm, old(gen.rows), old(gen.GetColumns()))
    {
      var n := gen.GetColumns();
      ghost var rows0 := gen.rows;
      var temp := new CodeMatrix();
      temp.Assign(gen);
      perm := rng.GetRandomPosVector(0, n - 1, n);
      DrawIsPermutation(perm, n);
      for i := 0 to n
        modifies temp
        invariant temp.Valid() && |temp.rows| == |rows0| && temp.GetColumns() == n && Rectangular(temp.rows, n) && gen.rows == rows0
        invariant forall r, c :: 0 <= r < |rows0| && 0 <= c < n ==> temp.rows[r][c] == PermutedEntry(rows0, perm, i, r, c)
      {
        CopyColumn(temp, gen, i, perm[i]);
      }
      gen.Assign(temp);
      forall r | 0 <= r < |rows0| ensures gen.rows[r] == Gather(rows0[r], perm) {
        assert forall c :: 0 <= c < n ==> gen.rows[r][c] == Gather(rows0[r], perm)[c];
      }
      ReachesGathered(rows0, perm, gen.rows, n);
    }

    /** CodeShortening(oMatrix, vColumns): the rows eliminated on each listed
        column in turn, the pivot row of each deleted, and then, unless no
        row is left, the listed columns deleted. The eliminated rows lie in
        the row space of the input, are zero in the listed columns and still
        hold every code word that is zero there; one row is lost for each
        listed column that finds a pivot, and a column finds none exactly
        when the code words zero in the columns listed before it are all
        zero in it too. The result keeps the surviving columns. */
    method CodeShortening(matrix: CodeMatrix, cols: seq<nat>)
      returns (r: CodeMatrix, ghost reduced: seq<seq<bool>>, ghost pivoted: seq<bool>)
      requires matrix.Valid() && (|matrix.rows| == 0 || Shortenable(cols, matrix.GetColumns()))
      ensures fresh(r) && r.Valid()
      ensures Reaches(reduced, [], matrix.rows, matrix.GetColumns())
      ensures |reduced| <= |matrix.rows| <= |reduced| + |cols|
      ensures |pivoted| == |cols| && |matrix.rows| == |reduced| + Count(pivoted)
      ensures |matrix.rows| > 0 ==> Cleared(reduced, cols, matrix.GetColumns(), |cols|)
      ensures |matrix.rows| > 0 ==> Retains(matrix.rows, reduced, cols, matrix.GetColumns(), |cols|)
      ensures |matrix.rows| > 0 ==>
                forall j :: 0 <= j < |cols| ==> (pivoted[j] <==> !Forced(matrix.rows, cols, matrix.GetColumns(), j))
      ensures |reduced| == 0 ==> r.rows == []
      ensures |reduced| > 0 ==> r.rows == ShortenedRows(reduced, cols, matrix.GetColumns(), |cols|)
    {
      var n := matrix.GetColumns();
      ghost var rows0 := matrix.rows;
      ghost var live := |rows0| > 0;
      r := new CodeMatrix();
      r.Assign(matrix);
      ReachesItself(rows0, n);
      pivoted := [];
      for j := 0 to |cols|
        modifies r
        invariant r.Valid() && Rectangular(r.rows, n) && Reaches(r.rows, [], rows0, n)
        invariant |pivoted| == j && |rows0| == |r.rows| + Count(pivoted)
        invariant live ==> Cleared(r.rows, cols, n, j) && Retains(rows0, r.rows, cols, n, j)
        invariant live ==> forall i :: 0 <= i < j ==> (pivoted[i] <==> !Forced(rows0, cols, n, i))
        invariant !live ==> r.rows == []
      {
        var found := ShortenColumn(r, cols, n, j, rows0, live, pivoted);
        pivoted := pivoted + [found];
      }
      reduced := r.rows;
      if r.GetRows() > 0 {
        DeleteListed(r, cols, n);
      }
    }

    // -------------------------------------------------------------------
    // The probes of CanteautChabaud

    /** The weight vector covers a row of Z of m bits: GetHammingWeight
        (vWeights) reads one weight per 64-bit word of the row, the per-bit
        reading one weight per bit. */
    predicate WeightsCover(m: nat, perBit: bool)
      reads this
    {
      |weights| == 0 || (if perBit then |weights| >= m else 64 * |weights| >= m)
    }

    /** The weight of oTempWord the probes compare: GetHammingWeight() without
        a weight vector, GetHammingWeight(vWeights) with one, weighting each
        bit by the weight of its word, or by its own weight when perBit. */
    function Score(temp: seq<bool>, perBit: bool): (s: nat)
      reads this
      requires WeightsCover(|temp|, perBit)
      ensures |weights| == 0 ==> s == Count(temp)
    {
      if |weights| == 0 then Count(temp)
      else if perBit then WeightedCount(temp, weights)
      else BitWordWeight(temp, weights)
    }

    /** With every weight 1, both weightings give the plain Hamming weight. */
    lemma ScoreUnit(temp: seq<bool>, perBit: bool)
      requires WeightsCover(|temp|, perBit)
      requires forall i :: 0 <= i < |weights| ==> weights[i] == 1
      ensures Score(temp, perBit) == Count(temp)
    {
      if |weights| > 0 {
        if perBit {
          WeightedUnit(temp, weights);
        } else {
          BitWordWeightUnit(temp, weights);
        }
      }
    }

    /** The candidate a matching record makes with probe i (and j): the
        rows of Z it adds, which sum to zero on the sampled columns, and its
        weight hw, the score of the sum plus one per row; without weights
        that is the number of rows plus the weight of their sum. */
    method Weigh(z: CodeMatrix, rec: Record, vI1: seq<nat>, vI2: seq<nat>, i: nat, pair: bool, j: nat, perBit: bool,
                 ghost k: nat, ghost m: nat, ghost cols: seq<nat>, ghost z1: seq<seq<bool>>, ghost z2: seq<seq<bool>>)
      returns (picks: seq<nat>, hw: nat)
      requires z.Valid() && k == |z.rows| && m == z.GetColumns() && 2 * |vI1| <= k
      requires vI1 == Interval(0, |vI1|) && vI2 == Interval(|vI1|, 2 * |vI1|) && i < |vI1| && (pair ==> i < j < |vI1|)
      requires forall c :: 0 <= c < |cols| ==> cols[c] < m
      requires z1 == SubRows(z.rows, m, vI1, cols) && z2 == SubRows(z.rows, m, vI2, cols)
      requires rec.rows in {1, 2} && rec.row1 < |vI1| && (rec.rows == 2 ==> rec.row1 < rec.row2 < |vI1|)
      requires RecordSum(rec, z1, |cols|) == if pair then Xor(z2[i], z2[j]) else z2[i]
      requires WeightsCover(m, perBit)
      ensures picks == ProbePicks(rec, |vI1|, i, pair, j) && Combined(picks, |vI1|) && Vanishes(z.rows, m, picks, cols)
      ensures hw >= 2 && (|weights| == 0 ==> hw == |picks| + Count(SumRows(z.rows, picks, m)))
    {
      ProbeFound(z.rows, m, |vI1|, cols, z1, z2, rec, i, pair, j);
      var temp;
      temp, picks := Candidate(z, rec, vI1, vI2, i, pair, j, m);
      hw := Score(temp, perBit) + rec.rows + if pair then 2 else 1;
    }

    /** A candidate of weight hw from the rows picks: when it is below
        dMinWeight, BuildMinVector assembles the word and, if the check
        function passes it, the rows, the weight and the word become the
        current best and the word is written. */
    method Offer(picks: seq<nat>, hw: nat, z: CodeMatrix, colsPerm: seq<nat>, gaussPerm: seq<nat>, randPerm: seq<nat>,
                 minWeight: nat, ret: seq<bool>,
                 ghost k: nat, ghost m: nat, ghost h: nat, ghost chain: Chain, ghost found: seq<seq<bool>>, ghost scores: seq<nat>, ghost w0: seq<seq<bool>>)
      returns (minWeight': nat, ret': seq<bool>, accepted: bool, ghost found': seq<seq<bool>>, ghost scores': seq<nat>)
      modifies this`combinedRows, this`written
      requires z.Valid() && k == |z.rows| && m == z.GetColumns() && Combined(picks, h) && 2 * h <= k
      requires IsPermutation(colsPerm, k + m)
      requires Unpermutable(gaussPerm, k + m) && Unpermutable(randPerm, k + m)
      requires chain.reduced ==> Rectangular(chain.g, k + m) &&
                                 Descends(z.rows, k, m, colsPerm, gaussPerm, randPerm, chain.gRed, chain.gRand, chain.g)
      requires hw >= 2 && (|weights| == 0 ==> hw == |picks| + Count(SumRows(z.rows, picks, m)))
      requires Progress(found, scores, minWeight, ret, combinedRows, h, checkFunction, |weights| == 0, chain, k + m)
      requires written == w0 + found
      ensures var word := MinVector(picks, z.rows, k, m, colsPerm, gaussPerm, randPerm);
              (accepted <==> hw < minWeight && Passes(checkFunction, word)) &&
              (accepted ==> combinedRows == picks && minWeight' == hw && ret' == word &&
                            found' == found + [word] && scores' == scores + [hw])
      ensures !accepted ==> combinedRows == old(combinedRows) && minWeight' == minWeight && ret' == ret &&
                            found' == found && scores' == scores
      ensures Progress(found', scores', minWeight', ret', combinedRows, h, checkFunction, |weights| == 0, chain, k + m)
      ensures written == w0 + found'
    {
      minWeight', ret', accepted, found', scores' := minWeight, ret, false, found, scores;
      if hw < minWeight {
        CombinedRows(picks, h);
        var word := BuildMinVector(picks, z, colsPerm, gaussPerm, randPerm, k, m);
        var pass := true;
        if checkFunction.Some? {
          pass := checkFunction.value(word);
        }
        if pass {
          AcceptKeeps(picks, z.rows, k, m, colsPerm, gaussPerm, randPerm, word, hw,
                      found, scores, minWeight, ret, combinedRows, h, checkFunction, |weights| == 0, chain);
          Take(picks, word, w0, found);
          minWeight', ret', accepted := hw, word, true;
          found', scores' := found + [word], scores + [hw];
        }
      }
    }

    /** A word passed: its rows become m_vCombinedRows and the word is
        written out. */
    method Take(picks: seq<nat>, word: seq<bool>, ghost w0: seq<seq<bool>>, ghost found: seq<seq<bool>>)
      modifies this`combinedRows, this`written
      requires written == w0 + found
      ensures combinedRows == picks && written == w0 + (found + [word])
    {
      combinedRows := picks;
      written := written + [word];
    }

    /** One probe of the online comparison: row i of Z2, or the sum of rows
        i and j of Z2 when pair is set, looked up by its key. When the
        bucket is not empty, its head record names rows of Z1 that add up to
        the probe on the sampled columns, and the candidate they make is
        considered. The search stops when a word is taken at or below
        MINIMUM. */
    method Probe(z: CodeMatrix, z2: CodeMatrix, t: Table, i: nat, pair: bool, j: nat, vI1: seq<nat>, vI2: seq<nat>,
                 colsPerm: seq<nat>, gaussPerm: seq<nat>, randPerm: seq<nat>, minWeight: nat, ret: seq<bool>,
                 minimum: nat, perBit: bool,
                 ghost k: nat, ghost m: nat, ghost cols: seq<nat>, ghost z1: seq<seq<bool>>, ghost sigma: nat, ghost chain: Chain,
                 ghost found: seq<seq<bool>>, ghost scores: seq<nat>, ghost w0: seq<seq<bool>>)
      returns (minWeight': nat, ret': seq<bool>, stop: bool, ghost found': seq<seq<bool>>, ghost scores': seq<nat>)
      modifies this`combinedRows, this`written
      requires z.Valid() && z2.Valid() && k == |z.rows| && m == z.GetColumns() && 2 * |vI1| <= k
      requires vI1 == Interval(0, |vI1|) && vI2 == Interval(|vI1|, 2 * |vI1|) && i < |vI1| && (pair ==> i < j < |vI1|)
      requires 0 < |cols| <= sigma <= 64 && forall c :: 0 <= c < |cols| ==> cols[c] < m
      requires z1 == SubRows(z.rows, m, vI1, cols) && z2.rows == SubRows(z.rows, m, vI2, cols)
      requires Consistent(t, z1, |cols|, sigma)
      requires IsPermutation(colsPerm, k + m)
      requires Unpermutable(gaussPerm, k + m) && Unpermutable(randPerm, k + m)
      requires chain.reduced ==> Rectangular(chain.g, k + m) &&
                                 Descends(z.rows, k, m, colsPerm, gaussPerm, randPerm, chain.gRed, chain.gRand, chain.g)
      requires WeightsCover(m, perBit)
      requires Progress(found, scores, minWeight, ret, combinedRows, |vI1|, checkFunction, |weights| == 0, chain, k + m)
      requires written == w0 + found
      ensures Progress(found', scores', minWeight', ret', combinedRows, |vI1|, checkFunction, |weights| == 0, chain, k + m)
      ensures written == w0 + found'
      ensures found' == found || found' == found + [ret']
      ensures Extends(found, found', old(combinedRows), combinedRows, z.rows, m, cols)
      ensures stop ==> |found'| > |found| && minWeight' <= minimum
    {
      minWeight', ret', stop, found', scores' := minWeight, ret, false, found, scores;
      var hit, rec := Lookup(z2, t, i, pair, j, z1, sigma);
      if hit {
        minWeight', ret', stop, found', scores' :=
          Matched(z, rec, i, pair, j, vI1, vI2, colsPerm, gaussPerm, randPerm, minWeight, ret, minimum, perBit,
                  k, m, cols, z1, z2.rows, chain, found, scores, w0);
      }
    }

    /** A probe whose bucket is not empty: oTempWord, the sum of the rows
        of Z the head record and the probe name, is weighed with the number
        of rows added and offered. */
    method Matched(z: CodeMatrix, rec: Record, i: nat, pair: bool, j: nat, vI1: seq<nat>, vI2: seq<nat>,
                   colsPerm: seq<nat>, gaussPerm: seq<nat>, randPerm: seq<nat>, minWeight: nat, ret: seq<bool>,
                   minimum: nat, perBit: bool,
                   ghost k: nat, ghost m: nat, ghost cols: seq<nat>, ghost z1: seq<seq<bool>>, ghost z2: seq<seq<bool>>,
                   ghost chain: Chain, ghost found: seq<seq<bool>>, ghost scores: seq<nat>, ghost w0: seq<seq<bool>>)
      returns (minWeight': nat, ret': seq<bool>, stop: bool, ghost found': seq<seq<bool>>, ghost scores': seq<nat>)
      modifies this`combinedRows, this`written
      requires z.Valid() && k == |z.rows| && m == z.GetColumns() && 2 * |vI1| <= k
      requires vI1 == Interval(0, |vI1|) && vI2 == Interval(|vI1|, 2 * |vI1|) && i < |vI1| && (pair ==> i < j < |vI1|)
      requires forall c :: 0 <= c < |cols| ==> cols[c] < m
      requires z1 == SubRows(z.rows, m, vI1, cols) && z2 == SubRows(z.rows, m, vI2, cols)
      requires rec.rows in {1, 2} && rec.row1 < |vI1| && (rec.rows == 2 ==> rec.row1 < rec.row2 < |vI1|)
      requires RecordSum(rec, z1, |cols|) == if pair then Xor(z2[i], z2[j]) else z2[i]
      requires IsPermutation(colsPerm, k + m)
      requires Unpermutable(gaussPerm, k + m) && Unpermutable(randPerm, k + m)
      requires chain.reduced ==> Rectangular(chain.g, k + m) &&
                                 Descends(z.rows, k, m, colsPerm, gaussPerm, randPerm, chain.gRed, chain.gRand, chain.g)
      requires WeightsCover(m, perBit)
      requires Progress(found, scores, minWeight, ret, combinedRows, |vI1|, checkFunction, |weights| == 0, chain, k + m)
      requires written == w0 + found
      ensures Progress(found', scores', minWeight', ret', combinedRows, |vI1|, checkFunction, |weights| == 0, chain, k + m)
      ensures written == w0 + found'
      ensures found' == found || found' == found + [ret']
      ensures Extends(found, found', old(combinedRows), combinedRows, z.rows, m, cols)
      ensures stop ==> |found'| > |found| && minWeight' <= minimum
    {
      ghost var h, combined0 := |vI1|, combinedRows;
      var picks, hw := Weigh(z, rec, vI1, vI2, i, pair, j, perBit, k, m, cols, z1, z2);
      var accepted;
      minWeight', ret', accepted, found', scores' :=
        Offer(picks, hw, z, colsPerm, gaussPerm, randPerm, minWeight, ret, k, m, h, chain, found, scores, w0);
      ExtendsOffer(found, found', combined0, combinedRows, z.rows, m, cols, picks, ret', accepted);
      stop := accepted && minWeight' <= minimum;
    }

    /** The inner loop of the online comparison for row i of Z2: the sums
        of row i with each later row j of Z2, probed in turn, until a word
        at or below MINIMUM is taken. */
    method ProbePairs(z: CodeMatrix, z2: CodeMatrix, t: Table, i: nat, vI1: seq<nat>, vI2: seq<nat>,
                      colsPerm: seq<nat>, gaussPerm: seq<nat>, randPerm: seq<nat>, minWeight: nat, ret: seq<bool>,
                      minimum: nat, perBit: bool,
                      ghost k: nat, ghost m: nat, ghost cols: seq<nat>, ghost z1: seq<seq<bool>>, ghost sigma: nat, ghost chain: Chain,
                      ghost found: seq<seq<bool>>, ghost scores: seq<nat>, ghost w0: seq<seq<bool>>)
      returns (minWeight': nat, ret': seq<bool>, stop: bool, ghost found': seq<seq<bool>>, ghost scores': seq<nat>)
      modifies this`combinedRows, this`written
      requires z.Valid() && z2.Valid() && k == |z.rows| && m == z.GetColumns() && 2 * |vI1| <= k
      requires vI1 == Interval(0, |vI1|) && vI2 == Interval(|vI1|, 2 * |vI1|) && i < |vI1|
      requires 0 < |cols| <= sigma <= 64 && forall c :: 0 <= c < |cols| ==> cols[c] < m
      requires z1 == SubRows(z.rows, m, vI1, cols) && z2.rows == SubRows(z.rows, m, vI2, cols)
      requires Consistent(t, z1, |cols|, sigma)
      requires IsPermutation(colsPerm, k + m)
      requires Unpermutable(gaussPerm, k + m) && Unpermutable(randPerm, k + m)
      requires chain.reduced ==> Rectangular(chain.g, k + m) &&
                                 Descends(z.rows, k, m, colsPerm, gaussPerm, randPerm, chain.gRed, chain.gRand, chain.g)
      requires WeightsCover(m, perBit)
      requires Progress(found, scores, minWeight, ret, combinedRows, |vI1|, checkFunction, |weights| == 0, chain, k + m)
      requires written == w0 + found
      ensures Progress(found', scores', minWeight', ret', combinedRows, |vI1|, checkFunction, |weights| == 0, chain, k + m)
      ensures written == w0 + found'
      ensures Extends(found, found', old(combinedRows), combinedRows, z.rows, m, cols)
      ensures stop ==> |found'| > |found| && minWeight' <= minimum
    {
      minWeight', ret', stop, found', scores' := minWeight, ret, false, found, scores;
      var j := i + 1;
      while j < |vI2|
        invariant i < j <= |vI1|
        invariant Progress(found', scores', minWeight', ret', combinedRows, |vI1|, checkFunction, |weights| == 0, chain, k + m)
        invariant written == w0 + found'
        invariant Extends(found, found', old(combinedRows), combinedRows, z.rows, m, cols)
      {
        ghost var found1, combined1 := found', combinedRows;
        minWeight', ret', stop, found', scores' :=
          Probe(z, z2, t, i, true, j, vI1, vI2, colsPerm, gaussPerm, randPerm, minWeight', ret', minimum, perBit,
                k, m, cols, z1, sigma, chain, found', scores', w0);
        ExtendsTrans(found, found1, found', old(combinedRows), combined1, combinedRows, z.rows, m, cols);
        if stop {
          return;
        }
        j := j + 1;
      }
    }

    /** The online comparison of Z2 against the table: for each row i of Z2
        but the last, the row alone and then its sums with the later rows,
        until a word at or below MINIMUM is taken. */
    method ProbeAll(z: CodeMatrix, z2: CodeMatrix, t: Table, vI1: seq<nat>, vI2: seq<nat>,
                    colsPerm: seq<nat>, gaussPerm: seq<nat>, randPerm: seq<nat>, minWeight: nat, ret: seq<bool>,
                    minimum: nat, perBit: bool,
                    ghost k: nat, ghost m: nat, ghost cols: seq<nat>, ghost z1: seq<seq<bool>>, ghost sigma: nat, ghost chain: Chain,
                    ghost found: seq<seq<bool>>, ghost scores: seq<nat>, ghost w0: seq<seq<bool>>)
      returns (minWeight': nat, ret': seq<bool>, stop: bool, ghost found': seq<seq<bool>>, ghost scores': seq<nat>)
      modifies this`combinedRows, this`written
      requires z.Valid() && z2.Valid() && k == |z.rows| && m == z.GetColumns() && 2 * |vI1| <= k
      requires vI1 == Interval(0, |vI1|) && vI2 == Interval(|vI1|, 2 * |vI1|)
      requires 0 < |cols| <= sigma <= 64 && forall c :: 0 <= c < |cols| ==> cols[c] < m
      requires z1 == SubRows(z.rows, m, vI1, cols) && z2.rows == SubRows(z.rows, m, vI2, cols)
      requires Consistent(t, z1, |cols|, sigma)
      requires IsPermutation(colsPerm, k + m)
      requires Unpermutable(gaussPerm, k + m) && Unpermutable(randPerm, k + m)
      requires chain.reduced ==> Rectangular(chain.g, k + m) &&
                                 Descends(z.rows, k, m, colsPerm, gaussPerm, randPerm, chain.gRed, chain.gRand, chain.g)
      requires WeightsCover(m, perBit)
      requires Progress(found, scores, minWeight, ret, combinedRows, |vI1|, checkFunction, |weights| == 0, chain, k + m)
      requires written == w0 + found
      ensures Progress(found', scores', minWeight', ret', combinedRows, |vI1|, checkFunction, |weights| == 0, chain, k + m)
      ensures written == w0 + found'
      ensures Extends(found, found', old(combinedRows), combinedRows, z.rows, m, cols)
      ensures stop ==> |found'| > |found| && minWeight' <= minimum
    {
      minWeight', ret', stop, found', scores' := minWeight, ret, false, found, scores;
      var i := 0;
      while i + 1 < z2.GetRows()
        invariant i <= |vI1|
        invariant Progress(found', scores', minWeight', ret', combinedRows, |vI1|, checkFunction, |weights| == 0, chain, k + m)
        invariant written == w0 + found'
        invariant Extends(found, found', old(combinedRows), combinedRows, z.rows, m, cols)
      {
        ghost var found1, combined1 := found', combinedRows;
        minWeight', ret', stop, found', scores' :=
          Probe(z, z2, t, i, false, 0, vI1, vI2, colsPerm, gaussPerm, randPerm, minWeight', ret', minimum, perBit,
                k, m, cols, z1, sigma, chain, found', scores', w0);
        ExtendsTrans(found, found1, found', old(combinedRows), combined1, combinedRows, z.rows, m, cols);
        if stop {
          return;
        }
        ghost var found2, combined2 := found', combinedRows;
        minWeight', ret', stop, found', scores' :=
          ProbePairs(z, z2, t, i, vI1, vI2, colsPerm, gaussPerm, randPerm, minWeight', ret', minimum, perBit,
                     k, m, cols, z1, sigma, chain, found', scores', w0);
        ExtendsTrans(found, found2, found', old(combinedRows), combined2, combinedRows, z.rows, m, cols);
        if stop {
          return;
        }
        i := i + 1;
      }
    }

    /** The first part of a round of CanteautChabaud: sigma columns of Z
        drawn, Z1 and Z2 cut from the two halves of its rows on them, the
        table filled from Z1 and probed with Z2 (both loops are empty with a
        single row per half). */
    method Sample(z: CodeMatrix, colsPerm: seq<nat>, gaussPerm: seq<nat>, randPerm: seq<nat>, vI1: seq<nat>, vI2: seq<nat>,
                  sigma: nat, minWeight: nat, ret: seq<bool>, minimum: nat, perBit: bool,
                  ghost k: nat, ghost m: nat, ghost chain: Chain, ghost found: seq<seq<bool>>, ghost scores: seq<nat>, ghost w0: seq<seq<bool>>)
      returns (minWeight': nat, ret': seq<bool>, stop: bool, ghost found': seq<seq<bool>>, ghost scores': seq<nat>)
      modifies this`combinedRows, this`written, rng
      requires z.Valid() && k == |z.rows| && m == z.GetColumns() && 0 < m && 2 <= k
      requires vI1 == Interval(0, k / 2) && vI2 == Interval(k / 2, 2 * (k / 2))
      requires sigma <= 30 && (4 <= k ==> 0 < sigma)
      requires IsPermutation(colsPerm, k + m) && Unpermutable(gaussPerm, k + m) && Unpermutable(randPerm, k + m)
      requires chain.reduced ==> Rectangular(chain.g, k + m) &&
                                 Descends(z.rows, k, m, colsPerm, gaussPerm, randPerm, chain.gRed, chain.gRand, chain.g)
      requires WeightsCover(m, perBit)
      requires Progress(found, scores, minWeight, ret, combinedRows, k / 2, checkFunction, |weights| == 0, chain, k + m)
      requires written == w0 + found
      ensures Progress(found', scores', minWeight', ret', combinedRows, k / 2, checkFunction, |weights| == 0, chain, k + m)
      ensures written == w0 + found'
      ensures |found| <= |found'| && found'[..|found|] == found
      ensures stop ==> |found'| > |found| && minWeight' <= minimum
    {
      var cols := rng.GetRandomPosVector(0, z.GetColumns() - 1, sigma);
      assert forall c :: 0 <= c < |cols| ==> cols[c] < m by {
        forall c | 0 <= c < |cols| ensures cols[c] < m {
          assert cols[c] in cols;
        }
      }
      var z1 := z.GetSubMatrix(vI1, cols);
      var z2 := z.GetSubMatrix(vI2, cols);
      minWeight', ret', stop, found', scores' := minWeight, ret, false, found, scores;
      if 2 <= |vI1| {
        var t := FillTable(z1, sigma);
        minWeight', ret', stop, found', scores' :=
          ProbeAll(z, z2, t, vI1, vI2, colsPerm, gaussPerm, randPerm, minWeight, ret, minimum, perBit,
                   k, m, cols, z1.rows, sigma, chain, found, scores, w0);
      }
    }

    /** DeltaGauss on a Z with a 1, at the end of a round: Z afterwards has
        a 1 again and, with the exchange recorded in the column vector,
        still lies on the chain of generators. */
    method Pivot(z: CodeMatrix, colsPerm: seq<nat>, ghost gaussPerm: seq<nat>, ghost randPerm: seq<nat>,
                 ghost k: nat, ghost m: nat, ghost chain: Chain)
      returns (colsPerm': seq<nat>)
      modifies this`gaussCombinations, z
      requires z.Valid() && k == |z.rows| && m == z.GetColumns() && HasOne(z.rows)
      requires IsPermutation(colsPerm, k + m)
      requires chain.reduced ==> Descends(z.rows, k, m, colsPerm, gaussPerm, randPerm, chain.gRed, chain.gRand, chain.g)
      requires |gaussCombinations| == k && Rectangular(gaussCombinations, CombinationWidth())
      ensures z.Valid() && |z.rows| == k && z.GetColumns() == m && HasOne(z.rows)
      ensures |gaussCombinations| == k && Rectangular(gaussCombinations, old(CombinationWidth()))
      ensures IsPermutation(colsPerm', k + m)
      ensures chain.reduced ==> Descends(z.rows, k, m, colsPerm', gaussPerm, randPerm, chain.gRed, chain.gRand, chain.g)
    {
      ghost var z0 := z.rows;
      ghost var lambda, mu;
      colsPerm', lambda, mu := DeltaGauss(z, colsPerm);
      ghost var z1 := DeltaZ(z0, m, lambda, mu);
      assert z.rows == z1 && colsPerm' == Swap(colsPerm, lambda, k + mu);
      DeltaKeepsRound(z0, k, m, lambda, mu, colsPerm, gaussPerm, randPerm, chain);
    }

    /** One round of the main loop of CanteautChabaud: Sample, then
        DeltaGauss. The search stops when a word at or below MINIMUM is
        taken; hang is set where DeltaGauss would draw forever, on a Z
        without a 1. */
    method Round(z: CodeMatrix, colsPerm: seq<nat>, gaussPerm: seq<nat>, randPerm: seq<nat>, vI1: seq<nat>, vI2: seq<nat>,
                 sigma: nat, minWeight: nat, ret: seq<bool>, minimum: nat, perBit: bool,
                 ghost k: nat, ghost m: nat, ghost chain: Chain, ghost found: seq<seq<bool>>, ghost scores: seq<nat>, ghost w0: seq<seq<bool>>)
      returns (colsPerm': seq<nat>, minWeight': nat, ret': seq<bool>, stop: bool, hang: bool,
               ghost found': seq<seq<bool>>, ghost scores': seq<nat>)
      modifies this`combinedRows, this`written, this`gaussCombinations, z, rng
      requires z.Valid() && k == |z.rows| && m == z.GetColumns() && 0 < m && 2 <= k
      requires vI1 == Interval(0, k / 2) && vI2 == Interval(k / 2, 2 * (k / 2))
      requires sigma <= 30 && (4 <= k ==> 0 < sigma)
      requires IsPermutation(colsPerm, k + m) && Unpermutable(gaussPerm, k + m) && Unpermutable(randPerm, k + m)
      requires chain.reduced ==> Rectangular(chain.g, k + m) &&
                                 Descends(z.rows, k, m, colsPerm, gaussPerm, randPerm, chain.gRed, chain.gRand, chain.g)
      requires |gaussCombinations| == k && Rectangular(gaussCombinations, CombinationWidth())
      requires WeightsCover(m, perBit)
      requires Progress(found, scores, minWeight, ret, combinedRows, k / 2, checkFunction, |weights| == 0, chain, k + m)
      requires written == w0 + found
      ensures z.Valid() && |z.rows| == k && z.GetColumns() == m
      ensures |gaussCombinations| == k && Rectangular(gaussCombinations, old(CombinationWidth()))
      ensures IsPermutation(colsPerm', k + m)
      ensures chain.reduced ==> Descends(z.rows, k, m, colsPerm', gaussPerm, randPerm, chain.gRed, chain.gRand, chain.g)
      ensures Progress(found', scores', minWeight', ret', combinedRows, k / 2, checkFunction, |weights| == 0, chain, k + m)
      ensures written == w0 + found'
      ensures |found| <= |found'| && found'[..|found|] == found
      ensures stop ==> !hang && |found'| > |found| && minWeight' <= minimum
      ensures hang ==> !HasOne(old(z.rows)) && z.rows == old(z.rows)
      ensures !stop && !hang ==> HasOne(z.rows)
    {
      colsPerm', hang := colsPerm, false;
      minWeight', ret', stop, found', scores' :=
        Sample(z, colsPerm, gaussPerm, randPerm, vI1, vI2, sigma, minWeight, ret, minimum, perBit, k, m, chain, found, scores, w0);
      if stop {
        return;
      }
      if !HasOne(z.rows) {
        hang := true;
        return;
      }
      colsPerm' := Pivot(z, colsPerm, gaussPerm, randPerm, k, m, chain);
    }

    /** The main loop of CanteautChabaud: rounds until ITER of them have
        run, a word at or below MINIMUM is taken, or DeltaGauss would draw
        forever, which can only happen in the first round. */
    method Iterate(z: CodeMatrix, colsPerm: seq<nat>, gaussPerm: seq<nat>, randPerm: seq<nat>, vI1: seq<nat>, vI2: seq<nat>,
                   sigma: nat, iter: nat, minimum: nat, perBit: bool,
                   ghost k: nat, ghost m: nat, ghost chain: Chain, ghost w0: seq<seq<bool>>)
      returns (minWeight: nat, ret: seq<bool>, stop: bool, hang: bool,
               rounds: nat, ghost found: seq<seq<bool>>, ghost scores: seq<nat>)
      modifies this`combinedRows, this`written, this`gaussCombinations, z, rng
      requires z.Valid() && k == |z.rows| && m == z.GetColumns() && 0 < m && 2 <= k
      requires vI1 == Interval(0, k / 2) && vI2 == Interval(k / 2, 2 * (k / 2))
      requires sigma <= 30 && (4 <= k ==> 0 < sigma)
      requires IsPermutation(colsPerm, k + m) && Unpermutable(gaussPerm, k + m) && Unpermutable(randPerm, k + m)
      requires chain.reduced ==> Rectangular(chain.g, k + m) &&
                                 Descends(z.rows, k, m, colsPerm, gaussPerm, randPerm, chain.gRed, chain.gRand, chain.g)
      requires |gaussCombinations| == k && Rectangular(gaussCombinations, CombinationWidth())
      requires WeightsCover(m, perBit)
      requires written == w0
      ensures z.Valid() && |z.rows| == k && z.GetColumns() == m
      ensures |gaussCombinations| == k && Rectangular(gaussCombinations, old(CombinationWidth()))
      ensures Progress(found, scores, minWeight, ret, combinedRows, k / 2, checkFunction, |weights| == 0, chain, k + m)
      ensures written == w0 + found
      ensures rounds <= iter
      ensures stop ==> !hang && |found| > 0 && minWeight <= minimum
      ensures hang ==> rounds == 0 && !HasOne(old(z.rows))
      ensures !stop && !hang ==> rounds == iter
    {
      ghost var z0 := z.rows;
      ghost var w := CombinationWidth();
      var perm := colsPerm;
      minWeight, ret, stop, hang, rounds, found, scores := Unset, [], false, false, 0, [], [];
      ProgressStart(combinedRows, k / 2, checkFunction, |weights| == 0, chain, k + m);
      while rounds < iter
        invariant rounds <= iter && !stop && !hang
        invariant z.Valid() && |z.rows| == k && z.GetColumns() == m
        invariant |gaussCombinations| == k && Rectangular(gaussCombinations, w) && w == CombinationWidth()
        invariant IsPermutation(perm, k + m)
        invariant chain.reduced ==> Descends(z.rows, k, m, perm, gaussPerm, randPerm, chain.gRed, chain.gRand, chain.g)
        invariant Progress(found, scores, minWeight, ret, combinedRows, k / 2, checkFunction, |weights| == 0, chain, k + m)
        invariant written == w0 + found
        invariant rounds == 0 ==> z.rows == z0
        invariant 0 < rounds ==> HasOne(z.rows)
      {
        perm, minWeight, ret, stop, hang, found, scores :=
          Round(z, perm, gaussPerm, randPerm, vI1, vI2, sigma, minWeight, ret, minimum, perBit, k, m, chain, found, scores, w0);
        if stop || hang {
          return;
        }
        rounds := rounds + 1;
      }
    }

    /** The last loop of CanteautChabaud: every row lighter than the
        lightest so far, starting from the weight bound, is taken and
        written. */
    method Fallback(rows: seq<seq<bool>>, bound: nat) returns (weight: nat, word: seq<bool>)
      modifies this`written
      ensures var s := Lightest(rows, |rows|, bound);
              weight == s.weight && word == s.word && written == old(written) + s.log
    {
      ghost var w0 := written;
      weight, word := bound, [];
      for i := 0 to |rows|
        invariant weight == Lightest(rows, i, bound).weight && word == Lightest(rows, i, bound).word
        invariant written == w0 + Lightest(rows, i, bound).log
      {
        if Count(rows[i]) < weight {
          weight := Count(rows[i]);
          word := rows[i];
          written := written + [word];
        }
      }
    }

    /** The first step of the preparation: the columns randomly permuted
        when PERMUTE is set. The rows, their columns put back, lie in the
        row space of the old ones, and independent rows stay independent. */
    method ShuffleColumns(gen: CodeMatrix, permute: bool) returns (randPerm: seq<nat>)
      modifies gen, rng
      requires gen.Valid() && 0 < gen.GetColumns()
      ensures gen.Valid() && |gen.rows| == old(|gen.rows|) && gen.GetColumns() == old(gen.GetColumns())
      ensures Unpermutable(randPerm, gen.GetColumns())
      ensures Reaches(gen.rows, randPerm, old(gen.rows), gen.GetColumns())
      ensures !permute ==> gen.rows == old(gen.rows)
      ensures Independent(old(gen.rows), gen.GetColumns()) ==> Independent(gen.rows, gen.GetColumns())
    {
      var n := gen.GetColumns();
      ghost var g := gen.rows;
      randPerm := [];
      if permute {
        randPerm := RandomPermuteColumns(gen);
        if Independent(g, n) {
          IndependentGathered(g, gen.rows, randPerm, n);
        }
      } else {
        ReachesItself(g, n);
      }
    }

    /** The second step of the preparation: GaussMod2, as written or
        corrected, unless the generator is systematic already. A systematic
        generator stays as it is, and one with independent rows ends
        systematic when corrected or on rows of whole words. */
    method Systematize(gen: CodeMatrix, corrected: bool) returns (gaussPerm: seq<nat>)
      modifies gen, this`gaussCombinations
      requires gen.Valid() && (corrected || |gen.rows| <= Width(gen.GetColumns()))
      requires |gaussCombinations| == |gen.rows| && Rectangular(gaussCombinations, CombinationWidth())
      ensures gen.Valid() && |gen.rows| == old(|gen.rows|) && gen.GetColumns() == old(gen.GetColumns())
      ensures |gaussCombinations| == old(|gaussCombinations|) && Rectangular(gaussCombinations, old(CombinationWidth()))
      ensures Unpermutable(gaussPerm, gen.GetColumns())
      ensures Reaches(gen.rows, gaussPerm, old(gen.rows), gen.GetColumns())
      ensures Systematic(old(gen.rows), gen.GetColumns()) ==> gen.rows == old(gen.rows)
      ensures (corrected || gen.GetColumns() % 64 == 0) && Independent(old(gen.rows), gen.GetColumns()) ==>
                Systematic(gen.rows, gen.GetColumns())
    {
      ghost var g, n := gen.rows, gen.GetColumns();
      gaussPerm := [];
      var systematic := gen.IsSystematic();
      if !systematic {
        var fullRank;
        if corrected {
          gaussPerm, fullRank := GaussMod2Corrected(gen, g);
        } else {
          gaussPerm, fullRank := GaussMod2(gen);
        }
      } else {
        ReachesItself(g, n);
      }
    }

    /** The preparation of CanteautChabaud on a generator with rows and
        columns: the columns randomly permuted when PERMUTE is set, GaussMod2
        unless the generator is systematic already, and Z extracted from the
        first k rows and the columns from k on. The chain of generators
        records each step; it ends systematic when the input is systematic
        and not permuted, or when its rows are independent and GaussMod2 is
        corrected or reads rows of whole words. */
    method Prepare(gen: CodeMatrix, permute: bool, corrected: bool)
      returns (z: CodeMatrix, gaussPerm: seq<nat>, randPerm: seq<nat>, ghost chain: Chain)
      modifies gen, rng, this`gaussCombinations
      requires gen.Valid() && 0 < |gen.rows| && 0 < gen.GetColumns()
      requires corrected || |gen.rows| <= Width(gen.GetColumns())
      requires |gaussCombinations| == |gen.rows| && Rectangular(gaussCombinations, CombinationWidth())
      ensures fresh(z) && z.Valid()
      ensures gen.Valid() && |gen.rows| == old(|gen.rows|) && gen.GetColumns() == old(gen.GetColumns())
      ensures |gaussCombinations| == old(|gaussCombinations|) && Rectangular(gaussCombinations, old(CombinationWidth()))
      ensures chain.g == old(gen.rows) && chain.gRed == gen.rows && chain.randPerm == randPerm && chain.gaussPerm == gaussPerm
      ensures Unpermutable(randPerm, gen.GetColumns()) && Unpermutable(gaussPerm, gen.GetColumns())
      ensures Reaches(chain.gRed, gaussPerm, chain.gRand, gen.GetColumns()) && Reaches(chain.gRand, randPerm, chain.g, gen.GetColumns())
      ensures chain.reduced <==> Systematic(chain.gRed, gen.GetColumns())
      ensures !permute && Systematic(chain.g, gen.GetColumns()) ==> chain.reduced
      ensures (corrected || gen.GetColumns() % 64 == 0) && Independent(chain.g, gen.GetColumns()) ==> chain.reduced
      ensures z.rows == ZPart(chain.gRed, |gen.rows|, gen.GetColumns())
    {
      var k, n := gen.GetRows(), gen.GetColumns();
      ghost var g := gen.rows;
      randPerm := ShuffleColumns(gen, permute);
      ghost var gRand := gen.rows;
      gaussPerm := Systematize(gen, corrected);
      var rowsZ := Range(0, k);
      var colsZ := Range(k, n);
      z := gen.GetSubMatrix(rowsZ, colsZ);
      chain := Chain(g, randPerm, gRand, gaussPerm, gen.rows, Systematic(gen.rows, n));
    }

    /** The end of CanteautChabaud: the last word accepted, or, when there
        is none, the fallback over the rows of the reduced generator, as
        written, or restored to the columns of the input when corrected, in
        which case what it returns is a code word of the input. */
    method Finish(gen: CodeMatrix, ret: seq<bool>, minWeight: nat, gaussPerm: seq<nat>, randPerm: seq<nat>, corrected: bool,
                  ghost k: nat, ghost n: nat, ghost chain: Chain)
      returns (word: seq<bool>)
      modifies this`written
      requires gen.Valid() && k == |gen.rows| && n == gen.GetColumns()
      requires Prepared(chain, k, n) && chain.gRed == gen.rows && chain.gaussPerm == gaussPerm && chain.randPerm == randPerm
      requires |ret| == 0 ==> minWeight == Unset
      ensures |ret| > 0 ==> word == ret && written == old(written)
      ensures |ret| == 0 ==>
                var s := Lightest(if corrected then RestoredRows(chain.gRed, n, gaussPerm, randPerm) else chain.gRed, k, Unset);
                word == s.word && written == old(written) + s.log
      ensures |ret| == 0 && corrected && word != [] ==> InSpan(word, chain.g, n)
    {
      word := ret;
      if |ret| == 0 {
        var rows := gen.rows;
        if corrected {
          rows := RestoreRows(gen, gaussPerm, randPerm);
          FallbackInSpan(chain, n, k);
        }
        var weight;
        weight, word := Fallback(rows, minWeight);
      }
    }

    /** The main loop of CanteautChabaud behind its guard: nothing happens
        when ITER is zero, and the outcome is undefined when the bounds of
        its loops wrap around (fewer than two rows, no Z columns) or, with
        SIGMA zero, the sample is empty for four rows or more. Otherwise it
        starts from Z of the reduced generator and the columns 0..n-1. */
    method Loop(z: CodeMatrix, colsPerm: seq<nat>, gaussPerm: seq<nat>, randPerm: seq<nat>,
                sigma: nat, iter: nat, minimum: nat, corrected: bool, k: nat, n: nat, ghost chain: Chain)
      returns (undefined: bool, hang: bool, minWeight: nat, ret: seq<bool>, rounds: nat,
               ghost found: seq<seq<bool>>, ghost scores: seq<nat>)
      modifies this`combinedRows, this`written, this`gaussCombinations, z, rng
      requires Prepared(chain, k, n) && 0 < k && 0 < n && sigma <= 30
      requires z.Valid() && z.rows == ZPart(chain.gRed, k, n) && colsPerm == Interval(0, n)
      requires chain.gaussPerm == gaussPerm && chain.randPerm == randPerm
      requires |gaussCombinations| == k && Rectangular(gaussCombinations, CombinationWidth())
      requires WeightsCover(if k < n then n - k else 0, corrected)
      ensures undefined <==> 0 < iter && (k < 2 || n <= k || (sigma == 0 && 4 <= k))
      ensures !undefined ==>
                |gaussCombinations| == k &&
                Progress(found, scores, minWeight, ret, combinedRows, k / 2, checkFunction, |weights| == 0, chain, n) &&
                written == old(written) + found
      ensures !undefined && !hang ==> rounds <= iter && (rounds == iter || (0 < |found| && minWeight <= minimum))
      ensures hang ==> !undefined && 0 < iter && rounds == 0 && !HasOne(ZPart(chain.gRed, k, n))
    {
      undefined, hang, minWeight, ret, rounds, found, scores := false, false, Unset, [], 0, [], [];
      ProgressStart(combinedRows, k / 2, checkFunction, |weights| == 0, chain, n);
      if iter == 0 {
        return;
      }
      if k < 2 || n <= k || (sigma == 0 && 4 <= k) {
        undefined := true;
        return;
      }
      hang, minWeight, ret, rounds, found, scores :=
        Rounds(z, colsPerm, gaussPerm, randPerm, sigma, iter, minimum, corrected, k, n, chain);
    }

    /** The main loop once its guard has passed: the two halves of the
        rows, then the rounds from Z of the reduced generator and the
        columns 0..n-1. */
    method Rounds(z: CodeMatrix, colsPerm: seq<nat>, gaussPerm: seq<nat>, randPerm: seq<nat>,
                  sigma: nat, iter: nat, minimum: nat, corrected: bool, k: nat, n: nat, ghost chain: Chain)
      returns (hang: bool, minWeight: nat, ret: seq<bool>, rounds: nat,
               ghost found: seq<seq<bool>>, ghost scores: seq<nat>)
      modifies this`combinedRows, this`written, this`gaussCombinations, z, rng
      requires Prepared(chain, k, n) && 2 <= k < n && sigma <= 30 && (4 <= k ==> 0 < sigma)
      requires z.Valid() && z.rows == ZPart(chain.gRed, k, n) && colsPerm == Interval(0, n)
      requires chain.gaussPerm == gaussPerm && chain.randPerm == randPerm
      requires |gaussCombinations| == k && Rectangular(gaussCombinations, CombinationWidth())
      requires WeightsCover(n - k, corrected)
      ensures |gaussCombinations| == k &&
              Progress(found, scores, minWeight, ret, combinedRows, k / 2, checkFunction, |weights| == 0, chain, n) &&
              written == old(written) + found
      ensures !hang ==> rounds <= iter && (rounds == iter || (0 < |found| && minWeight <= minimum))
      ensures hang ==> rounds == 0 && !HasOne(ZPart(chain.gRed, k, n))
    {
      var vI1, vI2 := Halves(k);
      LoopReady(chain, k, n);
      var stop;
      minWeight, ret, stop, hang, rounds, found, scores :=
        Iterate(z, colsPerm, gaussPerm, randPerm, vI1, vI2, sigma, iter, minimum, corrected, k, n - k, chain, written);
    }

    /** CanteautChabaud once the generator is prepared: the main loop, then
        Finish unless DeltaGauss hangs. */
    method Run(gen: CodeMatrix, z: CodeMatrix, colsPerm: seq<nat>, gaussPerm: seq<nat>, randPerm: seq<nat>,
               sigma: nat, iter: nat, minimum: nat, corrected: bool, ghost chain: Chain)
      returns (out: Outcome, rounds: nat, minWeight: nat, ghost found: seq<seq<bool>>, ghost scores: seq<nat>)
      modifies this`combinedRows, this`written, this`gaussCombinations, z, rng
      requires gen.Valid() && Prepared(chain, |gen.rows|, gen.GetColumns()) && chain.gRed == gen.rows
      requires 0 < |gen.rows| && 0 < gen.GetColumns() && sigma <= 30
      requires z.Valid() && z != gen && z.rows == ZPart(chain.gRed, |gen.rows|, gen.GetColumns())
      requires colsPerm == Interval(0, gen.GetColumns())
      requires chain.gaussPerm == gaussPerm && chain.randPerm == randPerm
      requires |gaussCombinations| == |gen.rows| && Rectangular(gaussCombinations, CombinationWidth())
      requires WeightsCover(if |gen.rows| < gen.GetColumns() then gen.GetColumns() - |gen.rows| else 0, corrected)
      ensures var k, n := |gen.rows|, gen.GetColumns();
              out.Undefined? <==> 0 < iter && (k < 2 || n <= k || (sigma == 0 && 4 <= k))
      ensures Concluded(out, rounds, minWeight, found, scores, old(written), written, gaussCombinations, combinedRows,
                        checkFunction, |weights| == 0, iter, minimum, corrected, chain, |gen.rows|, gen.GetColumns())
    {
      var k, n := gen.GetRows(), gen.GetColumns();
      ghost var written0 := written;
      var undefined, hang, ret;
      undefined, hang, minWeight, ret, rounds, found, scores :=
        Loop(z, colsPerm, gaussPerm, randPerm, sigma, iter, minimum, corrected, k, n, chain);
      if undefined {
        return Undefined, rounds, minWeight, found, scores;
      }
      if hang {
        ConcludeHangs(ret, rounds, minWeight, found, scores, written0, written, gaussCombinations, combinedRows,
                      checkFunction, |weights| == 0, iter, minimum, corrected, chain, k, n);
        return Hangs, rounds, minWeight, found, scores;
      }
      ghost var written1 := written;
      ProgressEmptyRet(found, scores, minWeight, ret, combinedRows, k / 2, checkFunction, |weights| == 0, chain, n);
      var word := Finish(gen, ret, minWeight, gaussPerm, randPerm, corrected, k, n, chain);
      out := Returned(word);
      ConcludeReturned(word, ret, rounds, minWeight, found, scores, written0, written1, written, gaussCombinations, combinedRows,
                       checkFunction, |weights| == 0, iter, minimum, corrected, chain, k, n);
    }

    /** CanteautChabaud on the copy gen of a generator with k > 0 rows and
        n > 0 columns once the Gauss-combinations matrix exists: undefined
        when the rows do not fit the words of a row (as written), otherwise
        the columns 0..n-1, Prepare and Run. */
    method Start(gen: CodeMatrix, sigma: nat, iter: nat, minimum: nat, permute: bool, corrected: bool,
                 ghost k: nat, ghost n: nat)
      returns (out: Outcome, rounds: nat, minWeight: nat, ghost found: seq<seq<bool>>, ghost scores: seq<nat>,
               ghost chain: Chain)
      modifies gen, rng, this`combinedRows, this`written, this`gaussCombinations
      requires gen.Valid() && k == |gen.rows| && n == gen.GetColumns() && 0 < k && 0 < n && sigma <= 30
      requires |gaussCombinations| == k && Rectangular(gaussCombinations, CombinationWidth())
      requires WeightsCover(if k < n then n - k else 0, corrected)
      ensures out.Undefined? <==> (!corrected && Width(n) < k) || (0 < iter && (k < 2 || n <= k || (sigma == 0 && 4 <= k)))
      ensures !out.Undefined? ==>
                chain.g == old(gen.rows) && Prepared(chain, k, n) &&
                (!permute && Systematic(chain.g, n) ==> chain.reduced) &&
                ((corrected || n % 64 == 0) && Independent(chain.g, n) ==> chain.reduced) &&
                Concluded(out, rounds, minWeight, found, scores, old(written), written, gaussCombinations, combinedRows,
                          checkFunction, |weights| == 0, iter, minimum, corrected, chain, k, n)
    {
      rounds, minWeight, found, scores := 0, Unset, [], [];
      chain := Chain(gen.rows, [], gen.rows, [], gen.rows, false);
      if !corrected && 64 * gen.GetColumns64() < gen.GetRows() {
        return Undefined, rounds, minWeight, found, scores, chain;
      }
      var colsPerm := Range(0, gen.GetColumns());
      var z, gaussPerm, randPerm;
      z, gaussPerm, randPerm, chain := Prepare(gen, permute, corrected);
      assert Prepared(chain, k, n);
      out, rounds, minWeight, found, scores := Run(gen, z, colsPerm, gaussPerm, randPerm, sigma, iter, minimum, corrected, chain);
    }

    /** CanteautChabaud on a copy of the generator, with the settings SIGMA,
        ITER, MINIMUM and PERMUTE given as sigma, iter, minimum and permute;
        corrected selects the evidently intended GaussMod2, per-bit weights
        and a fallback that restores the columns of the input. The outcome
        is undefined exactly under SearchUndefined, and the search hangs
        only in DeltaGauss of the first round, on a Z without a 1. Every
        word accepted passes the check function at a strictly falling
        score and, once the reduced generator is systematic, is a code word
        of the input. The reduced generator is systematic when the input is
        and is not permuted, and when the rows of the input are independent
        and GaussMod2 is corrected or reads rows of whole words. The words
        written are those accepted, in order, and the last one is returned.
        Without any, the fallback returns and writes the rows of the reduced
        generator that improve on the lightest so far. The search ends early only at a score at or below
        MINIMUM. */
    method Search(generator: CodeMatrix, sigma: nat, iter: nat, minimum: nat, permute: bool, corrected: bool)
      returns (out: Outcome, rounds: nat, minWeight: nat, ghost found: seq<seq<bool>>, ghost scores: seq<nat>,
               ghost chain: Chain)
      modifies this, rng
      requires generator.Valid()
      requires WeightsCover(if |generator.rows| < generator.GetColumns() then generator.GetColumns() - |generator.rows| else 0, corrected)
      ensures var k, n := |generator.rows|, generator.GetColumns();
              out.Undefined? <==> SearchUndefined(sigma, iter, k, n, corrected)
      ensures var k, n := |generator.rows|, generator.GetColumns();
              !out.Undefined? && (k == 0 || n == 0) ==> out == Returned([]) && found == [] && written == old(written)
      ensures var k, n := |generator.rows|, generator.GetColumns();
              !out.Undefined? && 0 < k && 0 < n ==>
                chain.g == generator.rows && Prepared(chain, k, n) &&
                (!permute && Systematic(generator.rows, n) ==> chain.reduced) &&
                ((corrected || n % 64 == 0) && Independent(generator.rows, n) ==> chain.reduced) &&
                Concluded(out, rounds, minWeight, found, scores, old(written), written, gaussCombinations, combinedRows,
                          checkFunction, |weights| == 0, iter, minimum, corrected, chain, k, n)
    {
      var gen := new CodeMatrix();
      gen.Assign(generator);
      var k, n := gen.GetRows(), gen.GetColumns();
      rounds, minWeight, found, scores := 0, Unset, [], [];
      chain := Chain(gen.rows, [], gen.rows, [], gen.rows, false);
      if 30 < sigma {
        return Undefined, rounds, minWeight, found, scores, chain;
      }
      CreateGaussMatrix(k);
      ProgressStart(combinedRows, k / 2, checkFunction, |weights| == 0, chain, n);
      if k == 0 || n == 0 {
        return Returned([]), rounds, minWeight, found, scores, chain;
      }
      out, rounds, minWeight, found, scores, chain := Start(gen, sigma, iter, minimum, permute, corrected, k, n);
    }

    /** CanteautChabaud(oGenerator, oParameters): the search with the
        settings SIGMA, ITER, MINIMUM and PERMUTE taken from the parameters
        (PERMUTE on when it is not zero; an absent one counts as 0). Each
        setting is inserted as 0 when absent, as GetIntegerParameter does,
        exactly when the path the search took reads it; the name of the
        output file is read the same way. */
    method CanteautChabaud(generator: CodeMatrix, params: Parameters, corrected: bool)
      returns (out: Outcome, rounds: nat, minWeight: nat, ghost found: seq<seq<bool>>, ghost scores: seq<nat>,
               ghost chain: Chain)
      modifies this, rng, params
      requires generator.Valid()
      requires WeightsCover(if |generator.rows| < generator.GetColumns() then generator.GetColumns() - |generator.rows| else 0, corrected)
      ensures var ints, k, n := old(params.integers), |generator.rows|, generator.GetColumns();
              var live := !out.Undefined? && 0 < k && 0 < n;
              params.integers ==
                WithDefaults(ints, SettingsRead(Setting(ints, Sigma), k, n, corrected, live && 0 < |found|,
                                                if live then rounds else 0))
      ensures params.strings == old(params.strings)[Output := if Output in old(params.strings) then old(params.strings)[Output] else ""]
      ensures params.helpTexts == old(params.helpTexts)
      ensures var k, n := |generator.rows|, generator.GetColumns();
              out.Undefined? <==> SearchUndefined(Setting(old(params.integers), Sigma), Setting(old(params.integers), Iter), k, n, corrected)
      ensures var k, n := |generator.rows|, generator.GetColumns();
              !out.Undefined? && (k == 0 || n == 0) ==> out == Returned([]) && found == [] && written == old(written)
      ensures var k, n := |generator.rows|, generator.GetColumns();
              !out.Undefined? && 0 < k && 0 < n ==>
                chain.g == generator.rows && Prepared(chain, k, n) &&
                (Setting(old(params.integers), Permute) == 0 && Systematic(generator.rows, n) ==> chain.reduced) &&
                ((corrected || n % 64 == 0) && Independent(generator.rows, n) ==> chain.reduced) &&
                Concluded(out, rounds, minWeight, found, scores, old(written), written, gaussCombinations, combinedRows,
                          checkFunction, |weights| == 0, Setting(old(params.integers), Iter),
                          Setting(old(params.integers), Minimum), corrected, chain, k, n)
    {
      ghost var ints := params.integers;
      var sigma, permute, iter, minimum := ReadFirst(params);
      out, rounds, minWeight, found, scores, chain := Search(generator, sigma, iter, minimum, permute != 0, corrected);
      var k, n := generator.GetRows(), generator.GetColumns();
      var live := !out.Undefined? && 0 < k && 0 < n;
      if live {
        ProgressAccepted(found, scores, minWeight, if |found| == 0 then [] else found[|found| - 1], combinedRows,
                         k / 2, checkFunction, |weights| == 0, chain, n);
      }
      ReadLater(params, ints, sigma, k, n, corrected, live && minWeight < Unset, if live then rounds else 0);
    }
  }
}
