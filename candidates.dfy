// The candidate words of the Canteaut-Chabaud search (LowWeightSearch.cpp):
// with the generator in systematic form [I | Z], a word is named by the set
// of rows it adds up, and its bits are the indicator of those rows followed
// by the sum of their Z rows. DeltaGauss trades one information column for
// one redundancy column; BuildMinVector assembles a word and undoes the
// three column permutations the search has applied.

module Candidates {
  import opened Bits
  import opened Reductions

  // ---------------------------------------------------------------------
  // Words named by rows

  /** Row r of the systematic generator [I | Z]: e_r followed by Z[r]. */
  function FullRows(z: seq<seq<bool>>, k: nat, m: nat): (r: seq<seq<bool>>)
    requires |z| == k && Rectangular(z, m)
    ensures |r| == k && Rectangular(r, k + m)
    ensures forall i :: 0 <= i < k ==> r[i] == Unit(k, i) + z[i]
  {
    seq(k, i requires 0 <= i < k => Unit(k, i) + z[i])
  }

  /** The bits BuildMinVector sets in front of the Z part: one per picked row. */
  function Indicator(k: nat, picks: seq<nat>): (r: seq<bool>)
    ensures |r| == k && forall c :: 0 <= c < k ==> r[c] == (c in picks)
  {
    seq(k, c => c in picks)
  }

  /** Adding up distinct rows of [I | Z] gives their indicator followed by
      the sum of their Z rows. */
  lemma {:induction false} FullSum(z: seq<seq<bool>>, k: nat, m: nat, picks: seq<nat>)
    requires |z| == k && Rectangular(z, m)
    requires Distinct(picks) && forall i :: 0 <= i < |picks| ==> picks[i] < k
    ensures SumRows(FullRows(z, k, m), picks, k + m) == Indicator(k, picks) + SumRows(z, picks, m)
  {
    var full := FullRows(z, k, m);
    if |picks| == 0 {
      assert Zeros(k + m) == Zeros(k) + Zeros(m);
    } else {
      var p', last := picks[..|picks| - 1], picks[|picks| - 1];
      assert Distinct(p') by {
        forall a, b | 0 <= a < b < |p'| ensures p'[a] != p'[b] {
          assert picks[a] != picks[b];
        }
      }
      FullSum(z, k, m, p');
      assert last !in p' by {
        forall a | 0 <= a < |p'| ensures p'[a] != last {
          assert picks[a] != picks[|picks| - 1];
        }
      }
      XorAppend(Indicator(k, p'), SumRows(z, p', m), Unit(k, last), z[last]);
      assert Xor(Indicator(k, p'), Unit(k, last)) == Indicator(k, picks);
    }
  }

  /** Distinct picks below k set as many indicator bits as there are picks. */
  lemma IndicatorCount(k: nat, picks: seq<nat>)
    requires Distinct(picks) && forall i :: 0 <= i < |picks| ==> picks[i] < k
    ensures Count(Indicator(k, picks)) == |picks|
  {
    var ind := Indicator(k, picks);
    CountOnes(ind);
    assert Ones(ind) == Values(picks);
    DistinctSize(picks);
  }

  // ---------------------------------------------------------------------
  // BuildMinVector

  /** The word BuildMinVector returns for the rows picks of Z: the indicator
      of the rows followed by the sum of their Z rows, with the columns put
      back through the DeltaGauss, GaussMod2 and random permutations in that
      order. */
  function MinVector(picks: seq<nat>, z: seq<seq<bool>>, k: nat, m: nat,
                     colsPerm: seq<nat>, gaussPerm: seq<nat>, randPerm: seq<nat>): (w: seq<bool>)
    requires |z| == k && Rectangular(z, m) && forall i :: 0 <= i < |picks| ==> picks[i] < k
    requires Unpermutable(colsPerm, k + m) && Unpermutable(gaussPerm, k + m) && Unpermutable(randPerm, k + m)
    ensures |w| == k + m
  {
    Unpermute(Unpermute(Unpermute(Indicator(k, picks) + SumRows(z, picks, m), colsPerm), gaussPerm), randPerm)
  }

  /** The weight of the word is the number of rows plus the weight of the
      sum of their Z rows: the dTempHW the search compares. */
  lemma MinVectorWeight(picks: seq<nat>, z: seq<seq<bool>>, k: nat, m: nat,
                        colsPerm: seq<nat>, gaussPerm: seq<nat>, randPerm: seq<nat>)
    requires |z| == k && Rectangular(z, m)
    requires Distinct(picks) && forall i :: 0 <= i < |picks| ==> picks[i] < k
    requires Unpermutable(colsPerm, k + m) && Unpermutable(gaussPerm, k + m) && Unpermutable(randPerm, k + m)
    ensures Count(MinVector(picks, z, k, m, colsPerm, gaussPerm, randPerm)) == |picks| + Count(SumRows(z, picks, m))
  {
    var v0 := Indicator(k, picks) + SumRows(z, picks, m);
    var v1 := Unpermute(v0, colsPerm);
    var v2 := Unpermute(v1, gaussPerm);
    UnpermuteCount(v0, colsPerm);
    UnpermuteCount(v1, gaussPerm);
    UnpermuteCount(v2, randPerm);
    CountAppend(Indicator(k, picks), SumRows(z, picks, m));
    IndicatorCount(k, picks);
  }

  /** The chain of row spaces the search keeps: the rows [I | Z] with the
      DeltaGauss swaps put back lie in the row space of the reduced
      generator gRed, whose rows with the GaussMod2 swaps put back lie in
      that of the permuted generator gRand, whose rows with the random
      permutation put back lie in that of the input g. */
  ghost predicate Descends(z: seq<seq<bool>>, k: nat, m: nat, colsPerm: seq<nat>, gaussPerm: seq<nat>, randPerm: seq<nat>,
                        gRed: seq<seq<bool>>, gRand: seq<seq<bool>>, g: seq<seq<bool>>)
  {
    |z| == k && Rectangular(z, m) && IsPermutation(colsPerm, k + m) &&
    Reaches(FullRows(z, k, m), colsPerm, gRed, k + m) &&
    Reaches(gRed, gaussPerm, gRand, k + m) &&
    Reaches(gRand, randPerm, g, k + m)
  }

  /** Along the chain, every word the search assembles is a code word of
      the input generator. */
  lemma MinVectorInCode(picks: seq<nat>, z: seq<seq<bool>>, k: nat, m: nat,
                        colsPerm: seq<nat>, gaussPerm: seq<nat>, randPerm: seq<nat>,
                        gRed: seq<seq<bool>>, gRand: seq<seq<bool>>, g: seq<seq<bool>>)
    requires Descends(z, k, m, colsPerm, gaussPerm, randPerm, gRed, gRand, g)
    requires Distinct(picks) && forall i :: 0 <= i < |picks| ==> picks[i] < k
    ensures InSpan(MinVector(picks, z, k, m, colsPerm, gaussPerm, randPerm), g, k + m)
  {
    var n, full := k + m, FullRows(z, k, m);
    var v0 := Indicator(k, picks) + SumRows(z, picks, m);
    FullSum(z, k, m, picks);
    SumRowsInSpan(full, picks, n);
    ReachesSpan(full, colsPerm, gRed, n, v0);
    var v1 := Unpermute(v0, colsPerm);
    ReachesSpan(gRed, gaussPerm, gRand, n, v1);
    var v2 := Unpermute(v1, gaussPerm);
    ReachesSpan(gRand, randPerm, g, n, v2);
  }

  // ---------------------------------------------------------------------
  // DeltaGauss

  /** Row i of Z after DeltaGauss pivots on (lambda, mu): a row other than
      lambda with a 1 in column mu gets row lambda added and keeps its 1 in
      column mu; every other row stays. */
  function DeltaRow(z: seq<seq<bool>>, m: nat, lambda: nat, mu: nat, i: nat): (r: seq<bool>)
    requires Rectangular(z, m) && lambda < |z| && mu < m && i < |z|
    ensures |r| == m
  {
    if i != lambda && z[i][mu] then Xor(z[i], z[lambda])[mu := true] else z[i]
  }

  function DeltaZ(z: seq<seq<bool>>, m: nat, lambda: nat, mu: nat): (r: seq<seq<bool>>)
    requires Rectangular(z, m) && lambda < |z| && mu < m
    ensures |r| == |z| && Rectangular(r, m)
    ensures forall i :: 0 <= i < |z| ==> r[i] == DeltaRow(z, m, lambda, mu, i)
  {
    seq(|z|, i requires 0 <= i < |z| => DeltaRow(z, m, lambda, mu, i))
  }

  /** Column mu and row lambda survive the pivot step unchanged: column mu
      of [I | Z] changes places with column lambda of I, which after the row
      additions equals it. */
  lemma DeltaKeepsPivot(z: seq<seq<bool>>, m: nat, lambda: nat, mu: nat)
    requires Rectangular(z, m) && lambda < |z| && mu < m
    ensures DeltaZ(z, m, lambda, mu)[lambda] == z[lambda]
    ensures forall i :: 0 <= i < |z| ==> DeltaZ(z, m, lambda, mu)[i][mu] == z[i][mu]
  {
  }

  /** Off column mu, a changed row is the sum of the two old rows. */
  lemma DeltaAddsRows(z: seq<seq<bool>>, m: nat, lambda: nat, mu: nat, i: nat, c: nat)
    requires Rectangular(z, m) && lambda < |z| && mu < m && i < |z| && c < m && c != mu
    requires i != lambda && z[i][mu]
    ensures DeltaZ(z, m, lambda, mu)[i][c] == (z[i][c] != z[lambda][c])
  {
  }

  /** Row i of [I | Z'] is row i of [I | Z], plus row lambda when it was
      added, with columns lambda and k + mu exchanged. */
  lemma DeltaFullRow(z: seq<seq<bool>>, k: nat, m: nat, lambda: nat, mu: nat, i: nat)
    requires |z| == k && Rectangular(z, m) && lambda < k && mu < m && i < k
    requires z[lambda][mu]
    ensures var full, full' := FullRows(z, k, m), FullRows(DeltaZ(z, m, lambda, mu), k, m);
            full'[i] == Swap(if Added(z, m, lambda, mu)[i] then Xor(full[i], full[lambda]) else full[i], lambda, k + mu)
  {
    var full, full' := FullRows(z, k, m), FullRows(DeltaZ(z, m, lambda, mu), k, m);
    var x := if i != lambda && z[i][mu] then Xor(full[i], full[lambda]) else full[i];
    var y := Swap(x, lambda, k + mu);
    forall c | 0 <= c < k + m ensures full'[i][c] == y[c] {
      if c < k {
        assert full'[i][c] == (c == i) && full[i][c] == (c == i) && full[lambda][c] == (c == lambda);
      } else {
        assert full'[i][c] == DeltaRow(z, m, lambda, mu, i)[c - k];
        assert full[i][c] == z[i][c - k] && full[lambda][c] == z[lambda][c - k];
      }
    }
  }

  /** The rows DeltaGauss adds row lambda to: those other than lambda with
      a 1 in column mu. */
  function Added(z: seq<seq<bool>>, m: nat, lambda: nat, mu: nat): (r: seq<bool>)
    requires Rectangular(z, m) && mu < m
    ensures |r| == |z| && forall i :: 0 <= i < |z| ==> r[i] == (i != lambda && z[i][mu])
  {
    seq(|z|, i requires 0 <= i < |z| => i != lambda && z[i][mu])
  }

  /** The rows of the new [I | Z] are the old ones, row lambda added where
      Added says so, with columns lambda and k + mu exchanged. */
  lemma DeltaFullRows(z: seq<seq<bool>>, k: nat, m: nat, lambda: nat, mu: nat)
    requires |z| == k && Rectangular(z, m) && lambda < k && mu < m && z[lambda][mu]
    ensures SwappedSums(FullRows(z, k, m), FullRows(DeltaZ(z, m, lambda, mu), k, m), lambda, k + mu, Added(z, m, lambda, mu), k + m)
  {
    var c := k + mu;
    forall i | 0 <= i < k
      ensures SwappedRow(FullRows(z, k, m), FullRows(DeltaZ(z, m, lambda, mu), k, m), lambda, c, Added(z, m, lambda, mu), i)
    {
      DeltaFullRow(z, k, m, lambda, mu, i);
    }
  }

  /** DeltaGauss keeps the chain: the new [I | Z], with the permutation that
      records the exchange of columns lambda and k + mu, still lies in the
      row space of the reduced generator. */
  lemma DeltaKeepsCode(z: seq<seq<bool>>, k: nat, m: nat, lambda: nat, mu: nat, colsPerm: seq<nat>, gRed: seq<seq<bool>>)
    requires |z| == k && Rectangular(z, m) && lambda < k && mu < m && z[lambda][mu]
    requires IsPermutation(colsPerm, k + m) && Reaches(FullRows(z, k, m), colsPerm, gRed, k + m)
    ensures IsPermutation(Swap(colsPerm, lambda, k + mu), k + m)
    ensures Reaches(FullRows(DeltaZ(z, m, lambda, mu), k, m), Swap(colsPerm, lambda, k + mu), gRed, k + m)
  {
    DeltaFullRows(z, k, m, lambda, mu);
    SwappedSumsReach(FullRows(z, k, m), FullRows(DeltaZ(z, m, lambda, mu), k, m), colsPerm, gRed, k + m, lambda, k + mu, Added(z, m, lambda, mu));
  }
}
