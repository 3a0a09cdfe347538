// Facts the search of LowWeightSearch.cpp relies on: the split of a
// systematic generator into I and Z, the sums the collision probes form,
// the shape of the row lists they record, and the permutation a full
// getRandomPosVector draw yields.

module SearchFacts {
  import opened Bits
  import opened CodeMatrices
  import opened Reductions
  import opened Candidates
  import opened RandomNumbers
  import opened HashTables

  /** The width of the rows CreateGaussMatrix(k) builds: k rounded up to
      whole 64-bit words. */
  function Width(k: nat): (w: nat)
    ensures k <= w < k + 64 && w % 64 == 0
  {
    64 * ((k + 63) / 64)
  }

  /** The rows of Z: columns k, ..., n - 1 of the first k rows. */
  function ZPart(g: seq<seq<bool>>, k: nat, n: nat): (z: seq<seq<bool>>)
    requires Rectangular(g, n) && k <= |g|
    ensures |z| == k && Rectangular(z, if k <= n then n - k else 0)
  {
    SubRows(g, n, Interval(0, k), if k <= n then Interval(k, n) else [])
  }

  /** A systematic generator is [I | Z] for the Z extracted from it. */
  lemma SystematicSplit(g: seq<seq<bool>>, n: nat)
    requires Systematic(g, n)
    ensures FullRows(ZPart(g, |g|, n), |g|, n - |g|) == g
  {
    var k := |g|;
    var full, z := FullRows(ZPart(g, k, n), k, n - k), ZPart(g, k, n);
    forall r | 0 <= r < k ensures full[r] == g[r] {
      assert Interval(0, k)[r] == r;
      forall c | 0 <= c < n ensures full[r][c] == g[r][c] {
        if c >= k {
          assert Interval(k, n)[c - k] == c;
        }
      }
    }
  }

  /** Rows reach themselves through the identity permutation. */
  lemma ReachesIdentity(g: seq<seq<bool>>, n: nat)
    requires Rectangular(g, n)
    ensures IsPermutation(Identity(n), n) && Reaches(g, Identity(n), g, n)
  {
    IdentityIsPermutation(n);
    forall r | 0 <= r < |g| ensures RowReaches(g, Identity(n), g, n, r) {
      ScatterIdentity(g[r]);
      SpanRow(g, r, n);
    }
  }

  /** A draw of n distinct values from [0, n - 1] is a permutation of the
      columns. */
  lemma DrawIsPermutation(p: seq<nat>, n: nat)
    requires n > 0 && |p| == n && Distinct(p) && forall x :: x in p ==> x <= n - 1
    ensures IsPermutation(p, n)
  {
    forall i | 0 <= i < n ensures p[i] < n {
      assert p[i] in p;
    }
  }

  // ---------------------------------------------------------------------
  // The sums the probes form

  lemma SumOne(z: seq<seq<bool>>, m: nat, a: nat)
    requires Rectangular(z, m) && a < |z|
    ensures SumRows(z, [a], m) == z[a]
  {
    assert [a][..0] == [];
    XorComm(Zeros(m), z[a]);
    XorZeros(z[a]);
  }

  /** A single row of Z2 against a one-row record: z[c] ^ z[a]. */
  lemma SumTwo(z: seq<seq<bool>>, m: nat, a: nat, c: nat)
    requires Rectangular(z, m) && a < |z| && c < |z|
    ensures SumRows(z, [a, c], m) == Xor(z[c], z[a])
  {
    assert [a, c][..1] == [a];
    SumOne(z, m, a);
    XorComm(z[a], z[c]);
  }

  /** A single row of Z2 against a two-row record: z[c] ^ z[a] ^ z[b]. */
  lemma SumThree(z: seq<seq<bool>>, m: nat, a: nat, b: nat, c: nat)
    requires Rectangular(z, m) && a < |z| && b < |z| && c < |z|
    ensures SumRows(z, [a, b, c], m) == Xor(Xor(z[c], z[a]), z[b])
  {
    assert [a, b, c][..2] == [a, b];
    SumTwo(z, m, a, b);
    XorComm(z[b], z[a]);
    XorComm(Xor(z[a], z[b]), z[c]);
    XorAssoc(z[c], z[a], z[b]);
  }

  /** Two rows of Z2 against a one-row record: z[c] ^ z[d] ^ z[a]. */
  lemma SumThreePair(z: seq<seq<bool>>, m: nat, a: nat, c: nat, d: nat)
    requires Rectangular(z, m) && a < |z| && c < |z| && d < |z|
    ensures SumRows(z, [a, c, d], m) == Xor(Xor(z[c], z[d]), z[a])
  {
    assert [a, c, d][..2] == [a, c];
    SumTwo(z, m, a, c);
    XorComm(z[c], z[a]);
    XorAssoc(z[c], z[a], z[d]);
    XorComm(z[a], z[d]);
    XorAssoc(z[c], z[d], z[a]);
  }

  /** Two rows of Z2 against a two-row record: z[c] ^ z[d] ^ z[a] ^ z[b]. */
  lemma SumFour(z: seq<seq<bool>>, m: nat, a: nat, b: nat, c: nat, d: nat)
    requires Rectangular(z, m) && a < |z| && b < |z| && c < |z| && d < |z|
    ensures SumRows(z, [a, b, c, d], m) == Xor(Xor(Xor(z[c], z[d]), z[a]), z[b])
  {
    assert [a, b, c, d][..3] == [a, b, c];
    SumThree(z, m, a, b, c);
    var cd, ca := Xor(z[c], z[d]), Xor(z[c], z[a]);
    XorAssoc(z[c], z[a], z[b]);
    XorAssoc(z[c], Xor(z[a], z[b]), z[d]);
    XorComm(Xor(z[a], z[b]), z[d]);
    XorAssoc(z[d], z[a], z[b]);
    XorAssoc(z[c], z[d], Xor(z[a], z[b]));
    XorAssoc(cd, z[a], z[b]);
    XorAssoc(z[c], z[a], z[b]);
    XorAssoc(z[c], Xor(z[a], z[b]), z[d]);
  }

  /** Two sums that agree on the sampled columns add up to a word that is
      zero there. */
  lemma Cancels(x: seq<bool>, y: seq<bool>, cols: seq<nat>)
    requires |x| == |y| && (forall i :: 0 <= i < |cols| ==> cols[i] < |x|) && Gather(x, cols) == Gather(y, cols)
    ensures IsZero(Gather(Xor(x, y), cols))
  {
    GatherXor(x, y, cols);
  }

  // ---------------------------------------------------------------------
  // The rows a candidate combines

  /** The row list a candidate records, vMinimum: two to four rows in
      increasing order, one or two from I1 = [0, h) followed by one or two
      from I2 = [h, 2 h). */
  predicate Combined(picks: seq<nat>, h: nat)
  {
    2 <= |picks| <= 4 &&
    (forall i, j :: 0 <= i < j < |picks| ==> picks[i] < picks[j]) &&
    picks[0] < h && h <= picks[|picks| - 1] < 2 * h
  }

  /** Such a list names distinct rows of the first 2 h, I1 ones first. */
  lemma CombinedRows(picks: seq<nat>, h: nat)
    requires Combined(picks, h)
    ensures Distinct(picks) && forall i :: 0 <= i < |picks| ==> picks[i] < 2 * h
    ensures forall i, j :: 0 <= i < j < |picks| && picks[j] < h ==> picks[i] < h
  {
  }

  // ---------------------------------------------------------------------
  // The probes

  /** The rows a probe combines, in the order vMinimum lists them: the rows
      of I1 the head record names, then row i of I2, then row j of I2 for
      a probe with a pair of I2 rows. I1 is rows 0, ..., h - 1 and I2 rows
      h, ..., 2 h - 1. */
  function ProbePicks(rec: Record, h: nat, i: nat, pair: bool, j: nat): seq<nat>
  {
    [rec.row1] + (if rec.rows == 2 then [rec.row2] else []) + [h + i] + (if pair then [h + j] else [])
  }

  /** oTempWord as the probe XORs it together: the I2 row (or the two I2
      rows), then the record's first row, then its second. */
  function ProbeSum(z: seq<seq<bool>>, m: nat, rec: Record, h: nat, i: nat, pair: bool, j: nat): (r: seq<bool>)
    requires Rectangular(z, m) && rec.row1 < |z| && (rec.rows == 2 ==> rec.row2 < |z|)
    requires h + i < |z| && (pair ==> h + j < |z|)
    ensures |r| == m
  {
    var first := if pair then Xor(z[h + i], z[h + j]) else z[h + i];
    var one := Xor(first, z[rec.row1]);
    if rec.rows == 2 then Xor(one, z[rec.row2]) else one
  }

  /** A probe's rows are a valid vMinimum. */
  lemma ProbeCombined(rec: Record, h: nat, i: nat, pair: bool, j: nat)
    requires rec.rows in {1, 2} && rec.row1 < h && (rec.rows == 2 ==> rec.row1 < rec.row2 < h)
    requires i < h && (pair ==> i < j < h)
    ensures Combined(ProbePicks(rec, h, i, pair, j), h)
  {
  }

  /** oTempWord is the sum of the Z rows the probe names. */
  lemma ProbeSumRows(z: seq<seq<bool>>, m: nat, rec: Record, h: nat, i: nat, pair: bool, j: nat)
    requires Rectangular(z, m) && 2 * h <= |z|
    requires rec.rows in {1, 2} && rec.row1 < h && (rec.rows == 2 ==> rec.row2 < h)
    requires i < h && (pair ==> j < h)
    ensures SumRows(z, ProbePicks(rec, h, i, pair, j), m) == ProbeSum(z, m, rec, h, i, pair, j)
  {
    var a, b, c, d := rec.row1, rec.row2, h + i, h + j;
    if pair {
      if rec.rows == 2 {
        assert ProbePicks(rec, h, i, pair, j) == [a, b, c, d];
        SumFour(z, m, a, b, c, d);
      } else {
        assert ProbePicks(rec, h, i, pair, j) == [a, c, d];
        SumThreePair(z, m, a, c, d);
      }
    } else {
      if rec.rows == 2 {
        assert ProbePicks(rec, h, i, pair, j) == [a, b, c];
        SumThree(z, m, a, b, c);
      } else {
        assert ProbePicks(rec, h, i, pair, j) == [a, c];
        SumTwo(z, m, a, c);
      }
    }
  }

  /** The record's rows of Z, summed: what RecordSum adds up on the
      sampled columns. */
  function RecordRows(z: seq<seq<bool>>, m: nat, rec: Record): (r: seq<bool>)
    requires Rectangular(z, m) && rec.row1 < |z| && (rec.rows == 2 ==> rec.row2 < |z|)
    ensures |r| == m
  {
    if rec.rows == 2 then Xor(z[rec.row1], z[rec.row2]) else z[rec.row1]
  }

  /** On the sampled columns the record's rows of Z read as RecordSum over
      Z1, and the probed rows of Z as the probed rows of Z2. */
  lemma ProbeGathers(z: seq<seq<bool>>, m: nat, h: nat, cols: seq<nat>, z1: seq<seq<bool>>, z2: seq<seq<bool>>,
                     rec: Record, i: nat, pair: bool, j: nat)
    requires Rectangular(z, m) && 2 * h <= |z| && forall c :: 0 <= c < |cols| ==> cols[c] < m
    requires z1 == SubRows(z, m, Interval(0, h), cols) && z2 == SubRows(z, m, Interval(h, 2 * h), cols)
    requires rec.rows in {1, 2} && rec.row1 < h && (rec.rows == 2 ==> rec.row2 < h)
    requires i < h && (pair ==> j < h)
    ensures Gather(RecordRows(z, m, rec), cols) == RecordSum(rec, z1, |cols|)
    ensures Gather(if pair then Xor(z[h + i], z[h + j]) else z[h + i], cols) ==
            if pair then Xor(z2[i], z2[j]) else z2[i]
  {
    var a, b := rec.row1, rec.row2;
    assert Interval(0, h)[a] == a && z1[a] == Gather(z[a], cols);
    if rec.rows == 2 {
      assert Interval(0, h)[b] == b && z1[b] == Gather(z[b], cols);
      GatherXor(z[a], z[b], cols);
    }
    assert Interval(h, 2 * h)[i] == h + i && z2[i] == Gather(z[h + i], cols);
    if pair {
      assert Interval(h, 2 * h)[j] == h + j && z2[j] == Gather(z[h + j], cols);
      GatherXor(z[h + i], z[h + j], cols);
    }
  }

  /** oTempWord is the probed rows of Z plus the record's rows. */
  lemma ProbeSumSplit(z: seq<seq<bool>>, m: nat, rec: Record, h: nat, i: nat, pair: bool, j: nat)
    requires Rectangular(z, m) && rec.row1 < |z| && (rec.rows == 2 ==> rec.row2 < |z|)
    requires h + i < |z| && (pair ==> h + j < |z|)
    ensures ProbeSum(z, m, rec, h, i, pair, j) ==
            Xor(if pair then Xor(z[h + i], z[h + j]) else z[h + i], RecordRows(z, m, rec))
  {
    if rec.rows == 2 {
      XorAssoc(if pair then Xor(z[h + i], z[h + j]) else z[h + i], z[rec.row1], z[rec.row2]);
    }
  }

  /** A probe that finds a bucket whose head record adds up to the probed
      rows on the sampled columns: the rows it names are a valid vMinimum,
      oTempWord is the sum of their Z rows, and that sum is zero on every
      sampled column. */
  lemma ProbeFound(z: seq<seq<bool>>, m: nat, h: nat, cols: seq<nat>, z1: seq<seq<bool>>, z2: seq<seq<bool>>,
                   rec: Record, i: nat, pair: bool, j: nat)
    requires Rectangular(z, m) && 2 * h <= |z| && forall c :: 0 <= c < |cols| ==> cols[c] < m
    requires z1 == SubRows(z, m, Interval(0, h), cols) && z2 == SubRows(z, m, Interval(h, 2 * h), cols)
    requires rec.rows in {1, 2} && rec.row1 < h && (rec.rows == 2 ==> rec.row1 < rec.row2 < h)
    requires i < h && (pair ==> i < j < h)
    requires RecordSum(rec, z1, |cols|) == if pair then Xor(z2[i], z2[j]) else z2[i]
    ensures Combined(ProbePicks(rec, h, i, pair, j), h)
    ensures SumRows(z, ProbePicks(rec, h, i, pair, j), m) == ProbeSum(z, m, rec, h, i, pair, j)
    ensures IsZero(Gather(ProbeSum(z, m, rec, h, i, pair, j), cols))
    ensures Vanishes(z, m, ProbePicks(rec, h, i, pair, j), cols)
  {
    ProbeCombined(rec, h, i, pair, j);
    CombinedRows(ProbePicks(rec, h, i, pair, j), h);
    ProbeSumRows(z, m, rec, h, i, pair, j);
    ProbeGathers(z, m, h, cols, z1, z2, rec, i, pair, j);
    ProbeSumSplit(z, m, rec, h, i, pair, j);
    Cancels(if pair then Xor(z[h + i], z[h + j]) else z[h + i], RecordRows(z, m, rec), cols);
  }

  // ---------------------------------------------------------------------
  // Progress of the search

  /** dMinWeight before anything is accepted. */
  const Unset: nat := 1000000

  /** The check function, if one is set, accepts w. */
  predicate Passes(check: Option<seq<bool> -> bool>, w: seq<bool>)
  {
    check.None? || check.value(w)
  }

  /** The ghost generators the search works through: the input g, g with
      its columns randomly permuted by randPerm (gRand), and gRand after
      GaussMod2, whose column exchanges are gaussPerm (gRed); reduced says
      whether gRed came out systematic. */
  datatype Chain = Chain(g: seq<seq<bool>>, randPerm: seq<nat>, gRand: seq<seq<bool>>,
                         gaussPerm: seq<nat>, gRed: seq<seq<bool>>, reduced: bool)

  /** Word t accepted by the search: n bits the check function passes,
      accepted at a score of at least 2 below the previous one (below
      dMinWeight's start value for the first), the score being its weight
      when no weights are set, and a code word of g once gRed was
      systematic. */
  ghost predicate AcceptedAt(found: seq<seq<bool>>, scores: seq<nat>, t: nat,
                             check: Option<seq<bool> -> bool>, unweighted: bool, chain: Chain, n: nat)
  {
    t < |found| && t < |scores| && |found[t]| == n && Passes(check, found[t]) &&
    2 <= scores[t] < (if t == 0 then Unset else scores[t - 1]) &&
    (unweighted ==> Count(found[t]) == scores[t]) &&
    (chain.reduced ==> Rectangular(chain.g, n) && InSpan(found[t], chain.g, n))
  }

  /** The search state agrees with the words accepted so far: dMinWeight is
      the last score, oReturn the last word, m_vCombinedRows names rows of
      both halves once something was accepted. */
  ghost predicate Progress(found: seq<seq<bool>>, scores: seq<nat>, minWeight: nat, ret: seq<bool>,
                           combined: seq<nat>, h: nat,
                           check: Option<seq<bool> -> bool>, unweighted: bool, chain: Chain, n: nat)
  {
    |found| == |scores| &&
    minWeight == (if |scores| == 0 then Unset else scores[|scores| - 1]) &&
    ret == (if |found| == 0 then [] else found[|found| - 1]) &&
    (|found| > 0 ==> Combined(combined, h)) &&
    forall t :: 0 <= t < |found| ==> AcceptedAt(found, scores, t, check, unweighted, chain, n)
  }

  /** Nothing accepted yet. */
  lemma ProgressStart(combined: seq<nat>, h: nat, check: Option<seq<bool> -> bool>, unweighted: bool, chain: Chain, n: nat)
    ensures Progress([], [], Unset, [], combined, h, check, unweighted, chain, n)
  {
  }

  /** The chain of generators CanteautChabaud prepares before its rounds,
      for k rows of n columns: the input g, the reduced generator gRed
      (whose columns gaussPerm and randPerm take back to those of g, each
      row of a generator in the span of the next), and whether gRed is
      systematic. */
  ghost predicate Prepared(chain: Chain, k: nat, n: nat)
  {
    |chain.gRed| == k && Rectangular(chain.gRed, n) && Rectangular(chain.g, n) &&
    Unpermutable(chain.gaussPerm, n) && Unpermutable(chain.randPerm, n) &&
    Reaches(chain.gRed, chain.gaussPerm, chain.gRand, n) && Reaches(chain.gRand, chain.randPerm, chain.g, n) &&
    (chain.reduced <==> Systematic(chain.gRed, n))
  }

  /** The facts Prepared gathers, one by one. */
  lemma PreparedFacts(chain: Chain, k: nat, n: nat)
    requires Prepared(chain, k, n)
    ensures |chain.gRed| == k && Rectangular(chain.gRed, n) && Rectangular(chain.g, n)
    ensures Unpermutable(chain.gaussPerm, n) && Unpermutable(chain.randPerm, n)
    ensures Reaches(chain.gRed, chain.gaussPerm, chain.gRand, n) && Reaches(chain.gRand, chain.randPerm, chain.g, n)
    ensures chain.reduced <==> Systematic(chain.gRed, n)
  {
  }

  /** Words accepted have n > 0 bits, so an empty word returned means
      nothing was accepted and dMinWeight is still unset. */
  lemma ProgressEmptyRet(found: seq<seq<bool>>, scores: seq<nat>, minWeight: nat, ret: seq<bool>,
                         combined: seq<nat>, h: nat,
                         check: Option<seq<bool> -> bool>, unweighted: bool, chain: Chain, n: nat)
    requires Progress(found, scores, minWeight, ret, combined, h, check, unweighted, chain, n) && 0 < n
    ensures |ret| == 0 <==> |found| == 0
    ensures |ret| == 0 ==> minWeight == Unset
  {
    if 0 < |found| {
      assert AcceptedAt(found, scores, |found| - 1, check, unweighted, chain, n);
    }
  }

  /** Accepting a word below dMinWeight keeps the state in step. */
  lemma ProgressAccept(found: seq<seq<bool>>, scores: seq<nat>, minWeight: nat, ret: seq<bool>,
                       combined: seq<nat>, h: nat,
                       check: Option<seq<bool> -> bool>, unweighted: bool, chain: Chain, n: nat,
                       w: seq<bool>, score: nat, picks: seq<nat>)
    requires Progress(found, scores, minWeight, ret, combined, h, check, unweighted, chain, n)
    requires 2 <= score < minWeight && |w| == n && Passes(check, w) && Combined(picks, h)
    requires unweighted ==> Count(w) == score
    requires chain.reduced ==> Rectangular(chain.g, n) && InSpan(w, chain.g, n)
    ensures Progress(found + [w], scores + [score], score, w, picks, h, check, unweighted, chain, n)
  {
    var found', scores' := found + [w], scores + [score];
    forall t | 0 <= t < |found'| ensures AcceptedAt(found', scores', t, check, unweighted, chain, n) {
      if t < |found| {
        assert AcceptedAt(found, scores, t, check, unweighted, chain, n);
      }
    }
  }

  /** The word BuildMinVector assembles from a candidate: n bits, as many
      ones as rows combined plus the ones of their sum, and a code word of
      the input once the chain of generators is reduced. */
  lemma CandidateFacts(picks: seq<nat>, z: seq<seq<bool>>, k: nat, m: nat,
                       colsPerm: seq<nat>, gaussPerm: seq<nat>, randPerm: seq<nat>, h: nat, chain: Chain)
    requires |z| == k && Rectangular(z, m) && Combined(picks, h) && 2 * h <= k
    requires IsPermutation(colsPerm, k + m) && Unpermutable(gaussPerm, k + m) && Unpermutable(randPerm, k + m)
    requires chain.reduced ==> Rectangular(chain.g, k + m) &&
                               Descends(z, k, m, colsPerm, gaussPerm, randPerm, chain.gRed, chain.gRand, chain.g)
    ensures var word := MinVector(picks, z, k, m, colsPerm, gaussPerm, randPerm);
            |word| == k + m && Count(word) == |picks| + Count(SumRows(z, picks, m)) &&
            (chain.reduced ==> InSpan(word, chain.g, k + m))
  {
    CombinedRows(picks, h);
    MinVectorWeight(picks, z, k, m, colsPerm, gaussPerm, randPerm);
    if chain.reduced {
      MinVectorInCode(picks, z, k, m, colsPerm, gaussPerm, randPerm, chain.gRed, chain.gRand, chain.g);
    }
  }

  /** Accepting the word of a candidate below dMinWeight that passes the
      check keeps the search state in step. */
  lemma AcceptKeeps(picks: seq<nat>, z: seq<seq<bool>>, k: nat, m: nat,
                    colsPerm: seq<nat>, gaussPerm: seq<nat>, randPerm: seq<nat>, word: seq<bool>, hw: nat,
                    found: seq<seq<bool>>, scores: seq<nat>, minWeight: nat, ret: seq<bool>, combined: seq<nat>, h: nat,
                    check: Option<seq<bool> -> bool>, unweighted: bool, chain: Chain)
    requires |z| == k && Rectangular(z, m) && Combined(picks, h) && 2 * h <= k
    requires IsPermutation(colsPerm, k + m) && Unpermutable(gaussPerm, k + m) && Unpermutable(randPerm, k + m)
    requires chain.reduced ==> Rectangular(chain.g, k + m) &&
                               Descends(z, k, m, colsPerm, gaussPerm, randPerm, chain.gRed, chain.gRand, chain.g)
    requires word == MinVector(picks, z, k, m, colsPerm, gaussPerm, randPerm)
    requires 2 <= hw < minWeight && (unweighted ==> hw == |picks| + Count(SumRows(z, picks, m)))
    requires Progress(found, scores, minWeight, ret, combined, h, check, unweighted, chain, k + m)
    requires Passes(check, word)
    ensures Progress(found + [word], scores + [hw], hw, word, picks, h, check, unweighted, chain, k + m)
  {
    CandidateFacts(picks, z, k, m, colsPerm, gaussPerm, randPerm, h, chain);
    ProgressAccept(found, scores, minWeight, ret, combined, h, check, unweighted, chain, k + m, word, hw, picks);
  }

  /** Each accepted update strictly lowers dMinWeight: the scores of the
      accepted words fall strictly. */
  lemma {:induction false} ScoresFall(found: seq<seq<bool>>, scores: seq<nat>, minWeight: nat, ret: seq<bool>,
                                      combined: seq<nat>, h: nat,
                                      check: Option<seq<bool> -> bool>, unweighted: bool, chain: Chain, n: nat,
                                      a: nat, b: nat)
    requires Progress(found, scores, minWeight, ret, combined, h, check, unweighted, chain, n)
    requires a < b < |scores|
    ensures scores[a] > scores[b]
    decreases b
  {
    assert AcceptedAt(found, scores, b, check, unweighted, chain, n);
    if a < b - 1 {
      ScoresFall(found, scores, minWeight, ret, combined, h, check, unweighted, chain, n, a, b - 1);
    }
  }

  /** dMinWeight is the least score accepted, and never below 2, so the
      source's break on a weight of 0 cannot fire. */
  lemma MinWeightLeast(found: seq<seq<bool>>, scores: seq<nat>, minWeight: nat, ret: seq<bool>,
                       combined: seq<nat>, h: nat,
                       check: Option<seq<bool> -> bool>, unweighted: bool, chain: Chain, n: nat)
    requires Progress(found, scores, minWeight, ret, combined, h, check, unweighted, chain, n)
    ensures minWeight >= 2
    ensures forall t :: 0 <= t < |scores| ==> scores[t] >= minWeight
  {
    if |scores| > 0 {
      assert AcceptedAt(found, scores, |scores| - 1, check, unweighted, chain, n);
      forall t | 0 <= t < |scores| - 1 ensures scores[t] >= minWeight {
        ScoresFall(found, scores, minWeight, ret, combined, h, check, unweighted, chain, n, t, |scores| - 1);
      }
    }
  }

  // ---------------------------------------------------------------------
  // The fallback

  /** Where the last loop of CanteautChabaud stands after the first rows:
      the least weight so far, the row taken with it (empty while none
      was lighter than the start value) and the rows written, in order. */
  datatype Scan = Scan(weight: nat, word: seq<bool>, log: seq<seq<bool>>)

  /** The loop over the first i rows, starting from the weight bound: every
      row lighter than the lightest so far is taken and written. */
  function Lightest(rows: seq<seq<bool>>, i: nat, bound: nat): (r: Scan)
    requires i <= |rows|
    ensures r.weight <= bound
  {
    if i == 0 then Scan(bound, [], [])
    else
      var prev := Lightest(rows, i - 1, bound);
      if Count(rows[i - 1]) < prev.weight then Scan(Count(rows[i - 1]), rows[i - 1], prev.log + [rows[i - 1]])
      else prev
  }

  /** The loop keeps the first row of least weight among those scanned, if
      it is lighter than bound; otherwise it takes no row. */
  lemma {:induction false} LightestIsFirstMinimum(rows: seq<seq<bool>>, i: nat, bound: nat)
    requires i <= |rows|
    ensures var r := Lightest(rows, i, bound);
            (forall t :: 0 <= t < i ==> Count(rows[t]) >= r.weight) &&
            (r.weight == bound ==> r.word == []) &&
            (r.weight < bound ==> exists j :: 0 <= j < i && r.word == rows[j] && Count(rows[j]) == r.weight &&
                                             (forall t :: 0 <= t < j ==> Count(rows[t]) > r.weight))
  {
    if i > 0 {
      LightestIsFirstMinimum(rows, i - 1, bound);
      var prev, r := Lightest(rows, i - 1, bound), Lightest(rows, i, bound);
      if Count(rows[i - 1]) < prev.weight {
        assert r.word == rows[i - 1] && Count(rows[i - 1]) == r.weight;
      } else if r.weight < bound {
        var j :| 0 <= j < i - 1 && r.word == rows[j] && Count(rows[j]) == r.weight &&
                 forall t :: 0 <= t < j ==> Count(rows[t]) > r.weight;
      }
    }
  }

  /** The rows written are scanned rows lighter than bound, the last of
      them the row returned, and none is written when none is taken. */
  lemma {:induction false} LightestLog(rows: seq<seq<bool>>, i: nat, bound: nat)
    requires i <= |rows|
    ensures var r := Lightest(rows, i, bound);
            (r.weight == bound <==> r.log == []) &&
            (|r.log| > 0 ==> r.log[|r.log| - 1] == r.word) &&
            (forall t :: 0 <= t < |r.log| ==> r.log[t] in rows[..i] && Count(r.log[t]) < bound)
  {
    if i > 0 {
      LightestLog(rows, i - 1, bound);
      var prev, r := Lightest(rows, i - 1, bound), Lightest(rows, i, bound);
      assert rows[..i] == rows[..i - 1] + [rows[i - 1]];
      if Count(rows[i - 1]) < prev.weight {
        forall t | 0 <= t < |r.log| ensures r.log[t] in rows[..i] && Count(r.log[t]) < bound {
          if t < |prev.log| {
            assert r.log[t] == prev.log[t];
          }
        }
      }
    }
  }

  /** A row of the reduced generator with its columns put back through the
      GaussMod2 vector and then through the random permutation: the
      coordinates of the input generator. */
  function Restored(row: seq<bool>, gaussPerm: seq<nat>, randPerm: seq<nat>): (r: seq<bool>)
    requires Unpermutable(gaussPerm, |row|) && Unpermutable(randPerm, |row|)
    ensures |r| == |row| && Count(r) == Count(row)
  {
    UnpermuteCount(row, gaussPerm);
    UnpermuteCount(Unpermute(row, gaussPerm), randPerm);
    Unpermute(Unpermute(row, gaussPerm), randPerm)
  }

  /** Every row of the reduced generator, restored, is a code word of the
      input generator. */
  lemma RestoredInSpan(gRed: seq<seq<bool>>, gaussPerm: seq<nat>, randPerm: seq<nat>,
                       gRand: seq<seq<bool>>, g: seq<seq<bool>>, n: nat, r: nat)
    requires Reaches(gRed, gaussPerm, gRand, n) && Reaches(gRand, randPerm, g, n) && r < |gRed|
    ensures InSpan(Restored(gRed[r], gaussPerm, randPerm), g, n)
  {
    SpanRow(gRed, r, n);
    ReachesSpan(gRed, gaussPerm, gRand, n, gRed[r]);
    ReachesSpan(gRand, randPerm, g, n, Unpermute(gRed[r], gaussPerm));
  }

  /** The rows of the reduced generator, restored. */
  function RestoredRows(rows: seq<seq<bool>>, n: nat, gaussPerm: seq<nat>, randPerm: seq<nat>): (r: seq<seq<bool>>)
    requires Rectangular(rows, n) && Unpermutable(gaussPerm, n) && Unpermutable(randPerm, n)
    ensures |r| == |rows| && forall i :: 0 <= i < |rows| ==> r[i] == Restored(rows[i], gaussPerm, randPerm)
  {
    seq(|rows|, i requires 0 <= i < |rows| => Restored(rows[i], gaussPerm, randPerm))
  }

  /** The rows picks names add up to zero on the sampled columns cols. */
  predicate Vanishes(z: seq<seq<bool>>, m: nat, picks: seq<nat>, cols: seq<nat>)
  {
    Rectangular(z, m) && (forall i :: 0 <= i < |picks| ==> picks[i] < |z|) &&
    (forall c :: 0 <= c < |cols| ==> cols[c] < m) &&
    IsZero(Gather(SumRows(z, picks, m), cols))
  }

  /** The column vector CanteautChabaud starts from, 0, ..., n - 1, is the
      identity. */
  lemma IntervalIdentity(n: nat)
    ensures Interval(0, n) == Identity(n) && IsPermutation(Interval(0, n), n)
  {
    assert Interval(0, n) == Identity(n);
    IdentityIsPermutation(n);
  }

  /** A systematic reduced generator is the unit part beside its Z part
      under the identity column vector, so the main loop starts with Z,
      the columns 0..n-1 and the chain of generators in step. */
  lemma SystematicDescends(chain: Chain, k: nat, n: nat)
    requires |chain.gRed| == k && k <= n && Systematic(chain.gRed, n)
    requires Reaches(chain.gRed, chain.gaussPerm, chain.gRand, n) && Reaches(chain.gRand, chain.randPerm, chain.g, n)
    ensures Descends(ZPart(chain.gRed, k, n), k, n - k, Interval(0, n), chain.gaussPerm, chain.randPerm,
                     chain.gRed, chain.gRand, chain.g)
  {
    IntervalIdentity(n);
    SystematicSplit(chain.gRed, n);
    ReachesIdentity(chain.gRed, n);
  }

  /** A prepared generator with k < n gives the main loop its start: the
      columns 0..n-1 as a permutation, both recorded column vectors, and,
      when the generator is reduced, Z in step with the chain. */
  lemma LoopReady(chain: Chain, k: nat, n: nat)
    requires Prepared(chain, k, n) && k < n
    ensures |chain.gRed| == k && Rectangular(chain.gRed, n)
    ensures IsPermutation(Interval(0, n), k + (n - k))
    ensures Unpermutable(chain.gaussPerm, k + (n - k)) && Unpermutable(chain.randPerm, k + (n - k))
    ensures chain.reduced ==> Rectangular(chain.g, k + (n - k))
    ensures chain.reduced ==> Descends(ZPart(chain.gRed, k, n), k, n - k, Interval(0, n), chain.gaussPerm, chain.randPerm,
                                       chain.gRed, chain.gRand, chain.g)
  {
    PreparedFacts(chain, k, n);
    IntervalIdentity(n);
    if chain.reduced {
      SystematicDescends(chain, k, n);
    }
  }

  // ---------------------------------------------------------------------
  // The rounds

  /** Z has a 1 somewhere: DeltaGauss draws its pivot among these and
      draws forever when there is none. */
  predicate HasOne(z: seq<seq<bool>>)
  {
    exists a, b :: 0 <= a < |z| && 0 <= b < |z[a]| && z[a][b]
  }

  /** The pivot row of DeltaGauss stays, so Z keeps a 1 for the next
      round. */
  lemma DeltaKeepsOne(z: seq<seq<bool>>, m: nat, lambda: nat, mu: nat)
    requires Rectangular(z, m) && lambda < |z| && mu < m && z[lambda][mu]
    ensures HasOne(DeltaZ(z, m, lambda, mu))
  {
    DeltaKeepsPivot(z, m, lambda, mu);
    assert DeltaZ(z, m, lambda, mu)[lambda][mu];
  }

  /** DeltaGauss keeps the whole chain: the new Z, with the exchange of
      columns lambda and k + mu recorded in the column vector, descends from
      the input generator as the old one did, and has a 1. */
  lemma DeltaKeepsDescends(z: seq<seq<bool>>, k: nat, m: nat, lambda: nat, mu: nat, colsPerm: seq<nat>,
                           gaussPerm: seq<nat>, randPerm: seq<nat>, gRed: seq<seq<bool>>, gRand: seq<seq<bool>>, g: seq<seq<bool>>)
    requires Descends(z, k, m, colsPerm, gaussPerm, randPerm, gRed, gRand, g)
    requires lambda < k && mu < m && z[lambda][mu]
    ensures Descends(DeltaZ(z, m, lambda, mu), k, m, Swap(colsPerm, lambda, k + mu), gaussPerm, randPerm, gRed, gRand, g)
  {
    DeltaKeepsCode(z, k, m, lambda, mu, colsPerm, gRed);
  }

  /** Everything a round needs of Z after DeltaGauss: it still has a 1, the
      column vector is still a permutation, and on a reduced chain Z still
      descends from the input generator. */
  lemma DeltaKeepsRound(z: seq<seq<bool>>, k: nat, m: nat, lambda: nat, mu: nat, colsPerm: seq<nat>,
                        gaussPerm: seq<nat>, randPerm: seq<nat>, chain: Chain)
    requires Rectangular(z, m) && |z| == k && lambda < k && mu < m && z[lambda][mu]
    requires IsPermutation(colsPerm, k + m)
    requires chain.reduced ==> Descends(z, k, m, colsPerm, gaussPerm, randPerm, chain.gRed, chain.gRand, chain.g)
    ensures HasOne(DeltaZ(z, m, lambda, mu)) && IsPermutation(Swap(colsPerm, lambda, k + mu), k + m)
    ensures chain.reduced ==>
              Descends(DeltaZ(z, m, lambda, mu), k, m, Swap(colsPerm, lambda, k + mu), gaussPerm, randPerm, chain.gRed, chain.gRand, chain.g)
  {
    DeltaKeepsOne(z, m, lambda, mu);
    SwapPermutation(colsPerm, k + m, lambda, k + mu);
    if chain.reduced {
      DeltaKeepsDescends(z, k, m, lambda, mu, colsPerm, gaussPerm, randPerm, chain.gRed, chain.gRand, chain.g);
    }
  }

  /** What a stretch of probes leaves behind: the words accepted before it
      followed by those it accepted; m_vCombinedRows untouched when it
      accepted none, and naming rows that add up to zero on the sampled
      columns when it accepted one. */
  ghost predicate Extends(found0: seq<seq<bool>>, found: seq<seq<bool>>, combined0: seq<nat>, combined: seq<nat>,
                          z: seq<seq<bool>>, m: nat, cols: seq<nat>)
  {
    |found0| <= |found| && found[..|found0|] == found0 &&
    (|found| == |found0| ==> combined == combined0) &&
    (|found| > |found0| ==> Vanishes(z, m, combined, cols))
  }

  /** A candidate taken or passed over: when taken its rows, which vanish
      on the sampled columns, become the combined rows and its word is
      appended; otherwise nothing changes. */
  lemma ExtendsOffer(found0: seq<seq<bool>>, found: seq<seq<bool>>, combined0: seq<nat>, combined: seq<nat>,
                     z: seq<seq<bool>>, m: nat, cols: seq<nat>, picks: seq<nat>, word: seq<bool>, accepted: bool)
    requires accepted ==> combined == picks && found == found0 + [word]
    requires !accepted ==> combined == combined0 && found == found0
    requires Vanishes(z, m, picks, cols)
    ensures Extends(found0, found, combined0, combined, z, m, cols)
  {
    if accepted {
      assert found[..|found0|] == found0;
    }
  }

  lemma ExtendsTrans(found0: seq<seq<bool>>, found1: seq<seq<bool>>, found2: seq<seq<bool>>,
                     combined0: seq<nat>, combined1: seq<nat>, combined2: seq<nat>,
                     z: seq<seq<bool>>, m: nat, cols: seq<nat>)
    requires Extends(found0, found1, combined0, combined1, z, m, cols)
    requires Extends(found1, found2, combined1, combined2, z, m, cols)
    ensures Extends(found0, found2, combined0, combined2, z, m, cols)
  {
    assert found2[..|found0|] == found2[..|found1|][..|found0|];
  }

  /** The settings under which CanteautChabaud, on a generator of k rows
      and n columns, does something C++ leaves undefined: a table of
      1 << sigma buckets for sigma above 30; GaussMod2 as written reading
      the word past the end of a row when there are more rows than bits in
      whole words; and, as soon as one round runs, the loop bounds
      GetRows() - 1 and GetColumns() - 1 wrapping around below zero (fewer
      than two rows, or no column left for Z) or At64 reading rows without
      a bit (an empty sample with at least two rows per half). */
  predicate SearchUndefined(sigma: nat, iter: nat, k: nat, n: nat, corrected: bool)
  {
    sigma > 30 ||
    (k > 0 && n > 0 &&
     ((!corrected && k > Width(n)) ||
      (iter > 0 && (k < 2 || k >= n || (sigma == 0 && k >= 4)))))
  }

  /** Every row among the first k restored rows is a code word of the
      input generator. */
  lemma RestoredMemberInSpan(chain: Chain, n: nat, k: nat, x: seq<bool>)
    requires Rectangular(chain.gRed, n) && k <= |chain.gRed|
    requires Unpermutable(chain.gaussPerm, n) && Unpermutable(chain.randPerm, n)
    requires Reaches(chain.gRed, chain.gaussPerm, chain.gRand, n) && Reaches(chain.gRand, chain.randPerm, chain.g, n)
    requires x in RestoredRows(chain.gRed, n, chain.gaussPerm, chain.randPerm)[..k]
    ensures InSpan(x, chain.g, n)
  {
    var rows := RestoredRows(chain.gRed, n, chain.gaussPerm, chain.randPerm);
    var j :| 0 <= j < k && rows[..k][j] == x;
    assert x == Restored(chain.gRed[j], chain.gaussPerm, chain.randPerm);
    RestoredInSpan(chain.gRed, chain.gaussPerm, chain.randPerm, chain.gRand, chain.g, n, j);
  }

  /** The rows the corrected fallback scans are restored to the input's
      columns, so the row it returns and every row it writes is a code
      word of the input generator. */
  lemma FallbackInSpan(chain: Chain, n: nat, k: nat)
    requires Rectangular(chain.gRed, n) && k <= |chain.gRed|
    requires Unpermutable(chain.gaussPerm, n) && Unpermutable(chain.randPerm, n)
    requires Reaches(chain.gRed, chain.gaussPerm, chain.gRand, n) && Reaches(chain.gRand, chain.randPerm, chain.g, n)
    ensures var s := Lightest(RestoredRows(chain.gRed, n, chain.gaussPerm, chain.randPerm), k, Unset);
            (s.word != [] ==> InSpan(s.word, chain.g, n)) &&
            forall t :: 0 <= t < |s.log| ==> InSpan(s.log[t], chain.g, n)
  {
    var rows := RestoredRows(chain.gRed, n, chain.gaussPerm, chain.randPerm);
    var s := Lightest(rows, k, Unset);
    LightestLog(rows, k, Unset);
    forall t | 0 <= t < |s.log| ensures InSpan(s.log[t], chain.g, n) {
      RestoredMemberInSpan(chain, n, k, s.log[t]);
    }
    if s.word != [] {
      LightestIsFirstMinimum(rows, k, Unset);
      assert s.word == s.log[|s.log| - 1];
    }
  }

  /** Row 100 with columns 0 and 1 exchanged back is the row 010. */
  lemma ExchangedRowReaches()
    ensures Reaches([[true, false, false]], [1, 0, 2], [[false, true, false]], 3)
  {
    var g: seq<seq<bool>> := [[false, true, false]];
    var gRed: seq<seq<bool>> := [[true, false, false]];
    var p: seq<nat> := [1, 0, 2];
    assert g[..0] == [] && Combine(g[..0], [true][..0], 3) == Zeros(3);
    assert Combine(g, [true], 3) == g[0];
    var u := Unpermute(gRed[0], p);
    assert u[p[0]] == gRed[0][0] && u[p[1]] == gRed[0][1] && u[p[2]] == gRed[0][2];
    assert u == g[0];
    assert RowReaches(gRed, p, g, 3, 0);
  }

  /** The code of the single row 010 is {000, 010}: 100 is not in it. */
  lemma ExchangedRowOutside()
    ensures !InSpan([true, false, false], [[false, true, false]], 3)
  {
    var g: seq<seq<bool>> := [[false, true, false]];
    forall c | |c| == 1 ensures Combine(g, c, 3) != [true, false, false] {
      assert c[..0] == [];
      assert Combine(g, c, 3)[0] == false;
    }
  }

  /** The fallback as written returns a row of the reduced generator with
      its columns still exchanged. For the single row 010 of length 3,
      GaussMod2 exchanges columns 0 and 1 and leaves the systematic row 100;
      the fallback returns 100, which is neither 000 nor 010, so it is not a
      code word of the input. */
  lemma FallbackAsWrittenLeavesCode()
    ensures var g, gaussPerm, gRed := [[false, true, false]], [1, 0, 2], [[true, false, false]];
            Reaches(gRed, gaussPerm, g, 3) && Systematic(gRed, 3) &&
            Lightest(gRed, 1, Unset).word == [true, false, false] && !InSpan([true, false, false], g, 3)
  {
    var v: seq<bool> := [true, false, false];
    ExchangedRowReaches();
    ExchangedRowOutside();
    assert Count(v) == 1 by {
      assert v[1..] == [false, false] && v[1..][1..] == [false] && v[1..][1..][1..] == [];
    }
  }
}
