// RandomNumberGenerator (RandomNumberGenerator.h, RandomNumberGenerator.cpp):
// the draws the search makes. The Mersenne Twister behind it is not part of
// this model: the generator is given by its stream of 32-bit outputs for the
// seed, an oracle, and a position in that stream which every draw advances.

module RandomNumbers {
  import opened Bits

  const TwoTo32: nat := 0x1_0000_0000

  type Uint32 = x: nat | x < TwoTo32

  /** The 64-bit value getRandomPosInteger assembles from the outputs at k
      and k + 1: the first shifted into the high half, the second ORed into
      the low half. */
  function Draw(stream: nat -> nat, k: nat): (r: nat)
    ensures r < TwoTo32 * TwoTo32
  {
    (stream(k) % TwoTo32) * TwoTo32 + stream(k + 1) % TwoTo32
  }

  /** The candidates lo, ..., hi - 1 in order. */
  function Interval(lo: nat, hi: nat): (r: seq<nat>)
    requires lo <= hi
    ensures |r| == hi - lo && forall i :: 0 <= i < |r| ==> r[i] == lo + i
  {
    seq(hi - lo, i requires 0 <= i => lo + i)
  }

  lemma InInterval(lo: nat, hi: nat)
    requires lo <= hi
    ensures forall y :: y in Interval(lo, hi) <==> lo <= y < hi
  {
    forall y | lo <= y < hi ensures y in Interval(lo, hi) {
      assert Interval(lo, hi)[y - lo] == y;
    }
  }

  /** Where entry t of r + [c[k]] + RemoveAt(c, k) sits in r + c, for
      n == |r|. */
  function Moved(n: nat, k: nat, t: nat): nat
  {
    if t < n then t else if t == n then n + k else if t - n - 1 < k then t - 1 else t
  }

  lemma MovedAt(r: seq<nat>, c: seq<nat>, k: nat, t: nat)
    requires k < |c| && t < |r| + |c|
    ensures var a, b := r + c, (r + [c[k]]) + RemoveAt(c, k);
            Moved(|r|, k, t) < |a| && b[t] == a[Moved(|r|, k, t)]
  {
    if t > |r| && t - |r| - 1 >= k {
      assert RemoveAt(c, k)[t - |r| - 1] == c[t - |r|];
    }
  }

  /** Moving candidate k behind the drawn values keeps every value and
      introduces no repetition. */
  lemma MoveCandidate(r: seq<nat>, c: seq<nat>, k: nat)
    requires k < |c| && Distinct(r + c)
    ensures Distinct((r + [c[k]]) + RemoveAt(c, k))
  {
    var a, b := r + c, (r + [c[k]]) + RemoveAt(c, k);
    forall t, u | 0 <= t < u < |b| ensures b[t] != b[u] {
      MovedAt(r, c, k, t);
      MovedAt(r, c, k, u);
    }
  }

  lemma MoveCandidateValues(r: seq<nat>, c: seq<nat>, k: nat)
    requires k < |c|
    ensures forall x :: x in (r + [c[k]]) + RemoveAt(c, k) <==> x in r + c
  {
    var a, b := r + c, (r + [c[k]]) + RemoveAt(c, k);
    forall x | x in b ensures x in a {
      var t :| 0 <= t < |b| && b[t] == x;
      MovedAt(r, c, k, t);
    }
    forall x | x in a ensures x in b {
      var t :| 0 <= t < |a| && a[t] == x;
      if t < |r| {
        assert b[t] == x;
      } else if t == |r| + k {
        assert b[|r|] == x;
      } else if t < |r| + k {
        assert b[t + 1] == x;
      } else {
        assert b[t] == RemoveAt(c, k)[t - |r| - 1] == x;
      }
    }
  }

  /** A prefix of a sequence without repetitions has none. */
  lemma DistinctPrefix(r: seq<nat>, c: seq<nat>)
    requires Distinct(r + c)
    ensures Distinct(r)
  {
    forall t, u | 0 <= t < u < |r| ensures r[t] != r[u] {
      assert (r + c)[t] == r[t] && (r + c)[u] == r[u];
    }
  }

  class RandomNumberGenerator {
    /** The seed fixed by the constructor (read from /dev/urandom or the
        clock, which the model takes as a parameter). */
    const seed: Uint32
    /** The generator's 32-bit outputs for that seed, in order. */
    const stream: nat -> nat
    /** How many outputs the draws so far have consumed. */
    var position: nat

    constructor(s: Uint32, outputs: nat -> nat)
      ensures seed == s && stream == outputs && position == 0
    {
      seed, stream, position := s, outputs, 0;
    }

    /** getSeed: the seed of the constructor; no draw changes it. */
    function GetSeed(): (r: Uint32)
      ensures r == seed
    {
      seed
    }

    /** getRandomPosInteger(n): two outputs combined into a 64-bit value,
        reduced modulo n; so below n. */
    method GetRandomPosInteger(n: nat) returns (r: nat)
      modifies this
      requires n > 0
      ensures r < n && r == Draw(stream, old(position)) % n
      ensures position == old(position) + 2
    {
      var high := stream(position) % TwoTo32;
      var low := stream(position + 1) % TwoTo32;
      var t := high * TwoTo32 + low;
      r := t % n;
      position := position + 2;
    }

    /** getRandomPosVector(lb, ub, ln): ln distinct values from [lb, ub], or
        all of them when there are no more than ln; each is removed from the
        candidates once drawn. The draw at step i is below (ub - lb) - i, one
        less than the number of candidates left, so the last candidate, ub,
        is taken only at the step that exhausts the interval. */
    method GetRandomPosVector(lb: nat, ub: nat, ln: nat) returns (r: seq<nat>)
      modifies this
      requires lb <= ub
      ensures |r| == if ln <= ub - lb then ln else ub - lb + 1
      ensures Distinct(r) && forall x :: x in r ==> lb <= x <= ub
      ensures ln > ub - lb ==> forall x :: lb <= x <= ub ==> x in r
      ensures ln <= ub - lb ==> ub !in r
      ensures ln > ub - lb ==> r[|r| - 1] == ub
    {
      var candidates: seq<nat> := [];
      var x := lb;
      while x <= ub
        invariant lb <= x <= ub + 1 && candidates == Interval(lb, x)
      {
        candidates := candidates + [x];
        x := x + 1;
      }
      InInterval(lb, ub + 1);
      r := [];
      var i := 0;
      while i < ln
        invariant i <= ln && i <= ub - lb && |r| == i && |candidates| == ub - lb + 1 - i
        invariant Distinct(r + candidates)
        invariant forall y :: y in r + candidates <==> lb <= y <= ub
        invariant candidates[|candidates| - 1] == ub && ub !in r
      {
        if ub - lb - i <= 0 {
          assert candidates == [candidates[0]];
          r := r + [candidates[0]];
          assert |r| == ub - lb + 1 && ln > ub - lb;
          return;
        }
        var k := GetRandomPosInteger((ub - lb) - i);
        MoveCandidate(r, candidates, k);
        MoveCandidateValues(r, candidates, k);
        ghost var last := |candidates| - 1;
        assert (r + candidates)[|r| + k] == candidates[k] && (r + candidates)[|r| + last] == ub;
        r, candidates := r + [candidates[k]], RemoveAt(candidates, k);
        i := i + 1;
      }
      DistinctPrefix(r, candidates);
      assert forall y :: y in r ==> y in r + candidates;
    }
  }
}
