// Bit strings over GF(2): the vocabulary every other module states its
// contracts in. A code word is a sequence of bits (most significant first, as
// CodeWord stores them), a matrix is a sequence of equal-length rows.

module Bits {

  /** A value, or none where the source has no value to give. */
  datatype Option<T> = None | Some(value: T)

  /** Number of set bits: the Hamming weight of a bit string. */
  function Count(s: seq<bool>): (r: nat)
    ensures r <= |s|
  {
    if |s| == 0 then 0 else Count(s[..|s| - 1]) + (if s[|s| - 1] then 1 else 0)
  }

  function Zeros(n: nat): (r: seq<bool>)
    ensures |r| == n && forall i :: 0 <= i < n ==> !r[i]
  {
    seq(n, i => false)
  }

  /** Unit vector e_r of length n. */
  function Unit(n: nat, r: nat): (u: seq<bool>)
    ensures |u| == n && forall i :: 0 <= i < n ==> u[i] == (i == r)
  {
    seq(n, i => i == r)
  }

  /** Addition over GF(2): position-wise exclusive or. */
  function Xor(a: seq<bool>, b: seq<bool>): (r: seq<bool>)
    requires |a| == |b|
    ensures |r| == |a| && forall i :: 0 <= i < |a| ==> r[i] == (a[i] != b[i])
  {
    seq(|a|, i requires 0 <= i < |a| => a[i] != b[i])
  }

  predicate IsZero(s: seq<bool>)
  {
    forall i :: 0 <= i < |s| ==> !s[i]
  }

  lemma {:induction false} CountZero(s: seq<bool>)
    ensures Count(s) == 0 <==> IsZero(s)
  {
    if |s| > 0 {
      CountZero(s[..|s| - 1]);
      assert forall i :: 0 <= i < |s| - 1 ==> s[..|s| - 1][i] == s[i];
    }
  }

  lemma {:induction false} CountAppend(a: seq<bool>, b: seq<bool>)
    ensures Count(a + b) == Count(a) + Count(b)
  {
    if |b| > 0 {
      assert (a + b)[..|a + b| - 1] == a + b[..|b| - 1];
      CountAppend(a, b[..|b| - 1]);
    } else {
      assert a + b == a;
    }
  }

  lemma CountZeros(n: nat)
    ensures Count(Zeros(n)) == 0
  {
    CountZero(Zeros(n));
  }

  /** Bitwise complement of a bit string. */
  function Flip(s: seq<bool>): (r: seq<bool>)
    ensures |r| == |s| && forall i :: 0 <= i < |s| ==> r[i] == !s[i]
  {
    seq(|s|, i requires 0 <= i < |s| => !s[i])
  }

  /** Complementing exchanges set and clear bits. */
  lemma {:induction false} CountFlip(s: seq<bool>)
    ensures Count(Flip(s)) == |s| - Count(s)
  {
    if |s| > 0 {
      assert Flip(s)[..|s| - 1] == Flip(s[..|s| - 1]);
      CountFlip(s[..|s| - 1]);
    }
  }

  /** s with position k removed; unchanged when k is past the end. */
  function RemoveAt<T>(s: seq<T>, k: nat): (r: seq<T>)
    ensures |r| == (if k < |s| then |s| - 1 else |s|)
  {
    if k < |s| then s[..k] + s[k + 1..] else s
  }

  /** Entry x of s with position k removed: entry x of s before k, the
      next one from k on. */
  lemma RemoveAtIndex<T>(s: seq<T>, k: nat, x: nat)
    requires k < |s| && x < |s| - 1
    ensures RemoveAt(s, k)[x] == if x < k then s[x] else s[x + 1]
  {
  }

  /** No value occurs twice. */
  predicate Distinct<T(==)>(s: seq<T>)
  {
    forall i, j :: 0 <= i < j < |s| ==> s[i] != s[j]
  }

  /** Growing s by one element: the element is dropped when it sits at k,
      and kept otherwise. */
  lemma RemoveAtSnoc<T>(s: seq<T>, x: T, k: nat)
    ensures RemoveAt(s + [x], k) == if k == |s| then RemoveAt(s, k) else RemoveAt(s, k) + [x]
  {
    if k < |s| {
      assert (s + [x])[k + 1..] == s[k + 1..] + [x];
    } else if k == |s| {
      assert (s + [x])[..k] == s;
    }
  }

  /** One more element of f: dropped when it sits at k, kept otherwise. */
  lemma RemoveAtStep<T>(f: seq<T>, p: nat, k: nat)
    requires p < |f|
    ensures RemoveAt(f[..p + 1], k) == if p == k then RemoveAt(f[..p], k) else RemoveAt(f[..p], k) + [f[p]]
  {
    assert f[..p + 1] == f[..p] + [f[p]];
    RemoveAtSnoc(f[..p], f[p], k);
  }

  /** Two sequences agreeing on a prefix and on the next element agree on
      the longer prefix. */
  lemma PrefixGrows<T>(a: seq<T>, b: seq<T>, i: nat, q: nat)
    requires i < |a| && i < |b| && q == i + 1 && a[..i] == b[..i] && a[i] == b[i]
    ensures a[..q] == b[..q]
  {
    assert a[..q] == a[..i] + [a[i]] && b[..q] == b[..i] + [b[i]];
  }

  /** One more element of s appended after pre + s[..i]. */
  lemma PrefixStep<T>(pre: seq<T>, s: seq<T>, i: nat, q: nat, before: seq<T>, after: seq<T>)
    requires i < |s| && q == i + 1 && before == pre + s[..i] && after == before + [s[i]]
    ensures after == pre + s[..q]
  {
    assert s[..q] == s[..i] + [s[i]];
  }

  /** Updating inside f is not disturbed by what follows f. */
  lemma UpdateAppend<T>(f: seq<T>, t: seq<T>, k: nat, x: T)
    requires k < |f|
    ensures (f + t)[k := x] == f[k := x] + t
  {
  }

  /** Cutting a piece out of f is not disturbed by what follows f. */
  lemma SliceAppend<T>(f: seq<T>, t: seq<T>, lo: nat, hi: nat)
    requires lo <= hi <= |f|
    ensures (f + t)[..lo] == f[..lo] && (f + t)[hi..] == f[hi..] + t
  {
  }

  lemma XorSelfInverse(a: seq<bool>, b: seq<bool>)
    requires |a| == |b|
    ensures Xor(Xor(a, b), b) == a
  {
  }

  lemma XorComm(a: seq<bool>, b: seq<bool>)
    requires |a| == |b|
    ensures Xor(a, b) == Xor(b, a)
  {
  }

  lemma XorAssoc(a: seq<bool>, b: seq<bool>, c: seq<bool>)
    requires |a| == |b| == |c|
    ensures Xor(Xor(a, b), c) == Xor(a, Xor(b, c))
  {
  }

  lemma XorZeros(a: seq<bool>)
    ensures Xor(a, Zeros(|a|)) == a
  {
  }

  lemma XorAppend(a: seq<bool>, b: seq<bool>, c: seq<bool>, d: seq<bool>)
    requires |a| == |c| && |b| == |d|
    ensures Xor(a + b, c + d) == Xor(a, c) + Xor(b, d)
  {
  }

  // ---------------------------------------------------------------------
  // Matrices

  /** Every row has n columns. */
  predicate Rectangular(m: seq<seq<bool>>, n: nat)
  {
    forall i :: 0 <= i < |m| ==> |m[i]| == n
  }

  /** The identity matrix, rows and columns counted from zero. */
  predicate Systematic(m: seq<seq<bool>>, n: nat)
  {
    Rectangular(m, n) && |m| <= n &&
    forall i, j :: 0 <= i < |m| && 0 <= j < |m| ==> m[i][j] == (i == j)
  }

  // ---------------------------------------------------------------------
  // Permutations of column positions

  /** p lists each of 0..n-1 exactly once. */
  predicate IsPermutation(p: seq<nat>, n: nat)
  {
    |p| == n &&
    (forall i :: 0 <= i < n ==> p[i] < n) &&
    (forall i, j :: 0 <= i < j < n ==> p[i] != p[j])
  }

  function Identity(n: nat): (p: seq<nat>)
    ensures |p| == n && forall i :: 0 <= i < n ==> p[i] == i
  {
    seq(n, i => i)
  }

  lemma IdentityIsPermutation(n: nat)
    ensures IsPermutation(Identity(n), n)
  {
  }

  function Swap<T>(s: seq<T>, i: nat, j: nat): (r: seq<T>)
    requires i < |s| && j < |s|
    ensures |r| == |s| && r[i] == s[j] && r[j] == s[i]
    ensures forall k :: 0 <= k < |s| && k != i && k != j ==> r[k] == s[k]
  {
    s[i := s[j]][j := s[i]]
  }

  lemma SwapPermutation(p: seq<nat>, n: nat, i: nat, j: nat)
    requires IsPermutation(p, n) && i < n && j < n
    ensures IsPermutation(Swap(p, i, j), n)
  {
    var q := Swap(p, i, j);
    forall a, b | 0 <= a < b < n ensures q[a] != q[b] {
      var a' := if a == i then j else if a == j then i else a;
      var b' := if b == i then j else if b == j then i else b;
      assert q[a] == p[a'] && q[b] == p[b'];
      assert a' != b';
      if a' > b' { assert p[b'] != p[a']; }
    }
  }

  /** Picks out columns: r[i] is column p[i] of s. */
  function Gather(s: seq<bool>, p: seq<nat>): (r: seq<bool>)
    requires forall i :: 0 <= i < |p| ==> p[i] < |s|
    ensures |r| == |p| && forall i :: 0 <= i < |p| ==> r[i] == s[p[i]]
  {
    seq(|p|, i requires 0 <= i < |p| => s[p[i]])
  }

  /** The position at which a permutation sends x. */
  function IndexOf(p: seq<nat>, n: nat, x: nat): (j: nat)
    requires IsPermutation(p, n) && x < n
    ensures j < n && p[j] == x
  {
    PermutationOnto(p, n, x);
    var j :| 0 <= j < n && p[j] == x; j
  }

  /** Puts columns back: r[p[j]] is s[j]; the inverse of Gather. */
  function Scatter(s: seq<bool>, p: seq<nat>): (r: seq<bool>)
    requires IsPermutation(p, |s|)
    ensures |r| == |s| && forall j {:trigger r[p[j]]} :: 0 <= j < |s| ==> r[p[j]] == s[j]
  {
    ScatterUpTo(s, p, |s|)
  }

  /** The first i columns put back. */
  function ScatterUpTo(s: seq<bool>, p: seq<nat>, i: nat): (r: seq<bool>)
    requires IsPermutation(p, |s|) && i <= |s|
    ensures |r| == i && forall j :: 0 <= j < |s| && p[j] < i ==> r[p[j]] == s[j]
  {
    if i == 0 then []
    else
      var j' := IndexOf(p, |s|, i - 1);
      var r := ScatterUpTo(s, p, i - 1) + [s[j']];
      assert forall j :: 0 <= j < |s| && p[j] == i - 1 ==> j == j';
      r
  }

  /** A permutation of 0..n-1 hits every value below n. */
  lemma PermutationOnto(p: seq<nat>, n: nat, x: nat)
    requires IsPermutation(p, n) && x < n
    ensures exists j :: 0 <= j < n && p[j] == x
  {
    var image, below := Values(p), Values(Identity(n));
    assert forall v :: v in p ==> v < n && Identity(n)[v] == v;
    assert image <= below;
    DistinctSize(p);
    DistinctSize(Identity(n));
    if x !in image {
      assert Identity(n)[x] == x;
      assert image < below;
      SubsetSmaller(image, below);
    }
  }

  function Values(q: seq<nat>): set<nat>
  {
    set v | v in q
  }

  /** A sequence without repetitions has as many distinct values as entries. */
  lemma {:induction false} DistinctSize(q: seq<nat>)
    requires forall i, j :: 0 <= i < j < |q| ==> q[i] != q[j]
    ensures |Values(q)| == |q|
  {
    if |q| > 0 {
      var q' := q[..|q| - 1];
      DistinctSize(q');
      assert q == q' + [q[|q| - 1]];
      assert Values(q) == Values(q') + {q[|q| - 1]};
      assert q[|q| - 1] !in Values(q');
    } else {
      assert Values(q) == {};
    }
  }

  lemma SubsetSmaller<T>(a: set<T>, b: set<T>)
    requires a < b
    ensures |a| < |b|
  {
    var x :| x in b && x !in a;
    assert a <= b - {x};
    SubsetSize(a, b - {x});
  }

  lemma {:induction false} SubsetSize<T>(a: set<T>, b: set<T>)
    requires a <= b
    ensures |a| <= |b|
    decreases |b|
  {
    if a != {} {
      var x :| x in a;
      SubsetSize(a - {x}, b - {x});
    }
  }

  lemma GatherScatter(s: seq<bool>, p: seq<nat>)
    requires IsPermutation(p, |s|)
    ensures Gather(Scatter(s, p), p) == s
  {
  }

  lemma ScatterGather(s: seq<bool>, p: seq<nat>)
    requires IsPermutation(p, |s|)
    ensures Scatter(Gather(s, p), p) == s
  {
    var r := Scatter(Gather(s, p), p);
    forall x | 0 <= x < |s| ensures r[x] == s[x] {
      var j := IndexOf(p, |s|, x);
      assert r[p[j]] == Gather(s, p)[j];
    }
  }

  lemma GatherXor(a: seq<bool>, b: seq<bool>, p: seq<nat>)
    requires |a| == |b| && forall i :: 0 <= i < |p| ==> p[i] < |a|
    ensures Gather(Xor(a, b), p) == Xor(Gather(a, p), Gather(b, p))
  {
  }

  lemma ScatterXor(a: seq<bool>, b: seq<bool>, p: seq<nat>)
    requires |a| == |b| && IsPermutation(p, |a|)
    ensures Scatter(Xor(a, b), p) == Xor(Scatter(a, p), Scatter(b, p))
  {
    var l, r := Scatter(Xor(a, b), p), Xor(Scatter(a, p), Scatter(b, p));
    forall x | 0 <= x < |a| ensures l[x] == r[x] {
      var j := IndexOf(p, |a|, x);
      assert l[p[j]] == Xor(a, b)[j];
    }
  }

  lemma ScatterZeros(n: nat, p: seq<nat>)
    requires IsPermutation(p, n)
    ensures Scatter(Zeros(n), p) == Zeros(n)
  {
    var l := Scatter(Zeros(n), p);
    forall x | 0 <= x < n ensures !l[x] {
      var j := IndexOf(p, n, x);
      assert l[p[j]] == Zeros(n)[j];
    }
  }

  /** Swapping two entries of the permutation swaps the gathered columns. */
  lemma GatherSwap(s: seq<bool>, p: seq<nat>, i: nat, j: nat)
    requires i < |p| && j < |p| && forall k :: 0 <= k < |p| ==> p[k] < |s|
    ensures Gather(s, Swap(p, i, j)) == Swap(Gather(s, p), i, j)
  {
  }

  // ---------------------------------------------------------------------
  // The row space of a matrix over GF(2)

  /** The sum of the rows of m selected by c. */
  function Combine(m: seq<seq<bool>>, c: seq<bool>, n: nat): (r: seq<bool>)
    requires |c| == |m| && Rectangular(m, n)
    ensures |r| == n
  {
    if |m| == 0 then Zeros(n)
    else
      var rest := Combine(m[..|m| - 1], c[..|c| - 1], n);
      if c[|c| - 1] then Xor(rest, m[|m| - 1]) else rest
  }

  ghost predicate InSpan(v: seq<bool>, m: seq<seq<bool>>, n: nat)
    requires Rectangular(m, n)
  {
    exists c :: |c| == |m| && Combine(m, c, n) == v
  }

  lemma {:induction false} CombineNone(m: seq<seq<bool>>, n: nat)
    requires Rectangular(m, n)
    ensures Combine(m, Zeros(|m|), n) == Zeros(n)
  {
    if |m| > 0 {
      assert Zeros(|m|)[..|m| - 1] == Zeros(|m| - 1);
      CombineNone(m[..|m| - 1], n);
    }
  }

  lemma {:induction false} CombineXor(m: seq<seq<bool>>, c: seq<bool>, d: seq<bool>, n: nat)
    requires |c| == |m| && |d| == |m| && Rectangular(m, n)
    ensures Combine(m, Xor(c, d), n) == Xor(Combine(m, c, n), Combine(m, d, n))
  {
    if |m| == 0 {
      XorZeros(Zeros(n));
    } else {
      var m', c', d' := m[..|m| - 1], c[..|c| - 1], d[..|d| - 1];
      assert Xor(c, d)[..|m| - 1] == Xor(c', d');
      CombineXor(m', c', d', n);
      var x, y := Combine(m', c', n), Combine(m', d', n);
      var last := m[|m| - 1];
      if c[|c| - 1] && d[|d| - 1] {
        assert Xor(Xor(x, last), Xor(y, last)) == Xor(x, y);
      } else if c[|c| - 1] {
        assert Xor(Xor(x, y), last) == Xor(Xor(x, last), y);
      } else if d[|d| - 1] {
        assert Xor(Xor(x, y), last) == Xor(x, Xor(y, last));
      }
    }
  }

  lemma {:induction false} CombineUnit(m: seq<seq<bool>>, i: nat, n: nat)
    requires i < |m| && Rectangular(m, n)
    ensures Combine(m, Unit(|m|, i), n) == m[i]
  {
    var m' := m[..|m| - 1];
    if i == |m| - 1 {
      assert Unit(|m|, i)[..|m| - 1] == Zeros(|m'|);
      CombineNone(m', n);
      XorComm(Zeros(n), m[i]);
      XorZeros(m[i]);
    } else {
      assert Unit(|m|, i)[..|m| - 1] == Unit(|m'|, i);
      CombineUnit(m', i, n);
    }
  }

  lemma SpanZero(m: seq<seq<bool>>, n: nat)
    requires Rectangular(m, n)
    ensures InSpan(Zeros(n), m, n)
  {
    CombineNone(m, n);
  }

  lemma SpanRow(m: seq<seq<bool>>, i: nat, n: nat)
    requires i < |m| && Rectangular(m, n)
    ensures InSpan(m[i], m, n)
  {
    CombineUnit(m, i, n);
  }

  lemma SpanXor(m: seq<seq<bool>>, v: seq<bool>, w: seq<bool>, n: nat)
    requires Rectangular(m, n) && InSpan(v, m, n) && InSpan(w, m, n)
    ensures InSpan(Xor(v, w), m, n)
  {
    var c :| |c| == |m| && Combine(m, c, n) == v;
    var d :| |d| == |m| && Combine(m, d, n) == w;
    CombineXor(m, c, d, n);
  }

  /** Every row of a lies in the span of b: then every combination of a does. */
  lemma {:induction false} SpanTransitive(a: seq<seq<bool>>, b: seq<seq<bool>>, c: seq<bool>, n: nat)
    requires Rectangular(a, n) && Rectangular(b, n) && |c| == |a|
    requires forall i :: 0 <= i < |a| ==> InSpan(a[i], b, n)
    ensures InSpan(Combine(a, c, n), b, n)
  {
    if |a| == 0 {
      SpanZero(b, n);
    } else {
      SpanTransitive(a[..|a| - 1], b, c[..|c| - 1], n);
      if c[|c| - 1] {
        SpanXor(b, Combine(a[..|a| - 1], c[..|c| - 1], n), a[|a| - 1], n);
      }
    }
  }

  /** Scattering is linear: it carries a combination of rows to the same
      combination of the scattered rows. */
  lemma {:induction false} ScatterCombine(m: seq<seq<bool>>, c: seq<bool>, p: seq<nat>, n: nat)
    requires Rectangular(m, n) && |c| == |m| && IsPermutation(p, n)
    ensures Scatter(Combine(m, c, n), p) == Combine(ScatterRows(m, p, n), c, n)
  {
    if |m| == 0 {
      ScatterZeros(n, p);
    } else {
      var m', c' := m[..|m| - 1], c[..|c| - 1];
      ScatterCombine(m', c', p, n);
      assert ScatterRows(m, p, n)[..|m| - 1] == ScatterRows(m', p, n);
      if c[|c| - 1] {
        ScatterXor(Combine(m', c', n), m[|m| - 1], p);
      }
    }
  }

  function ScatterRows(m: seq<seq<bool>>, p: seq<nat>, n: nat): (r: seq<seq<bool>>)
    requires Rectangular(m, n) && IsPermutation(p, n)
    ensures |r| == |m| && Rectangular(r, n)
    ensures forall i :: 0 <= i < |m| ==> r[i] == Scatter(m[i], p)
  {
    seq(|m|, i requires 0 <= i < |m| => Scatter(m[i], p))
  }

  /** The sum of a list of rows picked out by index. */
  function SumRows(m: seq<seq<bool>>, picks: seq<nat>, n: nat): (r: seq<bool>)
    requires Rectangular(m, n) && forall i :: 0 <= i < |picks| ==> picks[i] < |m|
    ensures |r| == n
  {
    if |picks| == 0 then Zeros(n)
    else Xor(SumRows(m, picks[..|picks| - 1], n), m[picks[|picks| - 1]])
  }

  lemma {:induction false} SumRowsInSpan(m: seq<seq<bool>>, picks: seq<nat>, n: nat)
    requires Rectangular(m, n) && forall i :: 0 <= i < |picks| ==> picks[i] < |m|
    ensures InSpan(SumRows(m, picks, n), m, n)
  {
    if |picks| == 0 {
      SpanZero(m, n);
    } else {
      SumRowsInSpan(m, picks[..|picks| - 1], n);
      SpanRow(m, picks[|picks| - 1], n);
      SpanXor(m, SumRows(m, picks[..|picks| - 1], n), m[picks[|picks| - 1]], n);
    }
  }

  /** A column that is zero in every row is zero in every combination. */
  lemma {:induction false} CombineColumn(m: seq<seq<bool>>, c: seq<bool>, n: nat, q: nat)
    requires Rectangular(m, n) && |c| == |m| && q < n
    requires forall t :: 0 <= t < |m| ==> !m[t][q]
    ensures !Combine(m, c, n)[q]
  {
    if |m| > 0 {
      CombineColumn(m[..|m| - 1], c[..|c| - 1], n, q);
    }
  }

  /** A combination is the combination of the other rows, plus row k where
      c selects it. */
  lemma {:induction false} CombineRemoveAt(m: seq<seq<bool>>, c: seq<bool>, k: nat, n: nat)
    requires Rectangular(m, n) && |c| == |m| && k < |m|
    ensures var x := Combine(RemoveAt(m, k), RemoveAt(c, k), n);
            Combine(m, c, n) == if c[k] then Xor(x, m[k]) else x
  {
    var L := |m| - 1;
    var m', c' := m[..L], c[..L];
    if k == L {
      assert RemoveAt(m, k) == m' && RemoveAt(c, k) == c';
    } else {
      var x := Combine(RemoveAt(m', k), RemoveAt(c', k), n);
      var rm, rc := RemoveAt(m, k), RemoveAt(c, k);
      var a, b, ca, cb := m[k], m[L], c[k], c[L];
      var whole, pre, rest := Combine(m, c, n), Combine(m', c', n), Combine(rm, rc, n);
      assert pre == if ca then Xor(x, a) else x by {
        CombineRemoveAt(m', c', k, n);
        assert m'[k] == a && c'[k] == ca;
      }
      assert rest == if cb then Xor(x, b) else x by {
        RemoveAtPrefix(m, k);
        RemoveAtPrefix(c, k);
      }
      assert whole == if cb then Xor(pre, b) else pre;
      SwapTails(whole, pre, rest, x, a, b, ca, cb);
    }
  }

  /** Removing entry k before the last entry keeps the last entry last. */
  lemma RemoveAtPrefix<T>(s: seq<T>, k: nat)
    requires k + 1 < |s|
    ensures var r := RemoveAt(s, k);
            |r| == |s| - 1 && r[..|r| - 1] == RemoveAt(s[..|s| - 1], k) && r[|r| - 1] == s[|s| - 1]
  {
  }

  /** Adding two optional rows in either order gives the same sum: whole
      adds a, then b, to x, and rest adds b alone. */
  lemma SwapTails(whole: seq<bool>, pre: seq<bool>, rest: seq<bool>, x: seq<bool>, a: seq<bool>, b: seq<bool>,
                  ca: bool, cb: bool)
    requires |x| == |a| == |b|
    requires pre == (if ca then Xor(x, a) else x) && whole == (if cb then Xor(pre, b) else pre)
    requires rest == if cb then Xor(x, b) else x
    ensures whole == if ca then Xor(rest, a) else rest
  {
    if ca && cb {
      XorAssoc(x, a, b);
      XorComm(a, b);
      XorAssoc(x, b, a);
    }
  }

  /** Gathering columns is linear: the combination of gathered rows is the
      gathered combination. */
  lemma {:induction false} GatherCombine(m: seq<seq<bool>>, gm: seq<seq<bool>>, c: seq<bool>, p: seq<nat>, n: nat)
    requires Rectangular(m, n) && |c| == |m| && forall i :: 0 <= i < |p| ==> p[i] < n
    requires |gm| == |m| && Rectangular(gm, |p|) && forall t :: 0 <= t < |m| ==> gm[t] == Gather(m[t], p)
    ensures Combine(gm, c, |p|) == Gather(Combine(m, c, n), p)
  {
    if |m| == 0 {
      assert Gather(Zeros(n), p) == Zeros(|p|);
    } else {
      var L := |m| - 1;
      GatherCombine(m[..L], gm[..L], c[..L], p, n);
      if c[L] {
        GatherXor(Combine(m[..L], c[..L], n), m[L], p);
      }
    }
  }

  // ---------------------------------------------------------------------
  // Independent rows

  /** No nonempty combination of the rows of m is zero: m has full row rank. */
  ghost predicate Independent(m: seq<seq<bool>>, n: nat)
    requires Rectangular(m, n)
  {
    forall c :: |c| == |m| && c != Zeros(|m|) ==> Combine(m, c, n) != Zeros(n)
  }

  /** A column with its only 1 in row i reads the coefficient of row i. */
  lemma {:induction false} CombineColumnOne(m: seq<seq<bool>>, c: seq<bool>, n: nat, q: nat, i: nat)
    requires Rectangular(m, n) && |c| == |m| && q < n && i < |m|
    requires forall t :: 0 <= t < |m| ==> m[t][q] == (t == i)
    ensures Combine(m, c, n)[q] == c[i]
  {
    var L := |m| - 1;
    if i == L {
      CombineColumn(m[..L], c[..L], n, q);
    } else {
      CombineColumnOne(m[..L], c[..L], n, q, i);
    }
  }

  /** Row i of mt is the combination t[i] of the rows of m. */
  ghost predicate RowsCombine(mt: seq<seq<bool>>, m: seq<seq<bool>>, t: seq<seq<bool>>, n: nat)
  {
    Rectangular(m, n) && Rectangular(t, |m|) && |mt| == |t| && Rectangular(mt, n) &&
    forall i :: 0 <= i < |t| ==> mt[i] == Combine(m, t[i], n)
  }

  /** Combining rows that are themselves combinations t[i] of m combines m
      by the combination of the t[i]. */
  lemma {:induction false} CombineCompose(m: seq<seq<bool>>, t: seq<seq<bool>>, mt: seq<seq<bool>>, c: seq<bool>, n: nat)
    requires RowsCombine(mt, m, t, n) && |c| == |t|
    ensures Combine(mt, c, n) == Combine(m, Combine(t, c, |m|), n)
  {
    if |t| == 0 {
      CombineNone(m, n);
    } else {
      var L := |t| - 1;
      CombineCompose(m, t[..L], mt[..L], c[..L], n);
      if c[L] {
        CombineXor(m, Combine(t[..L], c[..L], |m|), t[L], n);
      }
    }
  }

  /** Rows that are independent combinations of independent rows are
      independent. */
  lemma IndependentCompose(m: seq<seq<bool>>, t: seq<seq<bool>>, mt: seq<seq<bool>>, n: nat)
    requires RowsCombine(mt, m, t, n) && Independent(m, n) && Independent(t, |m|)
    ensures Independent(mt, n)
  {
    forall c | |c| == |mt| && c != Zeros(|mt|) ensures Combine(mt, c, n) != Zeros(n) {
      CombineCompose(m, t, mt, c, n);
    }
  }

  /** A zero row makes the rows dependent. */
  lemma ZeroRowDependent(m: seq<seq<bool>>, n: nat, i: nat)
    requires Rectangular(m, n) && i < |m| && m[i] == Zeros(n)
    ensures !Independent(m, n)
  {
    CombineUnit(m, i, n);
    assert Unit(|m|, i)[i] != Zeros(|m|)[i];
  }

  /** Gathering the columns through a permutation keeps the rows
      independent. */
  lemma IndependentGathered(m: seq<seq<bool>>, gm: seq<seq<bool>>, p: seq<nat>, n: nat)
    requires Rectangular(m, n) && IsPermutation(p, n) && Independent(m, n)
    requires |gm| == |m| && Rectangular(gm, n) && forall t :: 0 <= t < |m| ==> gm[t] == Gather(m[t], p)
    ensures Independent(gm, n)
  {
    forall c | |c| == |gm| && c != Zeros(|gm|) ensures Combine(gm, c, n) != Zeros(n) {
      var v := Combine(m, c, n);
      GatherCombine(m, gm, c, p, n);
      if Gather(v, p) == Zeros(n) {
        ScatterGather(v, p);
        ScatterZeros(n, p);
      }
    }
  }
}
