// CodeShortening (LowWeightSearch.cpp): which columns survive the deletions
// `DeleteColumn(vColumns[i] - i)` made in order for an ascending column
// list, and the rows the elimination leaves behind.

module Shortenings {
  import opened Bits
  import opened Reductions
  import opened Eliminations

  /** The column list CodeShortening needs: strictly ascending and inside
      the matrix, so that column vColumns[i] sits at vColumns[i] - i once
      the i columns before it are gone. */
  predicate Shortenable(cols: seq<nat>, n: nat)
  {
    (forall i, j :: 0 <= i < j < |cols| ==> cols[i] < cols[j]) &&
    forall i :: 0 <= i < |cols| ==> cols[i] < n
  }

  /** Strictly ascending naturals grow by at least one per step. */
  lemma {:induction false} Gap(cols: seq<nat>, n: nat, i: nat, j: nat)
    requires Shortenable(cols, n) && i <= j < |cols|
    ensures cols[j] - j >= cols[i] - i && cols[j] >= j
    decreases j
  {
    if i < j {
      Gap(cols, n, i, j - 1);
    } else if j > 0 {
      Gap(cols, n, 0, j - 1);
    }
  }

  /** Where column cols[j] sits after the deletions of cols[0..j]. */
  function Shift(cols: seq<nat>, n: nat, j: nat): (x: nat)
    requires Shortenable(cols, n) && j < |cols|
    ensures x == cols[j] - j && x < n - j
  {
    Gap(cols, n, j, j);
    cols[j] - j
  }

  /** The original column numbers of the columns left after the first i
      deletions. */
  function Survivors(cols: seq<nat>, n: nat, i: nat): (r: seq<nat>)
    requires Shortenable(cols, n) && i <= |cols|
    ensures |r| == n - i && forall x :: 0 <= x < |r| ==> r[x] < n
    decreases i
  {
    if i == 0 then Identity(n)
    else RemoveAt(Survivors(cols, n, i - 1), Shift(cols, n, i - 1))
  }

  /** How many of the first i deletions were at or below position x. */
  function Below(cols: seq<nat>, n: nat, i: nat, x: nat): (r: nat)
    requires Shortenable(cols, n) && i <= |cols|
    ensures r <= i
  {
    if i == 0 then 0 else Below(cols, n, i - 1, x) + (if Shift(cols, n, i - 1) <= x then 1 else 0)
  }

  lemma {:induction false} BelowAll(cols: seq<nat>, n: nat, i: nat, x: nat)
    requires Shortenable(cols, n) && i <= |cols|
    requires forall j :: 0 <= j < i ==> Shift(cols, n, j) <= x
    ensures Below(cols, n, i, x) == i
  {
    if i > 0 {
      BelowAll(cols, n, i - 1, x);
    }
  }

  lemma {:induction false} BelowAtLeast(cols: seq<nat>, n: nat, i: nat, x: nat, j: nat)
    requires Shortenable(cols, n) && j < i <= |cols| && Shift(cols, n, j) <= x
    ensures Below(cols, n, i, x) > j
  {
    if i - 1 > j {
      BelowAtLeast(cols, n, i - 1, x, j);
    } else {
      forall j' | 0 <= j' < j ensures Shift(cols, n, j') <= x {
        Gap(cols, n, j', j);
      }
      BelowAll(cols, n, j, x);
    }
  }

  lemma {:induction false} BelowAtMost(cols: seq<nat>, n: nat, i: nat, x: nat, j: nat)
    requires Shortenable(cols, n) && i <= |cols| && j < |cols| && Shift(cols, n, j) > x
    ensures Below(cols, n, i, x) <= j
  {
    if i > j {
      Gap(cols, n, j, i - 1);
      BelowAtMost(cols, n, i - 1, x, j);
    }
  }

  lemma {:induction false} BelowMonotone(cols: seq<nat>, n: nat, i: nat, x: nat, y: nat)
    requires Shortenable(cols, n) && i <= |cols| && x <= y
    ensures Below(cols, n, i, x) <= Below(cols, n, i, y)
  {
    if i > 0 {
      BelowMonotone(cols, n, i - 1, x, y);
    }
  }

  /** Survivor x after i deletions is column x moved up past the deleted
      columns below it. */
  lemma {:induction false} SurvivorsAt(cols: seq<nat>, n: nat, i: nat, x: nat)
    requires Shortenable(cols, n) && i <= |cols| && x < n - i
    ensures Survivors(cols, n, i)[x] == x + Below(cols, n, i, x)
  {
    if i > 0 {
      var p := Shift(cols, n, i - 1);
      var prev := Survivors(cols, n, i - 1);
      RemoveAtIndex(prev, p, x);
      assert Below(cols, n, i, x) == Below(cols, n, i - 1, x) + (if p <= x then 1 else 0);
      if x < p {
        SurvivorsAt(cols, n, i - 1, x);
      } else {
        SurvivorsAt(cols, n, i - 1, x + 1);
        forall j | 0 <= j < i - 1 ensures Shift(cols, n, j) <= x {
          Gap(cols, n, j, i - 1);
        }
        BelowAll(cols, n, i - 1, x);
        BelowAll(cols, n, i - 1, x + 1);
      }
    }
  }

  /** After all deletions the surviving columns are in ascending order,
      inside the matrix, and none of them is a listed column. */
  lemma SurvivorsAvoid(cols: seq<nat>, n: nat)
    requires Shortenable(cols, n)
    ensures forall x, y :: 0 <= x < y < n - |cols| ==> Survivors(cols, n, |cols|)[x] < Survivors(cols, n, |cols|)[y]
    ensures forall x :: 0 <= x < n - |cols| ==> Survivors(cols, n, |cols|)[x] < n && Survivors(cols, n, |cols|)[x] !in cols
  {
    var L, s := |cols|, Survivors(cols, n, |cols|);
    forall x, y | 0 <= x < y < |s| ensures s[x] < s[y] {
      SurvivorsAt(cols, n, L, x);
      SurvivorsAt(cols, n, L, y);
      BelowMonotone(cols, n, L, x, y);
    }
    forall x | 0 <= x < |s| ensures s[x] < n && s[x] !in cols {
      SurvivorsAt(cols, n, L, x);
      forall j | 0 <= j < L ensures s[x] != cols[j] {
        if Shift(cols, n, j) <= x {
          BelowAtLeast(cols, n, L, x, j);
        } else {
          BelowAtMost(cols, n, L, x, j);
        }
      }
    }
  }

  /** Deleting position x of a gathered row deletes the column the
      position refers to. */
  lemma GatherRemoveAt(s: seq<bool>, p: seq<nat>, x: nat)
    requires x < |p| && forall i :: 0 <= i < |p| ==> p[i] < |s|
    ensures RemoveAt(Gather(s, p), x) == Gather(s, RemoveAt(p, x))
  {
    var a, b := RemoveAt(Gather(s, p), x), Gather(s, RemoveAt(p, x));
    assert forall i :: 0 <= i < |a| ==> a[i] == b[i];
  }

  // ---------------------------------------------------------------------
  // The eliminated rows

  /** Every row is zero in the first j listed columns. */
  predicate Cleared(rows: seq<seq<bool>>, cols: seq<nat>, n: nat, j: nat)
    requires Rectangular(rows, n) && Shortenable(cols, n) && j <= |cols|
  {
    forall t, c :: 0 <= t < |rows| && 0 <= c < j ==> !rows[t][cols[c]]
  }

  /** The rows CodeShortening adds the pivot row to: every other row with a
      1 in the column. */
  function ColumnTests(rows: seq<seq<bool>>, pivot: nat, col: nat): (r: seq<bool>)
    requires forall t :: 0 <= t < |rows| ==> col < |rows[t]|
    ensures |r| == |rows|
  {
    seq(|rows|, t requires 0 <= t < |rows| => t != pivot && rows[t][col])
  }

  /** Adding rows to one another stays inside the row space. */
  lemma ReachesAddPivot(a: seq<seq<bool>>, g: seq<seq<bool>>, n: nat, pivot: nat, add: seq<bool>)
    requires Reaches(a, [], g, n) && pivot < |a| && |add| == |a|
    ensures Reaches(AddPivot(a, pivot, add, n), [], g, n)
  {
    var b := AddPivot(a, pivot, add, n);
    forall t | 0 <= t < |b| ensures RowReaches(b, [], g, n, t) {
      assert RowReaches(a, [], g, n, t) && RowReaches(a, [], g, n, pivot);
      if add[t] && t != pivot {
        SpanXor(g, a[t], a[pivot], n);
      }
    }
  }

  /** Dropping a row keeps the others inside the row space. */
  lemma ReachesRemoveAt(a: seq<seq<bool>>, g: seq<seq<bool>>, n: nat, r: nat)
    requires Reaches(a, [], g, n) && r < |a|
    ensures Reaches(RemoveAt(a, r), [], g, n)
  {
    var b := RemoveAt(a, r);
    forall t | 0 <= t < |b| ensures RowReaches(b, [], g, n, t) {
      var s := if t < r then t else t + 1;
      assert b[t] == a[s] && RowReaches(a, [], g, n, s);
    }
  }

  /** One round of CodeShortening with a pivot: the pivot row added to every
      other row with a 1 in column cols[j], then deleted, leaves every row
      zero in the first j + 1 listed columns. */
  lemma ClearedPivot(rows: seq<seq<bool>>, cols: seq<nat>, n: nat, j: nat, pivot: nat)
    requires Rectangular(rows, n) && Shortenable(cols, n) && j < |cols| && Cleared(rows, cols, n, j)
    requires pivot < |rows| && rows[pivot][cols[j]]
    ensures var b := RemoveAt(AddPivot(rows, pivot, ColumnTests(rows, pivot, cols[j]), n), pivot);
            Rectangular(b, n) && Cleared(b, cols, n, j + 1)
  {
    var a := AddPivot(rows, pivot, ColumnTests(rows, pivot, cols[j]), n);
    var b := RemoveAt(a, pivot);
    forall t, c | 0 <= t < |b| && 0 <= c < j + 1 ensures !b[t][cols[c]] {
      var s := if t < pivot then t else t + 1;
      assert b[t] == a[s] && s != pivot;
      assert !rows[pivot][cols[c]] || c == j;
    }
  }

  /** A round without a pivot: column cols[j] is zero already. */
  lemma ClearedNoPivot(rows: seq<seq<bool>>, cols: seq<nat>, n: nat, j: nat)
    requires Rectangular(rows, n) && Shortenable(cols, n) && j < |cols| && Cleared(rows, cols, n, j)
    requires forall t :: 0 <= t < |rows| ==> !rows[t][cols[j]]
    ensures Cleared(rows, cols, n, j + 1)
  {
  }

  /** The rows with only the columns left after the first i deletions of
      CodeShortening, row by row. */
  function ShortenedRows(rows0: seq<seq<bool>>, cols: seq<nat>, n: nat, i: nat): (r: seq<seq<bool>>)
    requires Rectangular(rows0, n) && Shortenable(cols, n) && i <= |cols|
    ensures i <= n && |r| == |rows0| && Rectangular(r, n - i)
  {
    var kept := Survivors(cols, n, i);
    assert |kept| == n - i;
    seq(|rows0|, t requires 0 <= t < |rows0| => Gather(rows0[t], kept))
  }

  // ---------------------------------------------------------------------
  // The shortened code

  /** v is zero in the first j listed columns. */
  predicate ZeroOn(v: seq<bool>, cols: seq<nat>, j: nat)
  {
    j <= |cols| && forall c :: 0 <= c < j ==> cols[c] < |v| && !v[cols[c]]
  }

  /** Every code word of rows0 that is zero in the first j listed columns
      is a combination of rows: the elimination has lost none of them. */
  ghost predicate Retains(rows0: seq<seq<bool>>, rows: seq<seq<bool>>, cols: seq<nat>, n: nat, j: nat)
  {
    Rectangular(rows0, n) && Rectangular(rows, n) &&
    forall v :: InSpan(v, rows0, n) && ZeroOn(v, cols, j) ==> InSpan(v, rows, n)
  }

  /** Listed column j is zero in every code word of rows0 that is zero in
      the columns listed before it: clearing it finds no pivot. */
  ghost predicate Forced(rows0: seq<seq<bool>>, cols: seq<nat>, n: nat, j: nat)
    requires Rectangular(rows0, n) && j < |cols|
  {
    forall v :: InSpan(v, rows0, n) && ZeroOn(v, cols, j) ==> cols[j] < |v| && !v[cols[j]]
  }

  /** Adding the pivot row to other rows loses no combination. */
  lemma AddPivotKeepsSpan(a: seq<seq<bool>>, pivot: nat, add: seq<bool>, n: nat, v: seq<bool>)
    requires Rectangular(a, n) && pivot < |a| && |add| == |a| && InSpan(v, a, n)
    ensures InSpan(v, AddPivot(a, pivot, add, n), n)
  {
    var b := AddPivot(a, pivot, add, n);
    forall t | 0 <= t < |a| ensures InSpan(a[t], b, n) {
      SpanRow(b, t, n);
      if add[t] && t != pivot {
        SpanRow(b, pivot, n);
        SpanXor(b, b[t], b[pivot], n);
        XorSelfInverse(a[t], a[pivot]);
      }
    }
    var c :| |c| == |a| && Combine(a, c, n) == v;
    SpanTransitive(a, b, c, n);
  }

  /** The only row with a 1 in column q can be dropped from the span of
      the code words that are zero in q. */
  lemma DropPivotKeepsSpan(b: seq<seq<bool>>, pivot: nat, n: nat, q: nat, v: seq<bool>)
    requires Rectangular(b, n) && pivot < |b| && q < n && b[pivot][q]
    requires forall t :: 0 <= t < |b| && t != pivot ==> !b[t][q]
    requires InSpan(v, b, n) && !v[q]
    ensures InSpan(v, RemoveAt(b, pivot), n)
  {
    var c :| |c| == |b| && Combine(b, c, n) == v;
    var rb, rc := RemoveAt(b, pivot), RemoveAt(c, pivot);
    CombineRemoveAt(b, c, pivot, n);
    forall t | 0 <= t < |rb| ensures !rb[t][q] {
      RemoveAtIndex(b, pivot, t);
    }
    CombineColumn(rb, rc, n, q);
    assert v[q] == c[pivot];
  }

  /** Clearing a column on a pivot keeps every code word zero in the
      columns cleared so far, and that column. */
  lemma RetainsPivot(rows0: seq<seq<bool>>, rows: seq<seq<bool>>, cols: seq<nat>, n: nat, j: nat, pivot: nat)
    requires Shortenable(cols, n) && j < |cols| && Retains(rows0, rows, cols, n, j)
    requires pivot < |rows| && rows[pivot][cols[j]]
    ensures var b := RemoveAt(AddPivot(rows, pivot, ColumnTests(rows, pivot, cols[j]), n), pivot);
            Retains(rows0, b, cols, n, j + 1)
  {
    var q := cols[j];
    var a := AddPivot(rows, pivot, ColumnTests(rows, pivot, q), n);
    forall t | 0 <= t < |a| && t != pivot ensures !a[t][q] {
    }
    forall v | InSpan(v, rows0, n) && ZeroOn(v, cols, j + 1) ensures InSpan(v, RemoveAt(a, pivot), n) {
      assert ZeroOn(v, cols, j) && !v[q];
      AddPivotKeepsSpan(rows, pivot, ColumnTests(rows, pivot, q), n, v);
      DropPivotKeepsSpan(a, pivot, n, q, v);
    }
  }

  /** A column with no 1 left in any row is forced to zero, and the rows
      still hold every code word zero in it. */
  lemma RetainsNoPivot(rows0: seq<seq<bool>>, rows: seq<seq<bool>>, cols: seq<nat>, n: nat, j: nat)
    requires Shortenable(cols, n) && j < |cols| && Retains(rows0, rows, cols, n, j)
    requires forall t :: 0 <= t < |rows| ==> !rows[t][cols[j]]
    ensures Retains(rows0, rows, cols, n, j + 1) && Forced(rows0, cols, n, j)
  {
    forall v | InSpan(v, rows0, n) && ZeroOn(v, cols, j) ensures cols[j] < |v| && !v[cols[j]] {
      var c :| |c| == |rows| && Combine(rows, c, n) == v;
      CombineColumn(rows, c, n, cols[j]);
    }
  }

  /** A row with a 1 in column j, zero in the columns before it and inside
      the row space, shows column j is not forced. */
  lemma PivotNotForced(rows0: seq<seq<bool>>, rows: seq<seq<bool>>, cols: seq<nat>, n: nat, j: nat, pivot: nat)
    requires Shortenable(cols, n) && j < |cols| && Reaches(rows, [], rows0, n) && Cleared(rows, cols, n, j)
    requires pivot < |rows| && rows[pivot][cols[j]]
    ensures !Forced(rows0, cols, n, j)
  {
    var v := rows[pivot];
    assert RowReaches(rows, [], rows0, n, pivot);
    assert InSpan(v, rows0, n) && ZeroOn(v, cols, j) && v[cols[j]];
  }

  /** The shortened code: the combinations of the shortened rows are
      exactly the code words of rows0 that are zero in every listed column,
      with those columns deleted. */
  lemma ShortenedCode(rows0: seq<seq<bool>>, reduced: seq<seq<bool>>, cols: seq<nat>, n: nat, w: seq<bool>)
    requires Shortenable(cols, n) && Reaches(reduced, [], rows0, n) && Cleared(reduced, cols, n, |cols|)
    requires Retains(rows0, reduced, cols, n, |cols|)
    ensures InSpan(w, ShortenedRows(reduced, cols, n, |cols|), n - |cols|) <==>
            exists v :: |v| == n && InSpan(v, rows0, n) && ZeroOn(v, cols, |cols|) && Gather(v, Survivors(cols, n, |cols|)) == w
  {
    var kept, s := Survivors(cols, n, |cols|), ShortenedRows(reduced, cols, n, |cols|);
    if InSpan(w, s, n - |cols|) {
      var c :| |c| == |s| && Combine(s, c, n - |cols|) == w;
      var v := Combine(reduced, c, n);
      GatherCombine(reduced, s, c, kept, n);
      assert InSpan(v, reduced, n);
      ReachesSpan(reduced, [], rows0, n, v);
      forall j | 0 <= j < |cols| ensures !v[cols[j]] {
        CombineColumn(reduced, c, n, cols[j]);
      }
      assert ZeroOn(v, cols, |cols|);
    }
    if exists v :: |v| == n && InSpan(v, rows0, n) && ZeroOn(v, cols, |cols|) && Gather(v, kept) == w {
      var v :| |v| == n && InSpan(v, rows0, n) && ZeroOn(v, cols, |cols|) && Gather(v, kept) == w;
      var c :| |c| == |reduced| && Combine(reduced, c, n) == v;
      GatherCombine(reduced, s, c, kept, n);
    }
  }

  /** Shortened on its last columns, a code word is a code word of rows0
      with its zero tail cut off. */
  lemma ShortenedLast(rows0: seq<seq<bool>>, reduced: seq<seq<bool>>, cols: seq<nat>, n: nat, w: seq<bool>)
    requires |cols| <= n && forall i :: 0 <= i < |cols| ==> cols[i] == n - |cols| + i
    requires Reaches(reduced, [], rows0, n) && Cleared(reduced, cols, n, |cols|)
    requires Retains(rows0, reduced, cols, n, |cols|)
    requires InSpan(w, ShortenedRows(reduced, cols, n, |cols|), n - |cols|)
    ensures exists v :: |v| == n && InSpan(v, rows0, n) && IsZero(v[n - |cols|..]) && v[..n - |cols|] == w
  {
    ShortenedCode(rows0, reduced, cols, n, w);
    var v :| |v| == n && InSpan(v, rows0, n) && ZeroOn(v, cols, |cols|) && Gather(v, Survivors(cols, n, |cols|)) == w;
    GatherLast(v, cols, n);
  }

  /** With the last columns listed, the survivors are the columns in front
      of them, in order. */
  lemma GatherLast(v: seq<bool>, cols: seq<nat>, n: nat)
    requires |v| == n && |cols| <= n && forall i :: 0 <= i < |cols| ==> cols[i] == n - |cols| + i
    requires ZeroOn(v, cols, |cols|)
    ensures Gather(v, Survivors(cols, n, |cols|)) == v[..n - |cols|] && IsZero(v[n - |cols|..])
  {
    var L := |cols|;
    var kept := Survivors(cols, n, L);
    forall x | 0 <= x < n - L ensures kept[x] == x {
      SurvivorsAt(cols, n, L, x);
      if L > 0 {
        BelowAtMost(cols, n, L, x, 0);
      }
    }
    forall i | n - L <= i < n ensures !v[i] {
      assert cols[i - (n - L)] == i;
    }
  }

  /** Survivors and listed columns together cover the whole matrix: a
      column that is not listed survives. */
  lemma SurvivorsCover(cols: seq<nat>, n: nat, c: nat)
    requires Shortenable(cols, n) && c < n && c !in cols
    ensures c in Survivors(cols, n, |cols|)
  {
    var s := Survivors(cols, n, |cols|);
    SurvivorsAvoid(cols, n);
    assert forall x, y :: 0 <= x < y < |s| ==> s[x] != s[y] by {
      forall x, y | 0 <= x < y < |s| ensures s[x] != s[y] {
        assert s[x] < s[y];
      }
    }
    DistinctSize(s);
    DistinctSize(cols);
    var all := Values(Identity(n));
    DistinctSize(Identity(n));
    if c !in s {
      var used := Values(s) + Values(cols);
      assert Values(s) !! Values(cols) by {
        forall v | v in Values(s) ensures v !in Values(cols) {
          var x :| 0 <= x < |s| && s[x] == v;
        }
      }
      assert |used| == n;
      forall v | v in used ensures v in all {
        assert v < n && Identity(n)[v] == v;
      }
      assert Identity(n)[c] == c;
      assert c in all && c !in used;
      assert used < all;
      SubsetSmaller(used, all);
    }
  }

  /** A row zero in the listed columns is determined by the surviving
      columns: shortening loses nothing but the zero columns. */
  lemma ShortenedDetermines(x: seq<bool>, y: seq<bool>, cols: seq<nat>, n: nat)
    requires Shortenable(cols, n) && |x| == n && |y| == n
    requires forall c :: 0 <= c < |cols| ==> !x[cols[c]] && !y[cols[c]]
    requires Gather(x, Survivors(cols, n, |cols|)) == Gather(y, Survivors(cols, n, |cols|))
    ensures x == y
  {
    var s := Survivors(cols, n, |cols|);
    forall c | 0 <= c < n ensures x[c] == y[c] {
      if c in cols {
        var i :| 0 <= i < |cols| && cols[i] == c;
      } else {
        SurvivorsCover(cols, n, c);
        var i :| 0 <= i < |s| && s[i] == c;
        assert Gather(x, s)[i] == Gather(y, s)[i];
      }
    }
  }
}
