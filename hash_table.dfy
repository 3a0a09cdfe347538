// The bucket table of the Canteaut-Chabaud search (LowWeightSearch.cpp): the
// rows of Z1, and the sums of two of them, filed under the value of their
// sampled columns, and the probes that look up the rows of Z2 and the sums of
// two of them. Keys are the words At64(i, 0) hands out, read as numbers; the
// bucket array of 2^sigma chains is a map from key to the chain, head first.

module HashTables {
  import opened Bits
  import opened Words
  import opened CodeWords
  import opened CodeMatrices

  /** HashTableRecord: row row1 of Z1 alone (rows 1, row2 0), or rows row1
      and row2 (rows 2). The chain link is the order of the bucket. */
  datatype Record = Record(row1: nat, row2: nat, rows: nat)

  /** Present keys are the non-NULL buckets; a chain lists its records
      from the head. */
  type Table = map<nat, seq<Record>>

  // ---------------------------------------------------------------------
  // Keys

  /** The key of a row of at most 64 bits: At64(i, 0), the bits right-aligned
      behind zeros, as a number. */
  function KeyOf(row: seq<bool>): (key: nat)
    requires 0 < |row| <= 64
    ensures key < Pow2(|row|)
  {
    WordOfBitsValue(row, 0);
    assert row[0..|row|] == row;
    Value(WordOfBits(row, 0))
  }

  /** The key of two rows: `At64(i, 0) ^ At64(j, 0)`. */
  function PairKey(a: seq<bool>, b: seq<bool>): nat
    requires 0 < |a| == |b| <= 64
  {
    Value(XorWord(WordOfBits(a, 0), WordOfBits(b, 0)))
  }

  /** The XOR of the keys of two rows is the key of their sum, so it is
      below 2^|a| as well. */
  lemma PairKeyOfSum(a: seq<bool>, b: seq<bool>)
    requires 0 < |a| == |b| <= 64
    ensures PairKey(a, b) == KeyOf(Xor(a, b)) < Pow2(|a|)
  {
    var p := 64 - |a|;
    WordOfShortRow(a);
    WordOfShortRow(b);
    WordOfShortRow(Xor(a, b));
    XorAppend(Zeros(p), a, Zeros(p), b);
    assert Xor(Zeros(p), Zeros(p)) == Zeros(p);
  }

  /** The word of a short row is the row behind 64 - |row| zeros. */
  lemma WordOfShortRow(row: seq<bool>)
    requires 0 < |row| <= 64
    ensures WordOfBits(row, 0) == Zeros(64 - |row|) + row
  {
    if |row| == 64 {
      assert row[0..64] == row;
    }
  }

  /** Equal keys of rows of one length mean equal rows. */
  lemma KeyInjective(a: seq<bool>, b: seq<bool>)
    requires 0 < |a| == |b| <= 64 && KeyOf(a) == KeyOf(b)
    ensures a == b
  {
    WordOfShortRow(a);
    WordOfShortRow(b);
    ValueInjective(WordOfBits(a, 0), WordOfBits(b, 0));
    var p := 64 - |a|;
    assert a == (Zeros(p) + a)[p..] && b == (Zeros(p) + b)[p..];
  }

  lemma {:induction false} Pow2Monotone(a: nat, b: nat)
    requires a <= b
    ensures Pow2(a) <= Pow2(b)
  {
    if a < b {
      Pow2Monotone(a, b - 1);
    }
  }

  // ---------------------------------------------------------------------
  // What the table holds

  /** rec may sit in the bucket of key: a single row other than the last
      one of Z1, or two rows of Z1 in increasing order, whose key is key. */
  predicate Fits(rec: Record, key: nat, z1: seq<seq<bool>>, s: nat)
  {
    Rectangular(z1, s) && 0 < s <= 64 &&
    if rec.rows == 1 then rec.row2 == 0 && rec.row1 + 1 < |z1| && KeyOf(z1[rec.row1]) == key
    else rec.rows == 2 && rec.row1 < rec.row2 < |z1| && PairKey(z1[rec.row1], z1[rec.row2]) == key
  }

  /** Record i of the bucket of key, if there is one, fits there. */
  predicate Filed(t: Table, z1: seq<seq<bool>>, s: nat, key: nat, i: nat)
  {
    key in t && i < |t[key]| ==> Fits(t[key][i], key, z1, s)
  }

  /** Every bucket present is below 2^sigma and non-empty, and every record
      fits its bucket. */
  ghost predicate Consistent(t: Table, z1: seq<seq<bool>>, s: nat, sigma: nat)
  {
    (forall key :: key in t ==> key < Pow2(sigma) && |t[key]| > 0) &&
    forall key: nat, i: nat :: Filed(t, z1, s, key, i)
  }

  /** The bucket of key holds rec. */
  predicate Holds(t: Table, key: nat, rec: Record)
  {
    key in t && rec in t[key]
  }

  /** The records of the single rows below singles (the last row of Z1
      never gets one) and of the pairs whose first row is below i, or is i
      with the second row below j, are filed. */
  ghost predicate FiledUpTo(t: Table, z1: seq<seq<bool>>, s: nat, singles: nat, i: nat, j: nat)
    requires Rectangular(z1, s) && 0 < s <= 64
  {
    (forall a :: 0 <= a < singles && a + 1 < |z1| ==> Holds(t, KeyOf(z1[a]), Record(a, 0, 1))) &&
    (forall a, b :: 0 <= a < b < |z1| && (a < i || (a == i && b < j)) ==>
       Holds(t, PairKey(z1[a], z1[b]), Record(a, b, 2)))
  }

  /** Every single row but the last and every pair of rows is filed. */
  ghost predicate Complete(t: Table, z1: seq<seq<bool>>, s: nat)
    requires Rectangular(z1, s) && 0 < s <= 64
  {
    FiledUpTo(t, z1, s, |z1|, |z1|, 0)
  }

  /** The record becomes the head of its bucket, the chain behind it. */
  function Insert(t: Table, key: nat, rec: Record): (r: Table)
    ensures key in r && |r[key]| > 0 && r[key][0] == rec
    ensures r[key][1..] == if key in t then t[key] else []
    ensures forall k :: k in t ==> k in r && (k != key ==> r[k] == t[k])
  {
    t[key := [rec] + (if key in t then t[key] else [])]
  }

  lemma InsertKeeps(t: Table, z1: seq<seq<bool>>, s: nat, sigma: nat, key: nat, rec: Record)
    requires Consistent(t, z1, s, sigma) && Fits(rec, key, z1, s) && key < Pow2(sigma)
    ensures Consistent(Insert(t, key, rec), z1, s, sigma)
    ensures forall k, r :: Holds(t, k, r) ==> Holds(Insert(t, key, rec), k, r)
    ensures Holds(Insert(t, key, rec), key, rec)
  {
    var t' := Insert(t, key, rec);
    forall k: nat, i: nat ensures Filed(t', z1, s, k, i) {
      if k == key && k in t && 0 < i < |t'[k]| {
        assert t'[k][i] == t[k][i - 1];
        assert Filed(t, z1, s, k, i - 1);
      } else if k != key {
        assert Filed(t, z1, s, k, i);
      }
    }
    forall k, r | Holds(t, k, r) ensures Holds(t', k, r) {
      if k == key {
        assert r in t'[k][1..];
      }
    }
  }

  // ---------------------------------------------------------------------
  // The order of the fill

  /** The records of the pairs (i, i + 1), ..., (i, j - 1), in the order
      the inner loop of the fill pushes them. */
  function PairsUpTo(i: nat, j: nat): seq<Record>
  {
    if j <= i + 1 then [] else PairsUpTo(i, j - 1) + [Record(i, j - 1, 2)]
  }

  /** The records the fill pushes for the rows before i of a Z1 of n rows:
      for each row, its single-row record, then its pairs. */
  function RowsUpTo(i: nat, n: nat): seq<Record>
  {
    if i == 0 then [] else RowsUpTo(i - 1, n) + [Record(i - 1, 0, 1)] + PairsUpTo(i - 1, n)
  }

  /** The records the fill pushes for a Z1 of n rows, in order; the last
      row gets no single-row record. */
  function FillOrder(n: nat): seq<Record>
  {
    if n == 0 then [] else RowsUpTo(n - 1, n)
  }

  /** The bucket a record is filed under: the key of its row or of its
      two rows (0 for a record naming no row of Z1). */
  function RecordKey(rec: Record, z1: seq<seq<bool>>, s: nat): nat
    requires Rectangular(z1, s) && 0 < s <= 64
  {
    if rec.rows == 2 && rec.row1 < |z1| && rec.row2 < |z1| then PairKey(z1[rec.row1], z1[rec.row2])
    else if rec.rows != 2 && rec.row1 < |z1| then KeyOf(z1[rec.row1])
    else 0
  }

  /** The table after pushing recs, in order, onto the front of their
      buckets, starting from the empty table. */
  function TableOf(recs: seq<Record>, z1: seq<seq<bool>>, s: nat): Table
    requires Rectangular(z1, s) && 0 < s <= 64
  {
    if |recs| == 0 then map[]
    else
      var last := recs[|recs| - 1];
      Insert(TableOf(recs[..|recs| - 1], z1, s), RecordKey(last, z1, s), last)
  }

  /** The records of recs filed under key, the last pushed first. */
  function Bucket(recs: seq<Record>, key: nat, z1: seq<seq<bool>>, s: nat): seq<Record>
    requires Rectangular(z1, s) && 0 < s <= 64
  {
    if |recs| == 0 then []
    else
      var last := recs[|recs| - 1];
      var rest := Bucket(recs[..|recs| - 1], key, z1, s);
      if RecordKey(last, z1, s) == key then [last] + rest else rest
  }

  /** Pushing the records one by one builds the buckets: a key is present
      exactly when some record is filed under it, and its chain lists
      those records, the last pushed first. */
  lemma {:induction false} TableBuckets(recs: seq<Record>, z1: seq<seq<bool>>, s: nat, key: nat)
    requires Rectangular(z1, s) && 0 < s <= 64
    ensures key in TableOf(recs, z1, s) <==> Bucket(recs, key, z1, s) != []
    ensures key in TableOf(recs, z1, s) ==> TableOf(recs, z1, s)[key] == Bucket(recs, key, z1, s)
  {
    if |recs| > 0 {
      TableBuckets(recs[..|recs| - 1], z1, s, key);
    }
  }

  /** The head of a non-empty bucket is the last record of recs filed
      under its key. */
  lemma {:induction false} BucketHead(recs: seq<Record>, z1: seq<seq<bool>>, s: nat, key: nat)
    requires Rectangular(z1, s) && 0 < s <= 64 && Bucket(recs, key, z1, s) != []
    ensures exists p :: 0 <= p < |recs| && recs[p] == Bucket(recs, key, z1, s)[0] && RecordKey(recs[p], z1, s) == key &&
                        forall q :: p < q < |recs| ==> RecordKey(recs[q], z1, s) != key
  {
    var last := |recs| - 1;
    if RecordKey(recs[last], z1, s) != key {
      var init := recs[..last];
      BucketHead(init, z1, s, key);
      var p :| 0 <= p < |init| && init[p] == Bucket(init, key, z1, s)[0] && RecordKey(init[p], z1, s) == key &&
               forall q :: p < q < |init| ==> RecordKey(init[q], z1, s) != key;
      assert recs[p] == init[p];
      forall q | p < q < |recs| ensures RecordKey(recs[q], z1, s) != key {
        if q < last {
          assert recs[q] == init[q];
        }
      }
    }
  }

  /** The bucket the fill leaves under a key present in it starts with the
      record pushed last in the fill order among those filed under that
      key: the one record the probes of the search look at. */
  lemma FilledHead(z1: seq<seq<bool>>, s: nat, key: nat)
    requires Rectangular(z1, s) && 0 < s <= 64 && key in TableOf(FillOrder(|z1|), z1, s)
    ensures var recs, t := FillOrder(|z1|), TableOf(FillOrder(|z1|), z1, s);
            0 < |t[key]| &&
            exists p :: 0 <= p < |recs| && recs[p] == t[key][0] && RecordKey(recs[p], z1, s) == key &&
                        forall q :: p < q < |recs| ==> RecordKey(recs[q], z1, s) != key
  {
    var recs := FillOrder(|z1|);
    TableBuckets(recs, z1, s, key);
    BucketHead(recs, z1, s, key);
  }

  /** Pushing one more record onto the table of recs. */
  lemma TableOfPush(recs: seq<Record>, rec: Record, z1: seq<seq<bool>>, s: nat)
    requires Rectangular(z1, s) && 0 < s <= 64
    ensures TableOf(recs + [rec], z1, s) == Insert(TableOf(recs, z1, s), RecordKey(rec, z1, s), rec)
  {
    assert (recs + [rec])[..|recs|] == recs;
  }

  // ---------------------------------------------------------------------
  // Filling the table

  /** Files a single row under its key, as the outer loop of the fill
      does. */
  lemma FileSingle(t: Table, z1: seq<seq<bool>>, s: nat, sigma: nat, i: nat)
    requires Rectangular(z1, s) && 0 < s <= 64 && s <= sigma && i + 1 < |z1|
    requires Consistent(t, z1, s, sigma) && FiledUpTo(t, z1, s, i, i, 0)
    ensures KeyOf(z1[i]) < Pow2(sigma)
    ensures var t' := Insert(t, KeyOf(z1[i]), Record(i, 0, 1));
            Consistent(t', z1, s, sigma) && FiledUpTo(t', z1, s, i + 1, i, i + 1)
  {
    var key := KeyOf(z1[i]);
    Pow2Monotone(s, sigma);
    InsertKeeps(t, z1, s, sigma, key, Record(i, 0, 1));
  }

  /** Files the pair of rows i and j under the XOR of their keys, as the
      inner loop of the fill does. */
  lemma FilePair(t: Table, z1: seq<seq<bool>>, s: nat, sigma: nat, i: nat, j: nat)
    requires Rectangular(z1, s) && 0 < s <= 64 && s <= sigma && i < j < |z1|
    requires Consistent(t, z1, s, sigma) && FiledUpTo(t, z1, s, i + 1, i, j)
    ensures PairKey(z1[i], z1[j]) < Pow2(sigma)
    ensures var t' := Insert(t, PairKey(z1[i], z1[j]), Record(i, j, 2));
            Consistent(t', z1, s, sigma) && FiledUpTo(t', z1, s, i + 1, i, j + 1)
  {
    var key := PairKey(z1[i], z1[j]);
    PairKeyOfSum(z1[i], z1[j]);
    Pow2Monotone(s, sigma);
    InsertKeeps(t, z1, s, sigma, key, Record(i, j, 2));
  }

  /** Passing from row i to row i + 1 once the pairs of row i are filed. */
  lemma NextRow(t: Table, z1: seq<seq<bool>>, s: nat, i: nat)
    requires Rectangular(z1, s) && 0 < s <= 64 && i < |z1|
    requires FiledUpTo(t, z1, s, i + 1, i, |z1|)
    ensures FiledUpTo(t, z1, s, i + 1, i + 1, 0)
  {
  }

  /** The fill of lines 119-142 into the empty table: for every row i of Z1
      but the last, its single-row record, then the records of the pairs
      (i, j) for j > i, each pushed in front of its bucket's chain. The key
      of every record is below 2^sigma, the size of the bucket array, and
      the table is that of the records pushed in FillOrder, so the head of
      each bucket is the record filed last under its key (FilledHead). */
  method FillTable(z1: CodeMatrix, sigma: nat) returns (t: Table)
    requires z1.Valid() && |z1.rows| > 0 && 0 < z1.GetColumns() <= sigma && sigma <= 64
    ensures Consistent(t, z1.rows, z1.GetColumns(), sigma) && Complete(t, z1.rows, z1.GetColumns())
    ensures t == TableOf(FillOrder(|z1.rows|), z1.rows, z1.GetColumns())
  {
    ghost var s, n := z1.GetColumns(), |z1.rows|;
    t := map[];
    var i := 0;
    while i < z1.GetRows() - 1
      invariant i <= |z1.rows| - 1
      invariant Consistent(t, z1.rows, s, sigma) && FiledUpTo(t, z1.rows, s, i, i, 0)
      invariant t == TableOf(RowsUpTo(i, n), z1.rows, s)
    {
      t := FillRow(z1, sigma, i, t);
      i := i + 1;
    }
  }

  /** One pass of the outer loop of the fill, for row i of Z1 (not the
      last): its single-row record, then the records of the pairs (i, j)
      for j > i. */
  method FillRow(z1: CodeMatrix, sigma: nat, i: nat, t: Table) returns (t': Table)
    requires z1.Valid() && 0 < z1.GetColumns() <= sigma && sigma <= 64 && i + 1 < |z1.rows|
    requires Consistent(t, z1.rows, z1.GetColumns(), sigma) && FiledUpTo(t, z1.rows, z1.GetColumns(), i, i, 0)
    requires t == TableOf(RowsUpTo(i, |z1.rows|), z1.rows, z1.GetColumns())
    ensures Consistent(t', z1.rows, z1.GetColumns(), sigma) && FiledUpTo(t', z1.rows, z1.GetColumns(), i + 1, i + 1, 0)
    ensures t' == TableOf(RowsUpTo(i + 1, |z1.rows|), z1.rows, z1.GetColumns())
  {
    ghost var s, n, rows := z1.GetColumns(), |z1.rows|, z1.rows;
    var key := Value(z1.At64(i, 0));
    FileSingle(t, rows, s, sigma, i);
    TableOfPush(RowsUpTo(i, n), Record(i, 0, 1), rows, s);
    t' := FillPairs(z1, sigma, i, Insert(t, key, Record(i, 0, 1)));
    NextRow(t', rows, s, i);
  }

  /** The inner loop of the fill for row i: the records of the pairs
      (i, j) for j > i, each pushed in front of its bucket's chain. */
  method FillPairs(z1: CodeMatrix, sigma: nat, i: nat, t: Table) returns (t': Table)
    requires z1.Valid() && 0 < z1.GetColumns() <= sigma && sigma <= 64 && i + 1 < |z1.rows|
    requires Consistent(t, z1.rows, z1.GetColumns(), sigma) && FiledUpTo(t, z1.rows, z1.GetColumns(), i + 1, i, i + 1)
    requires t == TableOf(RowsUpTo(i, |z1.rows|) + [Record(i, 0, 1)], z1.rows, z1.GetColumns())
    ensures Consistent(t', z1.rows, z1.GetColumns(), sigma) && FiledUpTo(t', z1.rows, z1.GetColumns(), i + 1, i, |z1.rows|)
    ensures t' == TableOf(RowsUpTo(i + 1, |z1.rows|), z1.rows, z1.GetColumns())
  {
    ghost var s, n, rows := z1.GetColumns(), |z1.rows|, z1.rows;
    ghost var before := RowsUpTo(i, n) + [Record(i, 0, 1)];
    assert before + PairsUpTo(i, i + 1) == before;
    t' := t;
    var j := i + 1;
    while j < z1.GetRows()
      invariant i < j <= n
      invariant Consistent(t', rows, s, sigma) && FiledUpTo(t', rows, s, i + 1, i, j)
      invariant t' == TableOf(before + PairsUpTo(i, j), rows, s)
    {
      var key := Value(XorWord(z1.At64(i, 0), z1.At64(j, 0)));
      assert key == PairKey(rows[i], rows[j]);
      FilePair(t', rows, s, sigma, i, j);
      var q := j + 1;
      PairPush(before, rows, s, i, j, q);
      t' := Insert(t', key, Record(i, j, 2));
      j := q;
    }
    assert j == n;
    RowsUpToNext(i, n);
  }

  /** The records pushed for the rows before i + 1. */
  lemma RowsUpToNext(i: nat, n: nat)
    ensures RowsUpTo(i + 1, n) == RowsUpTo(i, n) + [Record(i, 0, 1)] + PairsUpTo(i, n)
  {
  }

  /** Pushing the pair (i, j) after the pairs before it. */
  lemma PairPush(before: seq<Record>, z1: seq<seq<bool>>, s: nat, i: nat, j: nat, q: nat)
    requires Rectangular(z1, s) && 0 < s <= 64 && i < j < |z1| && q == j + 1
    ensures TableOf(before + PairsUpTo(i, q), z1, s) ==
            Insert(TableOf(before + PairsUpTo(i, j), z1, s), PairKey(z1[i], z1[j]), Record(i, j, 2))
  {
    assert before + PairsUpTo(i, q) == (before + PairsUpTo(i, j)) + [Record(i, j, 2)];
    TableOfPush(before + PairsUpTo(i, j), Record(i, j, 2), z1, s);
  }

  // ---------------------------------------------------------------------
  // Probing

  /** The rows of Z1 a record names, added up. */
  function RecordSum(rec: Record, z1: seq<seq<bool>>, s: nat): (r: seq<bool>)
    requires Rectangular(z1, s) && rec.row1 < |z1| && (rec.rows == 2 ==> rec.row2 < |z1|)
    ensures |r| == s
  {
    if rec.rows == 2 then Xor(z1[rec.row1], z1[rec.row2]) else z1[rec.row1]
  }

  /** A probe with a row of Z2 (key KeyOf(x)) or a sum of two rows of Z2
      (key PairKey, also KeyOf(x) of the sum) that finds a bucket finds at
      its head a record whose rows add up to x: the probe and the record
      cancel on the sampled columns. */
  lemma HeadMatches(t: Table, z1: seq<seq<bool>>, s: nat, sigma: nat, x: seq<bool>)
    requires Consistent(t, z1, s, sigma) && Rectangular(z1, s) && |x| == s && 0 < s <= 64 && KeyOf(x) in t
    ensures var rec := t[KeyOf(x)][0];
            rec.rows in {1, 2} && rec.row1 < |z1| && (rec.rows == 2 ==> rec.row1 < rec.row2 < |z1|) &&
            RecordSum(rec, z1, s) == x
  {
    var key := KeyOf(x);
    var rec := t[key][0];
    assert Filed(t, z1, s, key, 0);
    if rec.rows == 2 {
      PairKeyOfSum(z1[rec.row1], z1[rec.row2]);
    }
    KeyInjective(RecordSum(rec, z1, s), x);
  }
}
