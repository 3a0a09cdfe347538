// CodeMatrix (CodeMatrix.h, CodeMatrix.cpp): a generator matrix held as a
// vector of code words, one per row. A row is modelled by its bit contents
// (the Bits() of the CodeWord that holds it); the packed representation and
// its cache are the subject of CodeWords. AddRow is the only way rows enter,
// so every row has the length of row 0.

module CodeMatrices {
  import opened Bits
  import opened Words
  import opened CodeWords

  /** The rows AddRow keeps when it is offered row after the rows m: a row
      whose length differs from row 0 is refused. */
  function Accepted(m: seq<seq<bool>>, row: seq<bool>): seq<seq<bool>>
  {
    if |m| == 0 || |row| == |m[0]| then m + [row] else m
  }

  /** The rows Build(f, dim) produces: f(0), ..., f(dim - 1) offered in
      order to AddRow. */
  function Built(f: nat -> seq<bool>, dim: nat): seq<seq<bool>>
  {
    if dim == 0 then [] else Accepted(Built(f, dim - 1), f(dim - 1))
  }

  /** Build keeps every row when they all have the length of the first. */
  lemma {:induction false} BuiltUniform(f: nat -> seq<bool>, dim: nat)
    requires forall i :: 0 <= i < dim ==> |f(i)| == |f(0)|
    ensures Built(f, dim) == seq(dim, i requires 0 <= i => f(i))
  {
    if dim > 0 {
      BuiltUniform(f, dim - 1);
      assert seq(dim, i requires 0 <= i => f(i)) == seq(dim - 1, i requires 0 <= i => f(i)) + [f(dim - 1)];
    }
  }

  /** The entries GetSubMatrix copies: entry (i, j) is entry
      (vRows[i], vCols[j]) of m. */
  function SubRows(m: seq<seq<bool>>, n: nat, vRows: seq<nat>, vCols: seq<nat>): (r: seq<seq<bool>>)
    requires Rectangular(m, n)
    requires forall i :: 0 <= i < |vRows| ==> vRows[i] < |m|
    requires forall j :: 0 <= j < |vCols| ==> vCols[j] < n
    ensures |r| == |vRows| && Rectangular(r, |vCols|)
  {
    seq(|vRows|, i requires 0 <= i < |vRows| => Gather(m[vRows[i]], vCols))
  }

  /** Every row with column c removed: DeleteColumn(c). */
  function DropColumn(m: seq<seq<bool>>, c: nat): (r: seq<seq<bool>>)
    requires forall i :: 0 <= i < |m| ==> c < |m[i]|
    ensures |r| == |m| && forall i :: 0 <= i < |m| ==> r[i] == RemoveAt(m[i], c)
  {
    seq(|m|, i requires 0 <= i < |m| => RemoveAt(m[i], c))
  }

  /** DeleteColumn keeps the columns before c and shifts the later ones
      down by one. */
  lemma DropColumnShifts(m: seq<seq<bool>>, n: nat, c: nat)
    requires Rectangular(m, n) && c < n
    ensures Rectangular(DropColumn(m, c), n - 1)
    ensures forall i, j :: 0 <= i < |m| && 0 <= j < n - 1 ==>
              DropColumn(m, c)[i][j] == m[i][if j < c then j else j + 1]
  {
  }

  /** Transposition of two columns in every row, as the column-swap loop of
      GaussMod2 performs it. */
  function SwapColumns(m: seq<seq<bool>>, n: nat, a: nat, b: nat): (r: seq<seq<bool>>)
    requires Rectangular(m, n) && a < n && b < n
    ensures |r| == |m| && Rectangular(r, n)
  {
    seq(|m|, i requires 0 <= i < |m| => Swap(m[i], a, b))
  }

  class CodeMatrix {
    var rows: seq<seq<bool>>

    /** Every row has the length of row 0, which AddRow enforces. */
    predicate Valid()
      reads this
    {
      forall i :: 0 <= i < |rows| ==> |rows[i]| == |rows[0]|
    }

    constructor()
      ensures rows == [] && Valid()
    {
      rows := [];
    }

    /** The number of rows. */
    function GetRows(): (r: nat)
      reads this
      ensures r == |rows|
    {
      |rows|
    }

    /** The length of row 0, or 0 without rows: the length of every row. */
    function GetColumns(): (r: nat)
      reads this
      ensures |rows| == 0 ==> r == 0
      ensures Valid() ==> Rectangular(rows, r)
    {
      if |rows| > 0 then |rows[0]| else 0
    }

    /** The 64-bit words of row 0: the columns rounded up to whole words. */
    function GetColumns64(): (r: nat)
      reads this
      ensures 64 * r - 64 < GetColumns() <= 64 * r
      ensures r == 0 <==> GetColumns() == 0
    {
      (GetColumns() + 63) / 64
    }

    /** AddRow(row): appended when there are no rows or its length is that of
        row 0; otherwise refused with the matrix unchanged. */
    method AddRow(row: seq<bool>)
      modifies this
      requires Valid()
      ensures Valid() && rows == Accepted(old(rows), row)
      ensures |old(rows)| == 0 || |row| == |old(rows)[0]| ==> rows == old(rows) + [row]
      ensures |old(rows)| > 0 && |row| != |old(rows)[0]| ==> rows == old(rows)
    {
      if |rows| > 0 {
        if |rows[0]| != |row| {
          return;
        }
      }
      rows := rows + [row];
    }

    /** Build(f, dim): clears the matrix and offers f(0), ..., f(dim - 1)
        to AddRow. */
    method Build(f: nat -> seq<bool>, dim: nat)
      modifies this
      ensures Valid() && rows == Built(f, dim)
    {
      rows := [];
      var i := 0;
      while i < dim
        invariant i <= dim && Valid() && rows == Built(f, i)
      {
        AddRow(f(i));
        i := i + 1;
      }
    }

    /** GetSubMatrix(vRows, vCols): a fresh matrix whose entry (i, j) is
        entry (vRows[i], vCols[j]) of this one. */
    method GetSubMatrix(vRows: seq<nat>, vCols: seq<nat>) returns (m: CodeMatrix)
      requires Valid()
      requires forall i :: 0 <= i < |vRows| ==> vRows[i] < |rows|
      requires forall j :: 0 <= j < |vCols| ==> vCols[j] < GetColumns()
      ensures fresh(m) && m.Valid()
      ensures m.rows == SubRows(rows, GetColumns(), vRows, vCols)
    {
      m := new CodeMatrix();
      ghost var target := SubRows(rows, GetColumns(), vRows, vCols);
      var i := 0;
      while i < |vRows|
        invariant i <= |vRows| && fresh(m) && m.Valid() && m.rows == target[..i]
      {
        var temp: seq<bool> := [];
        var j := 0;
        while j < |vCols|
          invariant j <= |vCols| && temp == target[i][..j]
        {
          temp := temp + [rows[vRows[i]][vCols[j]]];
          j := j + 1;
        }
        assert temp == target[i];
        m.AddRow(temp);
        assert target[..i + 1] == target[..i] + [target[i]];
        i := i + 1;
      }
    }

    /** AtBool(r, c): entry (r, c). */
    function AtBool(r: nat, c: nat): (b: bool)
      reads this
      requires r < |rows| && c < |rows[r]|
      ensures Valid() ==> c < GetColumns()
      ensures b == rows[r][c]
    {
      rows[r][c]
    }

    /** At64(r, c): word c of row r as CodeWord::At64 returns it; read
        big-endian it is the value of the columns it covers. */
    function At64(r: nat, c: nat): (w: Word)
      reads this
      requires r < |rows| && 64 * c < |rows[r]|
      ensures var hi := Min(64 * c + 64, |rows[r]|);
              Value(w) == Value(rows[r][64 * c..hi]) < Pow2(hi - 64 * c)
    {
      WordOfBitsValue(rows[r], c);
      WordOfBits(rows[r], c)
    }

    /** SetBool(r, c, b): entry (r, c) becomes b. */
    method SetBool(r: nat, c: nat, b: bool)
      modifies this
      requires Valid() && r < |rows| && c < |rows[r]|
      ensures Valid() && rows == old(rows)[r := old(rows)[r][c := b]]
    {
      rows := rows[r := rows[r][c := b]];
    }

    /** DeleteRow(r): row r is removed, the others keep their order. */
    method DeleteRow(r: nat)
      modifies this
      requires Valid() && r < |rows|
      ensures Valid() && rows == RemoveAt(old(rows), r)
    {
      rows := rows[..r] + rows[r + 1..];
    }

    /** DeleteColumn(c): EraseBool(c) on every row. */
    method DeleteColumn(c: nat)
      modifies this
      requires Valid() && |rows| > 0 && c < |rows[0]|
      ensures Valid() && GetColumns() == old(GetColumns()) - 1
      ensures rows == DropColumn(old(rows), c)
    {
      ghost var target := DropColumn(rows, c);
      var i := 0;
      while i < |rows|
        invariant i <= |rows| == |target|
        invariant rows[..i] == target[..i] && rows[i..] == old(rows)[i..]
      {
        assert rows[i] == old(rows)[i];
        rows := rows[i := RemoveAt(rows[i], c)];
        i := i + 1;
      }
      assert rows == rows[..i];
    }

    /** IsSystematic(): at most as many rows as columns, and the leading
        square block is the identity. */
    method IsSystematic() returns (b: bool)
      requires Valid()
      ensures b <==> Systematic(rows, GetColumns())
    {
      if GetRows() > GetColumns() {
        return false;
      }
      var i := 0;
      while i < GetRows()
        invariant i <= |rows|
        invariant forall a, c :: 0 <= a < i && 0 <= c < |rows| ==> rows[a][c] == (a == c)
      {
        var j := 0;
        while j < GetRows()
          invariant j <= |rows|
          invariant forall c :: 0 <= c < j ==> rows[i][c] == (i == c)
        {
          if !AtBool(i, i) {
            return false;
          }
          if AtBool(i, j) && i != j {
            return false;
          }
          j := j + 1;
        }
        i := i + 1;
      }
      return true;
    }

    /** operator=: the rows of other, copied. */
    method Assign(other: CodeMatrix)
      modifies this
      requires other.Valid()
      ensures Valid() && rows == old(other.rows)
    {
      rows := other.rows;
    }

    /** operator[] read: row i. */
    function Row(i: nat): (r: seq<bool>)
      reads this
      requires i < |rows|
      ensures r == rows[i]
    {
      rows[i]
    }

    /** operator[] write: row i replaced by a row of the same length, as the
        in-place updates through the returned reference do. */
    method SetRow(i: nat, row: seq<bool>)
      modifies this
      requires Valid() && i < |rows| && |row| == |rows[i]|
      ensures Valid() && rows == old(rows)[i := row]
    {
      rows := rows[i := row];
    }
  }
}
