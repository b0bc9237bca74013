/** A fixed-size matrix of reals stored column by column: element (row,
    column) lives at data[column, row]. The dimensions, template parameters
    in the original, are constant fields here. */
module Mat {

  class Matrix {
    const rows: nat
    const columns: nat
    const data: array2<real>

    ghost predicate Valid()
      reads this
    {
      data.Length0 == columns && data.Length1 == rows
    }

    /** The element at the given row and column (operator()). */
    function Get(row: nat, column: nat): real
      requires Valid() && row < rows && column < columns
      reads this, data
    {
      data[column, row]
    }

    /** A rows x columns matrix with every element 0. */
    constructor(rows: nat, columns: nat)
      ensures Valid() && this.rows == rows && this.columns == columns && fresh(data)
      ensures forall r, c :: 0 <= r < rows && 0 <= c < columns ==> Get(r, c) == 0.0
    {
      this.rows := rows;
      this.columns := columns;
      var data := new real[columns, rows];
      var column := 0;
      while column < columns
        invariant 0 <= column <= columns
        invariant forall c, r :: 0 <= c < column && 0 <= r < rows ==> data[c, r] == 0.0
      {
        var row := 0;
        while row < rows
          invariant 0 <= row <= rows
          invariant forall c, r :: 0 <= c < column && 0 <= r < rows ==> data[c, r] == 0.0
          invariant forall r :: 0 <= r < row ==> data[column, r] == 0.0
        {
          data[column, row] := 0.0;
          row := row + 1;
        }
        column := column + 1;
      }
      this.data := data;
    }

    /** Writes the element at (row, column) (the assignable operator());
        every other element keeps its value. */
    method Set(row: nat, column: nat, value: real)
      requires Valid() && row < rows && column < columns
      modifies data
      ensures Valid() && Get(row, column) == value
      ensures forall r, c :: 0 <= r < rows && 0 <= c < columns && (r, c) != (row, column) ==>
                Get(r, c) == old(Get(r, c))
    {
      data[column, row] := value;
    }

    /** The sum of Get(row, c) * v[c] over the first k columns. */
    function RowTimes(row: nat, v: seq<real>, k: nat): real
      requires Valid() && row < rows && k <= columns && columns <= |v|
      reads this, data
    {
      if k == 0 then 0.0 else RowTimes(row, v, k - 1) + Get(row, k - 1) * v[k - 1]
    }

    /** The matrix-vector product of a square matrix (operator*): entry row
        is the sum over the columns c of Get(row, c) * v[c]. */
    method Times(v: seq<real>) returns (product: seq<real>)
      requires Valid() && rows == columns && |v| == columns
      ensures |product| == rows
      ensures forall row :: 0 <= row < rows ==> product[row] == RowTimes(row, v, columns)
    {
      product := seq(rows, _ => 0.0);
      var column := 0;
      while column < columns
        invariant 0 <= column <= columns && |product| == rows
        invariant forall r :: 0 <= r < rows ==> product[r] == RowTimes(r, v, column)
      {
        var row := 0;
        while row < rows
          invariant 0 <= row <= rows && |product| == rows
          invariant forall r :: 0 <= r < row ==> product[r] == RowTimes(r, v, column + 1)
          invariant forall r :: row <= r < rows ==> product[r] == RowTimes(r, v, column)
        {
          product := product[row := product[row] + Get(row, column) * v[column]];
          row := row + 1;
        }
        column := column + 1;
      }
    }

    /** m holds the transpose of this matrix. */
    ghost predicate IsTransposeOf(m: Matrix)
      requires Valid() && m.Valid()
      reads this, data, m, m.data
    {
      rows == m.columns && columns == m.rows &&
      forall r, c :: 0 <= r < rows && 0 <= c < columns ==> Get(r, c) == m.Get(c, r)
    }

    /** The transpose as the code computes it (transposed): a columns x rows
        matrix whose element (row, column), for column < columns and
        row < rows, is this matrix's element (column, row). Its indices are
        only in range when the matrix is square. */
    method Transposed() returns (t: Matrix)
      requires Valid() && rows == columns
      ensures fresh(t) && fresh(t.data) && t.Valid() && t.IsTransposeOf(this)
    {
      t := new Matrix(columns, rows);
      var column := 0;
      while column < columns
        invariant 0 <= column <= columns && t.Valid() && fresh(t.data)
        invariant forall c, r :: 0 <= c < column && 0 <= r < rows ==> t.Get(r, c) == Get(c, r)
      {
        var row := 0;
        while row < rows
          invariant 0 <= row <= rows && t.Valid() && fresh(t.data)
          invariant forall c, r :: 0 <= c < column && 0 <= r < rows ==> t.Get(r, c) == Get(c, r)
          invariant forall r :: 0 <= r < row ==> t.Get(r, column) == Get(column, r)
        {
          t.Set(row, column, Get(column, row));
          row := row + 1;
        }
        column := column + 1;
      }
    }

    /** The transpose of a matrix of any shape: element (row, column) of this
        matrix goes to (column, row). */
    method TransposedAnyShape() returns (t: Matrix)
      requires Valid()
      ensures fresh(t) && fresh(t.data) && t.Valid() && t.IsTransposeOf(this)
    {
      t := new Matrix(columns, rows);
      var column := 0;
      while column < columns
        invariant 0 <= column <= columns && t.Valid() && fresh(t.data)
        invariant forall c, r :: 0 <= c < column && 0 <= r < rows ==> t.Get(c, r) == Get(r, c)
      {
        var row := 0;
        while row < rows
          invariant 0 <= row <= rows && t.Valid() && fresh(t.data)
          invariant forall c, r :: 0 <= c < column && 0 <= r < rows ==> t.Get(c, r) == Get(r, c)
          invariant forall r :: 0 <= r < row ==> t.Get(column, r) == Get(r, column)
        {
          t.Set(column, row, Get(row, column));
          row := row + 1;
        }
        column := column + 1;
      }
    }

    /** Every element is 1 on the diagonal and 0 elsewhere. */
    ghost predicate IsIdentity()
      requires Valid()
      reads this, data
    {
      rows == columns &&
      forall r, c :: 0 <= r < rows && 0 <= c < columns ==> Get(r, c) == if r == c then 1.0 else 0.0
    }

    /** The n x n identity matrix (identity). */
    static method Identity(n: nat) returns (m: Matrix)
      ensures fresh(m) && fresh(m.data) && m.Valid() && m.rows == n && m.columns == n && m.IsIdentity()
    {
      m := new Matrix(n, n);
      var i := 0;
      while i < n
        invariant 0 <= i <= n && m.Valid() && fresh(m.data)
        invariant forall r, c :: 0 <= r < n && 0 <= c < n ==>
                    m.Get(r, c) == if r == c && r < i then 1.0 else 0.0
      {
        m.Set(i, i, 1.0);
        i := i + 1;
      }
    }
  }

  /** Over the first k columns, row `row` of the identity picks out v[row]
      when row < k and contributes nothing otherwise. */
  lemma {:induction false} IdentityRowTimesPrefix(m: Matrix, v: seq<real>, row: nat, k: nat)
    requires m.Valid() && m.IsIdentity() && row < m.rows && k <= m.columns && m.columns <= |v|
    ensures m.RowTimes(row, v, k) == if row < k then v[row] else 0.0
  {
    if k > 0 {
      IdentityRowTimesPrefix(m, v, row, k - 1);
    }
  }

  /** The identity times v is v. */
  lemma IdentityTimes(m: Matrix, v: seq<real>)
    requires m.Valid() && m.IsIdentity() && |v| == m.columns
    ensures forall row :: 0 <= row < m.rows ==> m.RowTimes(row, v, m.columns) == v[row]
  {
    forall row | 0 <= row < m.rows
      ensures m.RowTimes(row, v, m.columns) == v[row]
    {
      IdentityRowTimesPrefix(m, v, row, m.columns);
    }
  }

  /** Transposing twice gives back the original elements. */
  lemma TransposeTwice(m: Matrix, t: Matrix, tt: Matrix)
    requires m.Valid() && t.Valid() && tt.Valid()
    requires t.IsTransposeOf(m) && tt.IsTransposeOf(t)
    ensures tt.rows == m.rows && tt.columns == m.columns
    ensures forall r, c :: 0 <= r < m.rows && 0 <= c < m.columns ==> tt.Get(r, c) == m.Get(r, c)
  {
    forall r, c | 0 <= r < m.rows && 0 <= c < m.columns
      ensures tt.Get(r, c) == m.Get(r, c)
    {
      assert tt.Get(r, c) == t.Get(c, r);
    }
  }

  /** Step (column, row) of the code's transpose loop for a rows x columns
      matrix writes element (row, column) of the result, stored at
      [column][row] of its columns x rows array, and reads element
      (column, row) of the source, stored at [row][column] of its
      columns x rows array: both need column < rows and row < columns. */
  predicate TransposeStepInBounds(rows: nat, columns: nat, column: nat, row: nat) {
    column < rows && row < columns
  }

  /** Every step of the loop, column < columns and row < rows, is in bounds. */
  ghost predicate TransposeLoopInBounds(rows: nat, columns: nat) {
    forall column: nat, row: nat :: column < columns && row < rows ==>
      TransposeStepInBounds(rows, columns, column, row)
  }

  /** The code's transpose loop stays inside both arrays exactly when the
      matrix is square; a 2 x 1 matrix already steps outside. */
  lemma TransposeLoopInBoundsIffSquare(rows: nat, columns: nat)
    requires rows > 0 && columns > 0
    ensures TransposeLoopInBounds(rows, columns) <==> rows == columns
    ensures !TransposeLoopInBounds(2, 1)
  {
    if rows < columns {
      assert !TransposeStepInBounds(rows, columns, rows, 0);
    } else if columns < rows {
      assert !TransposeStepInBounds(rows, columns, 0, columns);
    }
    assert !TransposeStepInBounds(2, 1, 0, 1);
  }
}
