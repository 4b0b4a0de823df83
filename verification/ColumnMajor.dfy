/** Column-major buffers (engine/src/num_ffi.rs): entry (i, j) of a rows x cols matrix is stored at
    position i + j*rows. A buffer is read back as the list of its columns, or as the list of its rows. The
    kernels fill their buffers column by column, which FilledTo follows entry by entry. */
module ColumnMajor {
  import opened Results
  import opened Vectors

  function Slot(i: nat, j: nat, rows: nat, cols: nat): (k: nat)
    requires i < rows && j < cols
    ensures k < rows * cols
  {
    SlotInside(i, j, rows, cols);
    j * rows + i
  }

  lemma {:induction false} SlotInside(i: nat, j: nat, rows: nat, cols: nat)
    requires i < rows && j < cols
    ensures j * rows + i < rows * cols
  {
    assert (j + 1) * rows <= cols * rows;
  }

  /** Columns follow each other in the buffer. */
  lemma {:induction false} ColumnsInOrder(i: nat, j: nat, i': nat, j': nat, rows: nat)
    requires i < rows && i' < rows && j < j'
    ensures j * rows + i < j' * rows + i'
  {
    assert (j + 1) * rows <= j' * rows;
  }

  /** No two entries share a position. */
  lemma {:induction false} SlotInjective(i: nat, j: nat, i': nat, j': nat, rows: nat, cols: nat)
    requires i < rows && j < cols && i' < rows && j' < cols
    requires Slot(i, j, rows, cols) == Slot(i', j', rows, cols)
    ensures i == i' && j == j'
  {
    var k, k' := Slot(i, j, rows, cols), Slot(i', j', rows, cols);
    assert j < j' ==> k < k' by { if j < j' { ColumnsInOrder(i, j, i', j', rows); } }
    assert j' < j ==> k' < k by { if j' < j { ColumnsInOrder(i', j', i, j, rows); } }
  }

  /** Every position holds an entry. */
  lemma SlotSurjective(k: nat, rows: nat, cols: nat)
    requires k < rows * cols
    ensures rows > 0 && k % rows < rows && k / rows < cols && Slot(k % rows, k / rows, rows, cols) == k
  {
    var j := k / rows;
    assert k == j * rows + k % rows;
    assert j >= cols ==> j * rows >= cols * rows;
  }

  /** The columns of a buffer. */
  function Columns(data: Vec, rows: nat, cols: nat): (r: Matrix)
    requires |data| == rows * cols
    ensures |r| == cols && HasWidth(r, rows)
  {
    seq(cols, j requires 0 <= j < cols => seq(rows, i requires 0 <= i < rows => data[Slot(i, j, rows, cols)]))
  }

  function FromColMajor(data: Vec, rows: nat, cols: nat): (r: Matrix)
    requires |data| == rows * cols
    ensures |r| == rows && HasWidth(r, cols)
  {
    seq(rows, i requires 0 <= i < rows => seq(cols, j requires 0 <= j < cols => data[Slot(i, j, rows, cols)]))
  }

  function Transpose(a: Matrix, n: nat): (r: Matrix)
    requires HasWidth(a, n)
    ensures |r| == n && HasWidth(r, |a|)
  {
    seq(n, j requires 0 <= j < n => Column(a, n, j))
  }

  lemma RowsAreTransposedColumns(data: Vec, rows: nat, cols: nat)
    requires |data| == rows * cols
    ensures FromColMajor(data, rows, cols) == Transpose(Columns(data, rows, cols), rows)
  {
    hide Slot;
    var l, r := FromColMajor(data, rows, cols), Transpose(Columns(data, rows, cols), rows);
    forall i | 0 <= i < rows ensures l[i] == r[i] {
      assert forall j :: 0 <= j < cols ==> l[i][j] == r[i][j];
    }
  }

  /** The layout loses nothing: two buffers with the same matrix are the same buffer. */
  lemma LayoutInjective(data: Vec, data': Vec, rows: nat, cols: nat)
    requires |data| == |data'| == rows * cols
    requires FromColMajor(data, rows, cols) == FromColMajor(data', rows, cols)
    ensures data == data'
  {
    forall k | 0 <= k < |data| ensures data[k] == data'[k] {
      SlotSurjective(k, rows, cols);
      var i, j := k % rows, k / rows;
      hide Slot;
      assert FromColMajor(data, rows, cols)[i][j] == data[Slot(i, j, rows, cols)];
      assert FromColMajor(data', rows, cols)[i][j] == data'[Slot(i, j, rows, cols)];
    }
  }

  // --------------------------------------------------- filling a buffer

  /** Columns before j, and rows before i of column j, hold what target says. */
  predicate FilledTo(data: Vec, target: Matrix, rows: nat, j: nat, i: nat)
    requires |data| == rows * |target| && HasWidth(target, rows)
  {
    forall p, q :: 0 <= p < rows && 0 <= q < |target| && (q < j || (q == j && p < i)) ==>
      data[Slot(p, q, rows, |target|)] == target[q][p]
  }

  lemma {:induction false} FillEntry(data: Vec, target: Matrix, rows: nat, j: nat, i: nat)
    requires |data| == rows * |target| && HasWidth(target, rows) && i < rows && j < |target|
    requires FilledTo(data, target, rows, j, i)
    ensures FilledTo(data[Slot(i, j, rows, |target|) := target[j][i]], target, rows, j, i + 1)
  {
    var cols := |target|;
    var after := data[Slot(i, j, rows, cols) := target[j][i]];
    forall p, q | 0 <= p < rows && 0 <= q < cols && (q < j || (q == j && p < i + 1))
      ensures after[Slot(p, q, rows, cols)] == target[q][p]
    {
      if Slot(p, q, rows, cols) == Slot(i, j, rows, cols) {
        SlotInjective(p, q, i, j, rows, cols);
      }
    }
  }

  lemma FilledColumn(data: Vec, target: Matrix, rows: nat, j: nat)
    requires |data| == rows * |target| && HasWidth(target, rows)
    ensures FilledTo(data, target, rows, j, rows) <==> FilledTo(data, target, rows, j + 1, 0)
  {
    hide Slot;
  }

  lemma Filled(data: Vec, target: Matrix, rows: nat)
    requires |data| == rows * |target| && HasWidth(target, rows)
    ensures FilledTo(data, target, rows, |target|, 0) <==> Columns(data, rows, |target|) == target
  {
    hide Slot;
    var cols := Columns(data, rows, |target|);
    if FilledTo(data, target, rows, |target|, 0) {
      forall q | 0 <= q < |target| ensures cols[q] == target[q] {
        assert forall p :: 0 <= p < rows ==> cols[q][p] == target[q][p];
      }
    } else {
      var p, q :| 0 <= p < rows && 0 <= q < |target| && data[Slot(p, q, rows, |target|)] != target[q][p];
      assert cols[q][p] != target[q][p];
    }
  }

  /** Copy a list of columns into a fresh buffer, column by column. */
  method StoreColumns(series: Matrix, rows: nat) returns (buffer: array<real>)
    requires HasWidth(series, rows)
    ensures fresh(buffer) && buffer.Length == rows * |series|
    ensures Columns(buffer[..], rows, |series|) == series
  {
    hide Slot, FilledTo;
    var cols := |series|;
    buffer := new real[rows * cols];
    assert FilledTo(buffer[..], series, rows, 0, 0) by { NothingToFill(buffer[..], series, rows); }
    for j := 0 to cols
      invariant FilledTo(buffer[..], series, rows, j, 0)
    {
      for i := 0 to rows
        invariant FilledTo(buffer[..], series, rows, j, i)
      {
        FillEntry(buffer[..], series, rows, j, i);
        buffer[Slot(i, j, rows, cols)] := series[j][i];
      }
      FilledColumn(buffer[..], series, rows, j);
    }
    Filled(buffer[..], series, rows);
  }

  lemma NothingToFill(data: Vec, target: Matrix, rows: nat)
    requires |data| == rows * |target| && HasWidth(target, rows)
    ensures FilledTo(data, target, rows, 0, 0)
  {
  }

  datatype Buffer = Buffer(data: Vec, rows: nat, cols: nat)

  /** Row-major to column-major: written row by row, i.e. across the buffer. None for an empty or
      ragged matrix; otherwise reading the buffer back gives the matrix. */
  method ToColMajor(a: Matrix) returns (r: Option<Buffer>)
    ensures r.Some? <==> a != [] && forall row :: row in a ==> |row| == |a[0]| > 0
    ensures r.Some? ==>
      var b := r.value;
      && b.rows == |a| && b.cols == |a[0]| && |b.data| == b.rows * b.cols
      && FromColMajor(b.data, b.rows, b.cols) == a
  {
    hide Slot;
    if a == [] || a[0] == [] {
      return None;
    }
    var rows, cols := |a|, |a[0]|;
    for i := 0 to rows
      invariant HasWidth(a[..i], cols)
    {
      if |a[i]| != cols {
        return None;
      }
    }
    var col := new real[rows * cols];
    for i := 0 to rows
      invariant forall p, q :: 0 <= p < i && 0 <= q < cols ==> col[Slot(p, q, rows, cols)] == a[p][q]
    {
      for j := 0 to cols
        invariant forall p, q :: 0 <= p < rows && 0 <= q < cols && (p < i || (p == i && q < j)) ==>
          col[Slot(p, q, rows, cols)] == a[p][q]
      {
        forall p, q | 0 <= p < rows && 0 <= q < cols && Slot(p, q, rows, cols) == Slot(i, j, rows, cols)
          ensures p == i && q == j
        {
          SlotInjective(p, q, i, j, rows, cols);
        }
        col[Slot(i, j, rows, cols)] := a[i][j];
      }
    }
    r := Some(Buffer(col[..], rows, cols));
    var back := FromColMajor(col[..], rows, cols);
    forall p | 0 <= p < rows ensures back[p] == a[p] {
      assert forall q :: 0 <= q < cols ==> back[p][q] == a[p][q];
    }
  }

  lemma TransposeSymmetric(a: Matrix, n: nat)
    requires IsSymmetric(a, n)
    ensures Transpose(a, n) == a
  {
    var t := Transpose(a, n);
    forall i | 0 <= i < n ensures t[i] == a[i] {
      assert forall j :: 0 <= j < n ==> t[i][j] == a[j][i];
    }
  }

  lemma DoubleTranspose(a: Matrix, c: Matrix, n: nat)
    requires IsSquare(a, n) && IsSymmetric(c, n) && Transpose(a, n) == c
    ensures a == c
  {
    forall i | 0 <= i < n ensures a[i] == c[i] {
      assert forall j :: 0 <= j < n ==> Column(a, n, j) == c[j];
      assert forall j :: 0 <= j < n ==> a[i][j] == Column(a, n, j)[i] == c[j][i];
    }
  }
}
