/**
 * Compressed-sparse-row (CSR) encoding of a dense grid, in the canonical form
 * that `scipy.sparse.csr_matrix` builds from a dense array: zero cells are
 * dropped, and the stored cells are listed row by row with their column
 * numbers ascending within a row.
 *
 * A matrix of `rows` rows is three arrays. `indptr` has `rows + 1` entries;
 * row r's stored cells are the positions `indptr[r] .. indptr[r + 1]` of
 * `indices` (their column numbers) and of `data` (their values).
 */
module Csr {
  import opened Grid

  datatype CsrMatrix = CsrMatrix(data: seq<int>, indices: seq<int>, indptr: seq<int>)

  predicate StrictlyIncreasing(s: seq<int>)
  {
    forall i, j :: 0 <= i < j < |s| ==> s[i] < s[j]
  }

  /** Row r's `indptr` window `[indptr[r], indptr[r + 1])` lies inside `indices`. */
  predicate InWindow(indices: seq<int>, indptr: seq<int>, r: nat)
  {
    r + 1 < |indptr| && 0 <= indptr[r] <= indptr[r + 1] <= |indices|
  }

  /** The column numbers a pattern stores for row r. */
  function Slice(indices: seq<int>, indptr: seq<int>, r: nat): seq<int>
    requires InWindow(indices, indptr, r)
  {
    indices[indptr[r]..indptr[r + 1]]
  }

  /** Row r of `m` has a window that lies inside both `indices` and `data`. */
  predicate HasRow(m: CsrMatrix, r: nat)
  {
    |m.data| == |m.indices| && InWindow(m.indices, m.indptr, r)
  }

  /** The column numbers stored for row r. */
  function RowIndices(m: CsrMatrix, r: nat): seq<int>
    requires HasRow(m, r)
  {
    Slice(m.indices, m.indptr, r)
  }

  /** The values stored for row r, in the order of RowIndices. */
  function RowData(m: CsrMatrix, r: nat): seq<int>
    requires HasRow(m, r)
  {
    m.data[m.indptr[r]..m.indptr[r + 1]]
  }

  /**
   * The structure of a CSR sparsity pattern of shape rows x cols: `indptr` has
   * `rows + 1` entries, starts at 0, never decreases and ends at the number of
   * stored cells; every column number lies in `[0, cols)` and the column
   * numbers of each row strictly increase.
   */
  predicate PatternWellFormed(indices: seq<int>, indptr: seq<int>, rows: nat, cols: nat)
  {
    |indptr| == rows + 1 &&
    indptr[0] == 0 && indptr[rows] == |indices| &&
    (forall i, j :: 0 <= i <= j <= rows ==> indptr[i] <= indptr[j]) &&
    (forall k :: 0 <= k < |indices| ==> 0 <= indices[k] < cols) &&
    (forall r :: 0 <= r < rows ==>
      InWindow(indices, indptr, r) && StrictlyIncreasing(Slice(indices, indptr, r)))
  }

  /** The cells (row, column) a well-formed pattern marks as stored. */
  function StoredCells(indices: seq<int>, indptr: seq<int>, rows: nat, cols: nat): set<(int, int)>
    requires PatternWellFormed(indices, indptr, rows, cols)
  {
    set r, c | 0 <= r < rows && 0 <= c < cols && c in Slice(indices, indptr, r) :: (r, c)
  }

  /** A CSR matrix: a well-formed pattern with one value per stored cell. */
  predicate WellFormed(m: CsrMatrix, rows: nat, cols: nat)
  {
    |m.data| == |m.indices| && PatternWellFormed(m.indices, m.indptr, rows, cols)
  }

  /** A well-formed matrix that, like one built from a dense array, stores no zero. */
  predicate Canonical(m: CsrMatrix, rows: nat, cols: nat)
  {
    WellFormed(m, rows, cols) && forall k :: 0 <= k < |m.data| ==> m.data[k] != 0
  }

  /**
   * The columns of the nonzero cells of one row, ascending: the `indices`
   * that scipy stores for that row.
   */
  function NonzeroColumns(row: seq<int>): (cols: seq<int>)
    ensures StrictlyIncreasing(cols)
    ensures forall k :: 0 <= k < |cols| ==> 0 <= cols[k] < |row|
    ensures forall c :: c in cols <==> 0 <= c < |row| && row[c] != 0
    decreases |row|
  {
    if |row| == 0 then []
    else
      var last := |row| - 1;
      var init := NonzeroColumns(row[..last]);
      assert forall c :: c in init ==> c < last && row[c] != 0;
      assert forall k :: 0 <= k < |init| ==> init[k] < last;
      if row[last] != 0 then init + [last] else init
  }

  /** The values of `row` at the columns `cols`, in that order. */
  function Gather(row: seq<int>, cols: seq<int>): seq<int>
    requires forall k :: 0 <= k < |cols| ==> 0 <= cols[k] < |row|
  {
    seq(|cols|, k requires 0 <= k < |cols| => row[cols[k]])
  }

  /**
   * `csr_matrix(g)` for a dense grid of `cols` columns: row by row, the
   * nonzero cells' columns go to `indices` and their values to `data`, and
   * `indptr` records where each row's cells end.
   */
  function FromDense(g: seq<seq<int>>, cols: nat): (m: CsrMatrix)
    requires IsGrid(g, |g|, cols)
    ensures |m.indptr| == |g| + 1 && |m.data| == |m.indices|
    ensures m.indptr[0] == 0 && m.indptr[|g|] == |m.indices|
    decreases |g|
  {
    if |g| == 0 then CsrMatrix([], [], [0])
    else
      Append(FromDense(g[..|g| - 1], cols), g[|g| - 1])
  }

  /**
   * One step of `csr_matrix(g)`: store the nonzero cells of `row` after those
   * already stored, and record where the new row ends in `indptr`.
   */
  function Append(prev: CsrMatrix, row: seq<int>): CsrMatrix
  {
    var cs := NonzeroColumns(row);
    CsrMatrix(prev.data + Gather(row, cs), prev.indices + cs, prev.indptr + [|prev.indices| + |cs|])
  }

  /**
   * The dense value of cell `c` in a row stored as columns `idx` with values
   * `vals`: the value stored for column `c`, or 0 when none is stored.
   */
  function Lookup(idx: seq<int>, vals: seq<int>, c: int): int
    requires |idx| == |vals|
  {
    if |idx| == 0 then 0
    else if idx[0] == c then vals[0]
    else Lookup(idx[1..], vals[1..], c)
  }

  /** `m.toarray()`: the dense rows x cols grid with every unstored cell 0. */
  function ToDense(m: CsrMatrix, rows: nat, cols: nat): (g: seq<seq<int>>)
    requires WellFormed(m, rows, cols)
    ensures IsGrid(g, rows, cols)
  {
    seq(rows, r requires 0 <= r < rows =>
      seq(cols, c requires 0 <= c < cols => Lookup(RowIndices(m, r), RowData(m, r), c)))
  }

  /** The cells (row, column) of a grid whose value is not zero. */
  function NonzeroCells(g: seq<seq<int>>): set<(int, int)>
  {
    set r, c | 0 <= r < |g| && 0 <= c < |g[r]| && g[r][c] != 0 :: (r, c)
  }

  /**
   * Appending one dense row keeps a canonical matrix canonical, leaves the
   * rows already stored as they were, and stores the new row's nonzero
   * columns with their values.
   */
  lemma AppendRow(prev: CsrMatrix, row: seq<int>, n: nat, cols: nat)
    requires Canonical(prev, n, cols) && |row| == cols
    ensures Canonical(Append(prev, row), n + 1, cols)
    ensures forall r :: 0 <= r < n ==>
      HasRow(Append(prev, row), r) &&
      RowIndices(Append(prev, row), r) == RowIndices(prev, r) &&
      RowData(Append(prev, row), r) == RowData(prev, r)
    ensures HasRow(Append(prev, row), n)
    ensures RowIndices(Append(prev, row), n) == NonzeroColumns(row)
    ensures RowData(Append(prev, row), n) == Gather(row, NonzeroColumns(row))
  {
    AppendIndptr(prev, row, n, cols);
    AppendCells(prev, row, cols);
    AppendKeepsRows(prev, row, n, cols);
    AppendNewRow(prev, row, n, cols);
  }

  /** Appending a row leaves the windows of the rows already stored as they were. */
  lemma AppendKeepsRows(prev: CsrMatrix, row: seq<int>, n: nat, cols: nat)
    requires Canonical(prev, n, cols) && |row| == cols
    ensures forall r :: 0 <= r < n ==>
      HasRow(Append(prev, row), r) &&
      RowIndices(Append(prev, row), r) == RowIndices(prev, r) &&
      RowData(Append(prev, row), r) == RowData(prev, r) &&
      StrictlyIncreasing(Slice(Append(prev, row).indices, Append(prev, row).indptr, r))
  {
    var m := Append(prev, row);
    forall r | 0 <= r < n
      ensures HasRow(m, r) && RowIndices(m, r) == RowIndices(prev, r) && RowData(m, r) == RowData(prev, r)
      ensures StrictlyIncreasing(Slice(m.indices, m.indptr, r))
    {
      assert InWindow(prev.indices, prev.indptr, r);
      assert prev.indptr[r + 1] <= prev.indptr[n];
      assert m.indptr[r] == prev.indptr[r] && m.indptr[r + 1] == prev.indptr[r + 1];
    }
  }

  /** The appended row's window holds its nonzero columns, ascending, and their values. */
  lemma AppendNewRow(prev: CsrMatrix, row: seq<int>, n: nat, cols: nat)
    requires Canonical(prev, n, cols) && |row| == cols
    ensures HasRow(Append(prev, row), n)
    ensures RowIndices(Append(prev, row), n) == NonzeroColumns(row)
    ensures RowData(Append(prev, row), n) == Gather(row, NonzeroColumns(row))
    ensures StrictlyIncreasing(Slice(Append(prev, row).indices, Append(prev, row).indptr, n))
  {
    var m := Append(prev, row);
    assert m.indptr[n] == |prev.indices| && m.indptr[n + 1] == |m.indices|;
  }

  /** Appending a row keeps `indptr` starting at 0, non-decreasing and ending at `|indices|`. */
  lemma AppendIndptr(prev: CsrMatrix, row: seq<int>, n: nat, cols: nat)
    requires Canonical(prev, n, cols) && |row| == cols
    ensures |Append(prev, row).indptr| == n + 2
    ensures Append(prev, row).indptr[0] == 0
    ensures Append(prev, row).indptr[n + 1] == |Append(prev, row).indices|
    ensures Append(prev, row).indptr[n] == |prev.indices|
    ensures forall r :: 0 <= r <= n ==> Append(prev, row).indptr[r] == prev.indptr[r]
    ensures forall i, j :: 0 <= i <= j <= n + 1 ==> Append(prev, row).indptr[i] <= Append(prev, row).indptr[j]
  {
    var m := Append(prev, row);
    forall i, j | 0 <= i <= j <= n + 1
      ensures m.indptr[i] <= m.indptr[j]
    {
      if j <= n {
        assert prev.indptr[i] <= prev.indptr[j];
      } else if i <= n {
        assert prev.indptr[i] <= prev.indptr[n];
      }
    }
  }

  /** Appending a row adds only columns in `[0, cols)` and only nonzero values. */
  lemma AppendCells(prev: CsrMatrix, row: seq<int>, cols: nat)
    requires |prev.data| == |prev.indices| && |row| == cols
    requires forall k :: 0 <= k < |prev.indices| ==> 0 <= prev.indices[k] < cols
    requires forall k :: 0 <= k < |prev.data| ==> prev.data[k] != 0
    ensures |Append(prev, row).data| == |Append(prev, row).indices|
    ensures forall k :: 0 <= k < |Append(prev, row).indices| ==> 0 <= Append(prev, row).indices[k] < cols
    ensures forall k :: 0 <= k < |Append(prev, row).data| ==> Append(prev, row).data[k] != 0
  {
    var m := Append(prev, row);
    var cs := NonzeroColumns(row);
    forall k | 0 <= k < |m.indices|
      ensures 0 <= m.indices[k] < cols && m.data[k] != 0
    {
      if k >= |prev.indices| {
        var q := k - |prev.indices|;
        assert m.indices[k] == cs[q] && cs[q] in cs;
        assert m.data[k] == row[cs[q]];
      }
    }
  }

  /**
   * The matrix built from a dense grid is canonical, and row r stores exactly
   * the nonzero columns of grid row r, ascending, with their values.
   */
  lemma {:induction false} FromDenseRows(g: seq<seq<int>>, cols: nat)
    requires IsGrid(g, |g|, cols)
    ensures Canonical(FromDense(g, cols), |g|, cols)
    ensures forall r :: 0 <= r < |g| ==>
      HasRow(FromDense(g, cols), r) &&
      RowIndices(FromDense(g, cols), r) == NonzeroColumns(g[r]) &&
      RowData(FromDense(g, cols), r) == Gather(g[r], NonzeroColumns(g[r]))
    decreases |g|
  {
    if |g| > 0 {
      var n := |g| - 1;
      var init := g[..n];
      var prev := FromDense(init, cols);
      var m := FromDense(g, cols);
      assert m == Append(prev, g[n]);
      FromDenseRows(init, cols);
      AppendRow(prev, g[n], n, cols);
      forall r | 0 <= r < n
        ensures HasRow(m, r) && RowIndices(m, r) == NonzeroColumns(g[r]) &&
          RowData(m, r) == Gather(g[r], NonzeroColumns(g[r]))
      {
        assert init[r] == g[r];
      }
    }
  }

  /** In a row whose columns strictly increase, each stored column finds its own value. */
  lemma {:induction false} LookupStored(idx: seq<int>, vals: seq<int>, k: nat)
    requires |idx| == |vals| && StrictlyIncreasing(idx) && k < |idx|
    ensures Lookup(idx, vals, idx[k]) == vals[k]
    decreases k
  {
    if k > 0 {
      assert idx[0] < idx[k];
      assert idx[1..][k - 1] == idx[k];
      LookupStored(idx[1..], vals[1..], k - 1);
    }
  }

  /** A column with nothing stored reads as 0. */
  lemma {:induction false} LookupUnstored(idx: seq<int>, vals: seq<int>, c: int)
    requires |idx| == |vals| && c !in idx
    ensures Lookup(idx, vals, c) == 0
    decreases |idx|
  {
    if |idx| > 0 {
      assert c !in idx[1..];
      LookupUnstored(idx[1..], vals[1..], c);
    }
  }

  /**
   * Two strictly increasing sequences holding the same values are equal: the
   * ascending column list of a row is determined by the set of its columns.
   */
  lemma {:induction false} AscendingUnique(a: seq<int>, b: seq<int>)
    requires StrictlyIncreasing(a) && StrictlyIncreasing(b)
    requires forall x :: x in a <==> x in b
    ensures a == b
    decreases |a|
  {
    assert |a| > 0 ==> a[0] in a;
    assert |b| > 0 ==> b[0] in b;
    if |a| > 0 {
      assert |b| > 0;
      var ka :| 0 <= ka < |a| && a[ka] == b[0];
      var kb :| 0 <= kb < |b| && b[kb] == a[0];
      assert a[0] <= a[ka] && b[0] <= b[kb];
      TailMembers(a);
      TailMembers(b);
      AscendingUnique(a[1..], b[1..]);
      assert a == [a[0]] + a[1..] && b == [b[0]] + b[1..];
    }
  }

  /** Past the first element of a strictly increasing sequence come all the others. */
  lemma TailMembers(a: seq<int>)
    requires StrictlyIncreasing(a) && |a| > 0
    ensures forall x :: x in a[1..] <==> x in a && x != a[0]
  {
    forall x | x in a && x != a[0]
      ensures x in a[1..]
    {
      var k :| 0 <= k < |a| && a[k] == x;
      assert a[1..][k - 1] == x;
    }
  }

  /** One row densified from its nonzero columns and their values is the row again. */
  lemma DenseRow(row: seq<int>)
    ensures forall c :: 0 <= c < |row| ==>
      Lookup(NonzeroColumns(row), Gather(row, NonzeroColumns(row)), c) == row[c]
  {
    var cs := NonzeroColumns(row);
    var vs := Gather(row, cs);
    forall c | 0 <= c < |row|
      ensures Lookup(cs, vs, c) == row[c]
    {
      if row[c] != 0 {
        var k :| 0 <= k < |cs| && cs[k] == c;
        LookupStored(cs, vs, k);
      } else {
        LookupUnstored(cs, vs, c);
      }
    }
  }

  /**
   * `csr_matrix(g).toarray() == g`: densifying the matrix built from a grid
   * gives the grid back, cell for cell.
   */
  lemma DenseRoundTrip(g: seq<seq<int>>, cols: nat)
    requires IsGrid(g, |g|, cols)
    ensures WellFormed(FromDense(g, cols), |g|, cols)
    ensures ToDense(FromDense(g, cols), |g|, cols) == g
  {
    var m := FromDense(g, cols);
    FromDenseRows(g, cols);
    var d := ToDense(m, |g|, cols);
    forall r | 0 <= r < |g|
      ensures d[r] == g[r]
    {
      DenseRow(g[r]);
      assert RowIndices(m, r) == NonzeroColumns(g[r]);
      assert RowData(m, r) == Gather(g[r], NonzeroColumns(g[r]));
    }
  }

  /**
   * The other direction of the round trip: a canonical matrix (no stored
   * zero, columns ascending in each row) is exactly what `csr_matrix` builds
   * from its own dense form, so CSR encoding is a one-to-one correspondence
   * between grids and canonical matrices.
   */
  lemma CanonicalRoundTrip(m: CsrMatrix, rows: nat, cols: nat)
    requires Canonical(m, rows, cols)
    ensures IsGrid(ToDense(m, rows, cols), rows, cols)
    ensures FromDense(ToDense(m, rows, cols), cols) == m
  {
    var d := ToDense(m, rows, cols);
    var f := FromDense(d, cols);
    FromDenseRows(d, cols);
    forall r | 0 <= r < rows
      ensures HasRow(f, r) && HasRow(m, r)
      ensures RowIndices(f, r) == RowIndices(m, r) && RowData(f, r) == RowData(m, r)
    {
      DenseRowOfCanonical(m, rows, cols, r);
    }
    RowsDetermine(f, m, rows, cols);
  }

  /**
   * Row r of the dense form of a canonical matrix has as nonzero columns
   * exactly the columns stored for row r, holding the stored values.
   */
  lemma DenseRowOfCanonical(m: CsrMatrix, rows: nat, cols: nat, r: nat)
    requires Canonical(m, rows, cols) && r < rows
    ensures HasRow(m, r) && |ToDense(m, rows, cols)[r]| == cols
    ensures NonzeroColumns(ToDense(m, rows, cols)[r]) == RowIndices(m, r)
    ensures Gather(ToDense(m, rows, cols)[r], RowIndices(m, r)) == RowData(m, r)
  {
    var row := ToDense(m, rows, cols)[r];
    var idx, vals := RowIndices(m, r), RowData(m, r);
    assert forall c :: 0 <= c < cols ==> row[c] == Lookup(idx, vals, c);
    forall k | 0 <= k < |idx|
      ensures 0 <= idx[k] < cols && row[idx[k]] == vals[k] && vals[k] != 0
    {
      assert idx[k] == m.indices[m.indptr[r] + k];
      assert vals[k] == m.data[m.indptr[r] + k];
      LookupStored(idx, vals, k);
    }
    forall c
      ensures c in idx <==> 0 <= c < cols && row[c] != 0
    {
      if c !in idx && 0 <= c < cols {
        LookupUnstored(idx, vals, c);
      }
    }
    AscendingUnique(NonzeroColumns(row), idx);
  }

  /** Two well-formed matrices that store the same cells in every row are equal. */
  lemma RowsDetermine(m1: CsrMatrix, m2: CsrMatrix, rows: nat, cols: nat)
    requires WellFormed(m1, rows, cols) && WellFormed(m2, rows, cols)
    requires forall r :: 0 <= r < rows ==>
      RowIndices(m1, r) == RowIndices(m2, r) && RowData(m1, r) == RowData(m2, r)
    ensures m1 == m2
  {
    forall r | 0 <= r <= rows
      ensures m1.indptr[r] == m2.indptr[r]
    {
      PrefixAgree(m1, m2, rows, cols, r);
    }
    PrefixAgree(m1, m2, rows, cols, rows);
    assert m1.indices == m1.indices[..m1.indptr[rows]];
    assert m2.indices == m2.indices[..m2.indptr[rows]];
    assert m1.data == m1.data[..m1.indptr[rows]];
    assert m2.data == m2.data[..m2.indptr[rows]];
  }

  /** Rows 0 .. r - 1 of two such matrices occupy the same prefix of `indices` and `data`. */
  lemma {:induction false} PrefixAgree(m1: CsrMatrix, m2: CsrMatrix, rows: nat, cols: nat, r: nat)
    requires WellFormed(m1, rows, cols) && WellFormed(m2, rows, cols)
    requires forall q :: 0 <= q < rows ==>
      RowIndices(m1, q) == RowIndices(m2, q) && RowData(m1, q) == RowData(m2, q)
    requires r <= rows
    ensures m1.indptr[r] == m2.indptr[r]
    ensures m1.indices[..m1.indptr[r]] == m2.indices[..m2.indptr[r]]
    ensures m1.data[..m1.indptr[r]] == m2.data[..m2.indptr[r]]
    decreases r
  {
    if r > 0 {
      var q := r - 1;
      PrefixAgree(m1, m2, rows, cols, q);
      assert HasRow(m1, q) && HasRow(m2, q);
      assert |RowIndices(m1, q)| == |RowIndices(m2, q)|;
      assert m1.indices[..m1.indptr[r]] == m1.indices[..m1.indptr[q]] + RowIndices(m1, q);
      assert m2.indices[..m2.indptr[r]] == m2.indices[..m2.indptr[q]] + RowIndices(m2, q);
      assert m1.data[..m1.indptr[r]] == m1.data[..m1.indptr[q]] + RowData(m1, q);
      assert m2.data[..m2.indptr[r]] == m2.data[..m2.indptr[q]] + RowData(m2, q);
    }
  }

  /**
   * Exactness of the pattern: the cells the matrix built from a grid stores
   * are exactly the grid's nonzero cells.
   */
  lemma PatternIsNonzeroCells(g: seq<seq<int>>, cols: nat)
    requires IsGrid(g, |g|, cols)
    ensures PatternWellFormed(FromDense(g, cols).indices, FromDense(g, cols).indptr, |g|, cols)
    ensures StoredCells(FromDense(g, cols).indices, FromDense(g, cols).indptr, |g|, cols) == NonzeroCells(g)
  {
    var m := FromDense(g, cols);
    FromDenseRows(g, cols);
    forall r, c | 0 <= r < |g| && 0 <= c < cols
      ensures c in Slice(m.indices, m.indptr, r) <==> g[r][c] != 0
    {
    }
  }

  /**
   * Two grids of the same shape with the same nonzero cells give the same
   * `indices` and `indptr`, whatever their values: the pattern alone does not
   * tell the values apart.
   */
  lemma {:induction false} SameCellsSamePattern(g1: seq<seq<int>>, g2: seq<seq<int>>, cols: nat)
    requires IsGrid(g1, |g1|, cols) && IsGrid(g2, |g1|, cols)
    requires NonzeroCells(g1) == NonzeroCells(g2)
    ensures FromDense(g1, cols).indices == FromDense(g2, cols).indices
    ensures FromDense(g1, cols).indptr == FromDense(g2, cols).indptr
    decreases |g1|
  {
    if |g1| > 0 {
      var n := |g1| - 1;
      forall r, c | 0 <= r < n && 0 <= c < cols
        ensures (g1[..n][r][c] != 0) == (g2[..n][r][c] != 0)
      {
        assert (g1[r][c] != 0) == ((r, c) in NonzeroCells(g1));
        assert (g2[r][c] != 0) == ((r, c) in NonzeroCells(g2));
      }
      assert NonzeroCells(g1[..n]) == NonzeroCells(g2[..n]);
      SameCellsSamePattern(g1[..n], g2[..n], cols);
      forall c
        ensures c in NonzeroColumns(g1[n]) <==> c in NonzeroColumns(g2[n])
      {
        if 0 <= c < cols {
          assert (g1[n][c] != 0) == ((n, c) in NonzeroCells(g1));
          assert (g2[n][c] != 0) == ((n, c) in NonzeroCells(g2));
        }
      }
      AscendingUnique(NonzeroColumns(g1[n]), NonzeroColumns(g2[n]));
    }
  }
}
