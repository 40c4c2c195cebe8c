/**
 * SudokuSolver.solve, up to the start of the search: the loops that create
 * the grid of variables and post the constraints, over arrays as in the
 * source. Each loop is proved to produce the corresponding piece of
 * SudokuConstraints.SudokuModel, and Solve is proved to produce the whole of
 * it. The search itself and everything after it belong to the constraint
 * solver library and are not part of this model.
 */
module SudokuSolver {
  import opened RowMajor
  import opened ConstraintModel
  import opened SudokuConstraints

  /**
   * The largest cell size for which n * n = cell_size^4, the length of
   * grid_flat, fits in a Java int.
   */
  const MaxCellSize := 215

  /** grid is n-by-n and holds the variable of every cell. */
  ghost predicate GridReady(grid: array2<IntVar>, n: int)
    reads grid
  {
    grid.Length0 == n && grid.Length1 == n &&
    forall a, b :: 0 <= a < n && 0 <= b < n ==> grid[a, b] == GridVar(a, b, n)
  }

  /** The "variables" loop: grid[i][j] gets a variable with domain 1..n, and grid_flat[i * n + j] the same one. */
  method MakeVariables(n: nat) returns (grid: array2<IntVar>, gridFlat: array<IntVar>)
    ensures fresh(grid) && fresh(gridFlat)
    ensures GridReady(grid, n)
    ensures gridFlat[..] == FlatVars(n)
  {
    grid := new IntVar[n, n];
    gridFlat := new IntVar[n * n];
    for i := 0 to n
      invariant i * n <= n * n
      invariant forall a, b :: 0 <= a < i && 0 <= b < n ==> grid[a, b] == GridVar(a, b, n)
      invariant forall p :: 0 <= p < i * n ==> gridFlat[p] == FlatVars(n)[p]
    {
      for j := 0 to n
        invariant i * n + j <= n * n
        invariant forall a, b :: 0 <= a < i && 0 <= b < n ==> grid[a, b] == GridVar(a, b, n)
        invariant forall b :: 0 <= b < j ==> grid[i, b] == GridVar(i, b, n)
        invariant forall p :: 0 <= p < i * n + j ==> gridFlat[p] == FlatVars(n)[p]
      {
        // solver.makeIntVar(1, n, "grid[i,j]")
        grid[i, j] := GridVar(i, j, n);
        FlattenInRange(i, j, n, n);
        FlattenDivMod(i, j, n);
        gridFlat[i * n + j] := grid[i, j];
      }
      assert (i + 1) * n == i * n + n;
      MulMonotone(i + 1, n, n);
    }
  }

  /**
   * The "init and rows" loop: for each row, an equality for each positive
   * entry, then an all-different over the row. Reading an entry outside
   * initial_grid fails the whole call.
   */
  method PostRows(initialGrid: seq<seq<int>>, n: nat, grid: array2<IntVar>) returns (r: Result<seq<Constraint>>)
    requires GridReady(grid, n)
    ensures r == if Fits(initialGrid, n) then Ok(RowConstraints(initialGrid, n, n)) else Err(IndexOutOfBounds)
  {
    var constraints: seq<Constraint> := [];
    for i := 0 to n
      invariant FitsRows(initialGrid, n, i)
      invariant constraints == RowConstraints(initialGrid, n, i)
    {
      var row := PostRow(initialGrid, n, grid, i);
      if row.Err? {
        return Err(row.error);
      }
      constraints := constraints + row.value;
    }
    r := Ok(constraints);
  }

  /** One iteration of the "init and rows" loop: the clues of row i, then its all-different. */
  method PostRow(initialGrid: seq<seq<int>>, n: nat, grid: array2<IntVar>, i: int) returns (r: Result<seq<Constraint>>)
    requires GridReady(grid, n) && 0 <= i < n
    ensures r.Err? <==> !(i < |initialGrid| && |initialGrid[i]| >= n)
    ensures r.Ok? ==> r.value == ClueConstraints(initialGrid, n, i, n) + [AllDifferent(RowVars(n, i))]
  {
    var constraints: seq<Constraint> := [];
    var row := new IntVar[n];
    for j := 0 to n
      invariant j > 0 ==> i < |initialGrid| && j <= |initialGrid[i]|
      invariant j > 0 ==> constraints == ClueConstraints(initialGrid, n, i, j)
      invariant j == 0 ==> constraints == []
      invariant forall b :: 0 <= b < j ==> row[b] == GridVar(i, b, n)
    {
      if i >= |initialGrid| || j >= |initialGrid[i]| {
        // initial_grid[i][j] throws
        return Err(IndexOutOfBounds);
      }
      if initialGrid[i][j] > 0 {
        constraints := constraints + [Equality(grid[i, j], initialGrid[i][j])];
      }
      row[j] := grid[i, j];
    }
    assert row[..] == RowVars(n, i);
    r := Ok(constraints + [AllDifferent(row[..])]);
  }

  /** The columns loop: an all-different over each column. */
  method PostColumns(n: nat, grid: array2<IntVar>) returns (constraints: seq<Constraint>)
    requires GridReady(grid, n)
    ensures constraints == ColumnConstraints(n, n)
  {
    constraints := [];
    for j := 0 to n
      invariant constraints == ColumnConstraints(n, j)
    {
      var col := new IntVar[n];
      for i := 0 to n
        invariant col[..i] == ColumnVars(n, j)[..i]
      {
        col[i] := grid[i, j];
      }
      assert col[..] == ColumnVars(n, j);
      constraints := constraints + [AllDifferent(col[..])];
    }
  }

  /**
   * The cells loop: for each block (i, j), slot di * k + dj of its group gets
   * cell (i * k + di, j * k + dj), then an all-different over the group. A
   * cell size of zero or below posts nothing.
   */
  method PostBlocks(cellSize: int, grid: array2<IntVar>) returns (constraints: seq<Constraint>)
    requires GridReady(grid, cellSize * cellSize)
    ensures constraints == BlockConstraints(Iterations(cellSize), Iterations(cellSize))
  {
    var kb := Iterations(cellSize);
    constraints := [];
    var i := 0;
    while i < cellSize
      invariant 0 <= i <= kb
      invariant constraints == BlockConstraints(kb, i)
    {
      var j := 0;
      while j < cellSize
        invariant 0 <= j <= kb
        invariant constraints == BlockConstraints(kb, i) + BlockRowConstraints(kb, i, j)
      {
        var cell := FillBlock(cellSize, grid, i, j);
        constraints := constraints + [AllDifferent(cell)];
        j := j + 1;
      }
      i := i + 1;
    }
  }

  /** The two innermost loops of the cells loop: the group of block (i, j). */
  method FillBlock(cellSize: int, grid: array2<IntVar>, i: int, j: int) returns (group: seq<IntVar>)
    requires 0 <= i < cellSize && 0 <= j < cellSize
    requires GridReady(grid, cellSize * cellSize)
    ensures group == BlockVars(cellSize, i, j)
  {
    var k := cellSize;
    var n := k * k;
    var cell := new IntVar[n];
    var di := 0;
    while di < k
      invariant 0 <= di <= k
      invariant di * k <= n
      invariant forall s :: 0 <= s < di * k ==> cell[s] == BlockVars(k, i, j)[s]
    {
      var dj := 0;
      while dj < k
        invariant 0 <= dj <= k
        invariant di * k + dj <= n
        invariant forall s :: 0 <= s < di * k + dj ==> cell[s] == BlockVars(k, i, j)[s]
      {
        BlockSlotCell(k, i, j, di, dj);
        cell[di * k + dj] := grid[i * k + di, j * k + dj];
        dj := dj + 1;
      }
      assert (di + 1) * k == di * k + k;
      MulMonotone(di + 1, k, k);
      di := di + 1;
    }
    group := cell[..];
  }

  /**
   * SudokuSolver.solve up to the search: the constraint model it posts for
   * (initial_grid, cell_size), or the failure when initial_grid is too small.
   */
  method Solve(initialGrid: seq<seq<int>>, cellSize: int) returns (r: Result<Model>)
    requires -MaxCellSize <= cellSize <= MaxCellSize
    ensures r == SudokuModel(initialGrid, cellSize)
  {
    var n: nat := cellSize * cellSize;
    var grid, gridFlat := MakeVariables(n);
    var rows := PostRows(initialGrid, n, grid);
    if rows.Err? {
      return Err(rows.error);
    }
    var columns := PostColumns(n, grid);
    var blocks := PostBlocks(cellSize, grid);
    r := Ok(Model(n, gridFlat[..], rows.value + columns + blocks));
  }
}
