/**
 * The constraint model that SudokuSolver.solve posts for a puzzle, as a value.
 *
 * For an initial grid and a cell (block) size k, with n = k * k, solve creates
 * one variable per cell (i, j) with domain 1..n, lists them row by row in a
 * flat array, posts an equality for every positive entry of the initial grid,
 * and posts an all-different constraint for each of the n rows, the n columns
 * and the k * k blocks, in that order. The functions below describe exactly
 * that list; the method SudokuSolver.Solve builds it with loops over arrays
 * and is proved to produce it.
 *
 * The lemmas state what the list means: its shape, that the clues are exactly
 * the positive entries, how the groups are laid out, that every cell lies in
 * exactly one row, column and block, and that an assignment satisfies the
 * model exactly when it is a solution of the puzzle.
 */
module SudokuConstraints {
  import opened RowMajor
  import opened ConstraintModel

  /** solve indexes initial_grid[i][j] for every i, j < n without checking its size. */
  datatype SolveError = IndexOutOfBounds

  datatype Result<T> = Ok(value: T) | Err(error: SolveError)

  /**
   * What solve leaves behind: the side n of the grid, the flat array of
   * decision variables (grid_flat) and the constraints, in posting order.
   */
  datatype Model = Model(n: nat, vars: seq<IntVar>, constraints: seq<Constraint>)

  // ---------------------------------------------------------------------------
  // The variables and the groups
  // ---------------------------------------------------------------------------

  /** The variable solve creates for cell (i, j): domain 1..n. */
  function GridVar(i: int, j: int, n: int): IntVar {
    IntVar(i, j, 1, n)
  }

  /** v is the variable of a cell of the n-by-n grid. */
  predicate OnGrid(v: IntVar, n: int) {
    0 <= v.row < n && 0 <= v.col < n && v == GridVar(v.row, v.col, n)
  }

  /** grid_flat: position p holds the variable of cell (p / n, p % n). */
  function FlatVars(n: nat): seq<IntVar> {
    seq(n * n, p requires 0 <= p < n * n => GridVar(RowOf(p, n), ColOf(p, n), n))
  }

  /** Row group i: cells (i, 0), ..., (i, n - 1). */
  function RowVars(n: nat, i: int): seq<IntVar> {
    seq(n, j => GridVar(i, j, n))
  }

  /** Column group j: cells (0, j), ..., (n - 1, j). */
  function ColumnVars(n: nat, j: int): seq<IntVar> {
    seq(n, i => GridVar(i, j, n))
  }

  /** Block group (bi, bj): slot s holds cell (bi * k + s / k, bj * k + s % k). */
  function BlockVars(k: nat, bi: int, bj: int): seq<IntVar>
    requires k > 0
  {
    seq(k * k, s requires 0 <= s < k * k =>
      GridVar(bi * k + RowOf(s, k), bj * k + ColOf(s, k), k * k))
  }

  function RowGroups(n: nat): seq<seq<IntVar>> {
    seq(n, i => RowVars(n, i))
  }

  function ColumnGroups(n: nat): seq<seq<IntVar>> {
    seq(n, j => ColumnVars(n, j))
  }

  /** The blocks in posting order: block b is block (b / k, b % k). */
  function BlockGroups(k: nat): seq<seq<IntVar>> {
    seq(k * k, b requires 0 <= b < k * k => BlockVars(k, RowOf(b, k), ColOf(b, k)))
  }

  // ---------------------------------------------------------------------------
  // The constraint list
  // ---------------------------------------------------------------------------

  /** The first `rows` rows of the initial grid exist and have at least n entries. */
  predicate FitsRows(initial: seq<seq<int>>, n: int, rows: int) {
    rows <= |initial| && forall r :: 0 <= r < rows ==> |initial[r]| >= n
  }

  /** Every index [i][j] with i, j < n that solve reads exists. */
  predicate Fits(initial: seq<seq<int>>, n: int) {
    FitsRows(initial, n, n)
  }

  /** The equality posted for entry (i, j), if that entry is positive. */
  function ClueAt(initial: seq<seq<int>>, n: nat, i: int, j: int): seq<Constraint>
    requires 0 <= i < |initial| && 0 <= j < |initial[i]|
  {
    if initial[i][j] > 0 then [Equality(GridVar(i, j, n), initial[i][j])] else []
  }

  /** The equalities posted for entries (i, 0), ..., (i, j - 1), in that order. */
  function ClueConstraints(initial: seq<seq<int>>, n: nat, i: int, j: int): seq<Constraint>
    requires 0 <= i < |initial| && 0 <= j <= |initial[i]|
  {
    if j == 0 then []
    else ClueConstraints(initial, n, i, j - 1) + ClueAt(initial, n, i, j - 1)
  }

  /** What the "init and rows" loop posts for rows 0, ..., i - 1. */
  function RowConstraints(initial: seq<seq<int>>, n: nat, i: int): seq<Constraint>
    requires 0 <= i && FitsRows(initial, n, i)
  {
    if i == 0 then []
    else RowConstraints(initial, n, i - 1) + ClueConstraints(initial, n, i - 1, n)
         + [AllDifferent(RowVars(n, i - 1))]
  }

  /** What the columns loop posts for columns 0, ..., j - 1. */
  function ColumnConstraints(n: nat, j: int): seq<Constraint>
    requires 0 <= j
  {
    if j == 0 then [] else ColumnConstraints(n, j - 1) + [AllDifferent(ColumnVars(n, j - 1))]
  }

  /** What the blocks loop posts for blocks (i, 0), ..., (i, j - 1). */
  function BlockRowConstraints(k: nat, i: int, j: int): seq<Constraint>
    requires k > 0 && 0 <= j
  {
    if j == 0 then [] else BlockRowConstraints(k, i, j - 1) + [AllDifferent(BlockVars(k, i, j - 1))]
  }

  /** What the blocks loop posts for block rows 0, ..., i - 1. */
  function BlockConstraints(k: nat, i: int): seq<Constraint>
    requires 0 <= i <= k
  {
    if i == 0 then [] else BlockConstraints(k, i - 1) + BlockRowConstraints(k, i - 1, k)
  }

  /** The number of iterations of a loop `for (x = 0; x < k; x++)`. */
  function Iterations(k: int): nat {
    if k > 0 then k else 0
  }

  /**
   * The model solve builds for (initial_grid, cell_size): an error when
   * initial_grid is too small to be indexed, otherwise the flat variables and
   * the constraints in posting order. A cell_size of zero or below runs the
   * blocks loop zero times.
   */
  function SudokuModel(initial: seq<seq<int>>, k: int): Result<Model> {
    var n: nat := k * k;
    if !Fits(initial, n) then Err(IndexOutOfBounds)
    else
      var kb := Iterations(k);
      Ok(Model(n, FlatVars(n),
               RowConstraints(initial, n, n) + ColumnConstraints(n, n) + BlockConstraints(kb, kb)))
  }

  // ---------------------------------------------------------------------------
  // Satisfaction
  // ---------------------------------------------------------------------------

  /** g gives a value to every cell of the n-by-n grid. */
  predicate Shape(g: Assignment, n: int) {
    |g| == n && forall r :: 0 <= r < |g| ==> |g[r]| == n
  }

  /** g satisfies the model: every variable is in its domain and every constraint holds. */
  predicate Satisfies(m: Model, g: Assignment) {
    Shape(g, m.n) &&
    (forall p :: 0 <= p < |m.vars| ==> InDomain(g, m.vars[p])) &&
    AllHold(g, m.constraints)
  }

  predicate CellsInRange(g: Assignment, n: int)
    requires Shape(g, n)
  {
    forall r, c :: 0 <= r < n && 0 <= c < n ==> 1 <= g[r][c] <= n
  }

  predicate CluesKept(initial: seq<seq<int>>, g: Assignment, n: int)
    requires Fits(initial, n) && Shape(g, n)
  {
    forall r, c :: 0 <= r < n && 0 <= c < n && initial[r][c] > 0 ==> g[r][c] == initial[r][c]
  }

  predicate RowDistinct(g: Assignment, n: int, r: int)
    requires Shape(g, n) && 0 <= r < n
  {
    forall c1, c2 :: 0 <= c1 < n && 0 <= c2 < n && c1 != c2 ==> g[r][c1] != g[r][c2]
  }

  predicate ColumnDistinct(g: Assignment, n: int, c: int)
    requires Shape(g, n) && 0 <= c < n
  {
    forall r1, r2 :: 0 <= r1 < n && 0 <= r2 < n && r1 != r2 ==> g[r1][c] != g[r2][c]
  }

  /** The band of k lines (a row or a column of blocks) that grid line x lies in. */
  function BandOf(x: int, k: int): int
    requires k > 0
  {
    x / k
  }

  /** The position of grid line x inside its band. */
  function OffsetIn(x: int, k: int): int
    requires k > 0
  {
    x % k
  }

  /** Cells (r1, c1) and (r2, c2) lie in the same k-by-k block. */
  predicate SameBlock(k: int, r1: int, c1: int, r2: int, c2: int)
    requires k > 0
  {
    BandOf(r1, k) == BandOf(r2, k) && BandOf(c1, k) == BandOf(c2, k)
  }

  predicate BlocksDistinct(g: Assignment, k: int)
    requires k > 0 && Shape(g, k * k)
  {
    forall r1, c1, r2, c2 ::
      0 <= r1 < k * k && 0 <= c1 < k * k && 0 <= r2 < k * k && 0 <= c2 < k * k &&
      (r1 != r2 || c1 != c2) && SameBlock(k, r1, c1, r2, c2) ==>
      g[r1][c1] != g[r2][c2]
  }

  /**
   * g solves the puzzle: every cell holds a value in 1..n, every positive
   * entry of the initial grid is kept, and no row, column or (for k > 0)
   * block holds a value twice.
   */
  predicate IsSolution(initial: seq<seq<int>>, k: int, g: Assignment)
    requires Fits(initial, k * k)
  {
    var n := k * k;
    Shape(g, n) && CellsInRange(g, n) && CluesKept(initial, g, n) &&
    (forall r :: 0 <= r < n ==> RowDistinct(g, n, r)) &&
    (forall c :: 0 <= c < n ==> ColumnDistinct(g, n, c)) &&
    (k > 0 ==> BlocksDistinct(g, k))
  }

  // ---------------------------------------------------------------------------
  // Shape of the model
  // ---------------------------------------------------------------------------

  /** initial_grid[i][j] exists. */
  predicate Readable(initial: seq<seq<int>>, i: int, j: int) {
    0 <= i < |initial| && 0 <= j < |initial[i]|
  }

  /** solve fails exactly when it reads some entry initial_grid[i][j], i, j < n, that does not exist. */
  lemma ModelFailsIffTooSmall(initial: seq<seq<int>>, k: int)
    ensures SudokuModel(initial, k).Err? <==>
            exists i, j :: 0 <= i < k * k && 0 <= j < k * k && !Readable(initial, i, j)
  {
    var n := k * k;
    if !Fits(initial, n) {
      if |initial| < n {
        assert !Readable(initial, |initial|, 0);
      } else {
        var r :| 0 <= r < n && |initial[r]| < n;
        assert !Readable(initial, r, |initial[r]|);
      }
    }
  }

  /**
   * The model has n = k * k, n * n variables each with domain 1..n, one
   * per cell, and grid_flat is row-major: position i * n + j holds the
   * variable of cell (i, j).
   */
  lemma ModelVariables(initial: seq<seq<int>>, k: int, m: Model)
    requires SudokuModel(initial, k) == Ok(m)
    ensures m.n == k * k && |m.vars| == m.n * m.n
    ensures forall p :: 0 <= p < |m.vars| ==> m.vars[p].lo == 1 && m.vars[p].hi == m.n
    ensures forall p :: 0 <= p < |m.vars| ==> OnGrid(m.vars[p], m.n)
    ensures forall i, j :: 0 <= i < m.n && 0 <= j < m.n ==>
              0 <= Flatten(i, j, m.n) < |m.vars| && m.vars[Flatten(i, j, m.n)] == GridVar(i, j, m.n)
  {
    var n := m.n;
    if n > 0 {
      RowMajorBijection(n, n);
    }
  }

  // ---------------------------------------------------------------------------
  // The clues
  // ---------------------------------------------------------------------------

  lemma {:induction false} ClueMembers(initial: seq<seq<int>>, n: nat, i: int, j: int)
    requires 0 <= i < |initial| && 0 <= j <= |initial[i]|
    ensures forall e :: e in ClueConstraints(initial, n, i, j) ==>
              e.Equality? && 0 <= e.v.col < j && e.v == GridVar(i, e.v.col, n) &&
              e.value == initial[i][e.v.col] && e.value > 0
    ensures forall c :: 0 <= c < j && initial[i][c] > 0 ==>
              Equality(GridVar(i, c, n), initial[i][c]) in ClueConstraints(initial, n, i, j)
  {
    if j > 0 {
      ClueMembers(initial, n, i, j - 1);
    }
  }

  lemma {:induction false} RowConstraintMembers(initial: seq<seq<int>>, n: nat, i: int)
    requires 0 <= i <= n && FitsRows(initial, n, i)
    ensures forall e :: e in RowConstraints(initial, n, i) && e.Equality? ==>
              0 <= e.v.row < i && 0 <= e.v.col < n && e.v == GridVar(e.v.row, e.v.col, n) &&
              e.value == initial[e.v.row][e.v.col] && e.value > 0
    ensures forall r, c :: 0 <= r < i && 0 <= c < n && initial[r][c] > 0 ==>
              Equality(GridVar(r, c, n), initial[r][c]) in RowConstraints(initial, n, i)
  {
    if i > 0 {
      RowConstraintMembers(initial, n, i - 1);
      ClueMembers(initial, n, i - 1, n);
    }
  }

  lemma {:induction false} ColumnConstraintsAllDifferent(n: nat, j: int)
    requires 0 <= j
    ensures forall e :: e in ColumnConstraints(n, j) ==> e.AllDifferent?
  {
    if j > 0 {
      ColumnConstraintsAllDifferent(n, j - 1);
    }
  }

  lemma {:induction false} BlockRowConstraintsAllDifferent(k: nat, i: int, j: int)
    requires k > 0 && 0 <= j
    ensures forall e :: e in BlockRowConstraints(k, i, j) ==> e.AllDifferent?
  {
    if j > 0 {
      BlockRowConstraintsAllDifferent(k, i, j - 1);
    }
  }

  lemma {:induction false} BlockConstraintsAllDifferent(k: nat, i: int)
    requires 0 <= i <= k
    ensures forall e :: e in BlockConstraints(k, i) ==> e.AllDifferent?
  {
    if i > 0 {
      BlockConstraintsAllDifferent(k, i - 1);
      BlockRowConstraintsAllDifferent(k, i - 1, k);
    }
  }

  /**
   * Cell (r, c) gets an equality constraint exactly when its initial entry is
   * positive, and then to that entry; every equality constraint is one of
   * these, so zero and negative entries constrain nothing.
   */
  lemma CluesExactlyPositiveEntries(initial: seq<seq<int>>, k: int, m: Model)
    requires SudokuModel(initial, k) == Ok(m)
    ensures m.n == k * k && Fits(initial, m.n)
    ensures forall r, c :: 0 <= r < m.n && 0 <= c < m.n ==>
              (Equality(GridVar(r, c, m.n), initial[r][c]) in m.constraints <==> initial[r][c] > 0)
    ensures forall e :: e in m.constraints && e.Equality? ==>
              OnGrid(e.v, m.n) && e.value == initial[e.v.row][e.v.col] && e.value > 0
  {
    var n: nat := k * k;
    var kb := Iterations(k);
    RowConstraintMembers(initial, n, n);
    ColumnConstraintsAllDifferent(n, n);
    BlockConstraintsAllDifferent(kb, kb);
  }

  // ---------------------------------------------------------------------------
  // The groups
  // ---------------------------------------------------------------------------

  lemma {:induction false} ClueGroupsEmpty(initial: seq<seq<int>>, n: nat, i: int, j: int)
    requires 0 <= i < |initial| && 0 <= j <= |initial[i]|
    ensures Groups(ClueConstraints(initial, n, i, j)) == []
  {
    if j > 0 {
      ClueGroupsEmpty(initial, n, i, j - 1);
      GroupsConcat(ClueConstraints(initial, n, i, j - 1), ClueAt(initial, n, i, j - 1));
    }
  }

  lemma {:induction false} RowGroupsPrefix(initial: seq<seq<int>>, n: nat, i: int)
    requires 0 <= i <= n && FitsRows(initial, n, i)
    ensures Groups(RowConstraints(initial, n, i)) == RowGroups(n)[..i]
  {
    if i > 0 {
      var before := RowConstraints(initial, n, i - 1);
      var clues := ClueConstraints(initial, n, i - 1, n);
      var last := [AllDifferent(RowVars(n, i - 1))];
      assert Groups(before + clues) == Groups(before) by {
        ClueGroupsEmpty(initial, n, i - 1, n);
        GroupsConcat(before, clues);
      }
      assert Groups(last) == [RowVars(n, i - 1)];
      GroupsConcat(before + clues, last);
      RowGroupsPrefix(initial, n, i - 1);
      PrefixSnoc(RowGroups(n), i - 1);
    }
  }

  /** Growing a prefix of s by one element. */
  lemma PrefixSnoc<T>(s: seq<T>, i: int)
    requires 0 <= i < |s|
    ensures s[..i + 1] == s[..i] + [s[i]]
  {
  }

  lemma {:induction false} ColumnGroupsPrefix(n: nat, j: int)
    requires 0 <= j <= n
    ensures Groups(ColumnConstraints(n, j)) == ColumnGroups(n)[..j]
  {
    if j > 0 {
      ColumnGroupsPrefix(n, j - 1);
      GroupsConcat(ColumnConstraints(n, j - 1), [AllDifferent(ColumnVars(n, j - 1))]);
      assert ColumnGroups(n)[..j] == ColumnGroups(n)[..j - 1] + [ColumnVars(n, j - 1)];
    }
  }

  /** The groups of blocks (i, 0), ..., (i, j - 1). */
  function BlockRowGroupList(k: nat, i: int, j: nat): seq<seq<IntVar>>
    requires k > 0
  {
    seq(j, c => BlockVars(k, i, c))
  }

  lemma {:induction false} BlockRowGroups(k: nat, i: int, j: int)
    requires k > 0 && 0 <= j
    ensures Groups(BlockRowConstraints(k, i, j)) == BlockRowGroupList(k, i, j)
  {
    if j > 0 {
      BlockRowGroups(k, i, j - 1);
      GroupsConcat(BlockRowConstraints(k, i, j - 1), [AllDifferent(BlockVars(k, i, j - 1))]);
      assert BlockRowGroupList(k, i, j) == BlockRowGroupList(k, i, j - 1) + [BlockVars(k, i, j - 1)];
    }
  }

  /** Extending a prefix of s by the k elements that follow it. */
  lemma PrefixExtend<T>(s: seq<T>, lo: nat, row: seq<T>)
    requires lo + |row| <= |s|
    requires forall c :: 0 <= c < |row| ==> s[lo + c] == row[c]
    ensures s[..lo + |row|] == s[..lo] + row
  {
  }

  /** Block row i of the posting order is blocks (i, 0), ..., (i, k - 1). */
  lemma BlockGroupsRow(k: nat, i: int)
    requires 0 <= i < k
    ensures 0 <= i * k && (i + 1) * k <= k * k
    ensures BlockGroups(k)[..(i + 1) * k] == BlockGroups(k)[..i * k] + BlockRowGroupList(k, i, k)
  {
    MulMonotone(0, i, k);
    MulMonotone(i + 1, k, k);
    var row := BlockRowGroupList(k, i, k);
    var lo := i * k;
    assert lo + k == (i + 1) * k;
    forall c | 0 <= c < k
      ensures BlockGroups(k)[lo + c] == row[c]
    {
      FlattenInRange(i, c, k, k);
      FlattenDivMod(i, c, k);
    }
    PrefixExtend(BlockGroups(k), lo, row);
  }

  lemma {:induction false} BlockGroupsPrefix(k: nat, i: int)
    requires 0 < k && 0 <= i <= k
    ensures 0 <= i * k <= k * k
    ensures Groups(BlockConstraints(k, i)) == BlockGroups(k)[..i * k]
  {
    if i > 0 {
      var before, row := BlockConstraints(k, i - 1), BlockRowConstraints(k, i - 1, k);
      assert Groups(BlockConstraints(k, i)) == Groups(before) + Groups(row) by {
        GroupsConcat(before, row);
      }
      BlockGroupsPrefix(k, i - 1);
      BlockRowGroups(k, i - 1, k);
      BlockGroupsRow(k, i - 1);
      assert (i - 1 + 1) * k == i * k;
    }
  }

  lemma GroupLayout(initial: seq<seq<int>>, k: int, m: Model)
    requires SudokuModel(initial, k) == Ok(m)
    ensures Groups(m.constraints) == RowGroups(m.n) + ColumnGroups(m.n) + BlockGroups(Iterations(k))
    ensures |Groups(m.constraints)| == if k >= 0 then 3 * m.n else 2 * m.n
    ensures forall x :: 0 <= x < |Groups(m.constraints)| ==> |Groups(m.constraints)[x]| == m.n
    ensures forall x, s :: 0 <= x < |Groups(m.constraints)| && 0 <= s < |Groups(m.constraints)[x]| ==>
              OnGrid(Groups(m.constraints)[x][s], m.n)
  {
    var n: nat := k * k;
    var kb := Iterations(k);
    GroupsInPostingOrder(initial, k);
    var gs := Groups(m.constraints);
    GroupListsOnGrid(gs, n, kb);
    if k >= 0 {
      assert kb * kb == n;
    } else {
      assert kb == 0;
    }
  }

  /** The groups of the model are the row, column and block groups, in that order. */
  lemma GroupsInPostingOrder(initial: seq<seq<int>>, k: int)
    requires Fits(initial, k * k)
    ensures SudokuModel(initial, k).Ok?
    ensures Groups(SudokuModel(initial, k).value.constraints) ==
            RowGroups(k * k) + ColumnGroups(k * k) + BlockGroups(Iterations(k))
  {
    var n: nat := k * k;
    var kb := Iterations(k);
    var rows := RowConstraints(initial, n, n);
    var cols := ColumnConstraints(n, n);
    var blocks := BlockConstraints(kb, kb);
    RowGroupsPrefix(initial, n, n);
    ColumnGroupsPrefix(n, n);
    GroupsConcat(rows, cols);
    GroupsConcat(rows + cols, blocks);
    assert RowGroups(n)[..n] == RowGroups(n);
    assert ColumnGroups(n)[..n] == ColumnGroups(n);
    if kb > 0 {
      BlockGroupsPrefix(kb, kb);
      assert BlockGroups(kb)[..kb * kb] == BlockGroups(kb);
    }
  }

  /** Every group of the list has n cells, and every one of them is on the n-by-n grid. */
  lemma GroupListsOnGrid(gs: seq<seq<IntVar>>, n: nat, kb: nat)
    requires kb > 0 ==> kb * kb == n
    requires gs == RowGroups(n) + ColumnGroups(n) + BlockGroups(kb)
    ensures |gs| == 2 * n + kb * kb
    ensures forall x :: 0 <= x < |gs| ==> |gs[x]| == n
    ensures forall x, s :: 0 <= x < |gs| && 0 <= s < |gs[x]| ==> OnGrid(gs[x][s], n)
  {
    forall x, s | 0 <= x < |gs| && 0 <= s < |gs[x]|
      ensures OnGrid(gs[x][s], n)
    {
      if x < n {
        assert gs[x] == RowVars(n, x);
      } else if x < 2 * n {
        assert gs[x] == ColumnVars(n, x - n);
      } else {
        var b := x - 2 * n;
        assert gs[x] == BlockGroups(kb)[b];
        UnflattenInRange(b, kb, kb);
        BlockSlotOnGrid(kb, RowOf(b, kb), ColOf(b, kb), s);
      }
    }
  }

  /**
   * Block group (bi, bj) holds cell (bi * k + di, bj * k + dj) at slot
   * di * k + dj, and all three indices lie in [0, k * k).
   */
  lemma BlockSlotCell(k: nat, bi: int, bj: int, di: int, dj: int)
    requires 0 <= bi < k && 0 <= bj < k && 0 <= di < k && 0 <= dj < k
    ensures 0 <= di * k + dj < k * k
    ensures 0 <= bi * k + di < k * k && 0 <= bj * k + dj < k * k
    ensures BlockVars(k, bi, bj)[di * k + dj] == GridVar(bi * k + di, bj * k + dj, k * k)
  {
    FlattenInRange(di, dj, k, k);
    FlattenDivMod(di, dj, k);
    FlattenInRange(bi, di, k, k);
    FlattenInRange(bj, dj, k, k);
  }

  /** Slot s of block (bi, bj) is a cell of the grid. */
  lemma BlockSlotOnGrid(k: nat, bi: int, bj: int, s: int)
    requires 0 < k && 0 <= bi < k && 0 <= bj < k && 0 <= s < k * k
    ensures OnGrid(BlockVars(k, bi, bj)[s], k * k)
    ensures BandOf(BlockVars(k, bi, bj)[s].row, k) == bi
    ensures BandOf(BlockVars(k, bi, bj)[s].col, k) == bj
  {
    UnflattenInRange(s, k, k);
    FlattenInRange(bi, RowOf(s, k), k, k);
    FlattenInRange(bj, ColOf(s, k), k, k);
    FlattenDivMod(bi, RowOf(s, k), k);
    FlattenDivMod(bj, ColOf(s, k), k);
  }

  /**
   * Every cell (r, c) lies in exactly one row group (row r, at slot c), one
   * column group (column c, at slot r) and one block group: block
   * (r / k, c / k), at slot (r % k) * k + c % k.
   */
  lemma CellMembership(k: nat, r: int, c: int)
    requires 0 < k && 0 <= r < k * k && 0 <= c < k * k
    ensures forall i, s :: 0 <= i < k * k && 0 <= s < k * k ==>
              (RowVars(k * k, i)[s] == GridVar(r, c, k * k) <==> i == r && s == c)
    ensures forall j, s :: 0 <= j < k * k && 0 <= s < k * k ==>
              (ColumnVars(k * k, j)[s] == GridVar(r, c, k * k) <==> j == c && s == r)
    ensures 0 <= BandOf(r, k) < k && 0 <= BandOf(c, k) < k
    ensures 0 <= Flatten(OffsetIn(r, k), OffsetIn(c, k), k) < k * k
    ensures forall bi, bj, s :: 0 <= bi < k && 0 <= bj < k && 0 <= s < k * k ==>
              (BlockVars(k, bi, bj)[s] == GridVar(r, c, k * k) <==>
               bi == BandOf(r, k) && bj == BandOf(c, k) && s == Flatten(OffsetIn(r, k), OffsetIn(c, k), k))
  {
    UnflattenInRange(r, k, k);
    UnflattenInRange(c, k, k);
    FlattenInRange(OffsetIn(r, k), OffsetIn(c, k), k, k);
    var home := Flatten(OffsetIn(r, k), OffsetIn(c, k), k);
    FlattenDivMod(OffsetIn(r, k), OffsetIn(c, k), k);
    forall bi, bj, s | 0 <= bi < k && 0 <= bj < k && 0 <= s < k * k
      ensures BlockVars(k, bi, bj)[s] == GridVar(r, c, k * k) <==>
              bi == BandOf(r, k) && bj == BandOf(c, k) && s == home
    {
      UnflattenInRange(s, k, k);
      if BlockVars(k, bi, bj)[s] == GridVar(r, c, k * k) {
        // r == bi * k + s / k and c == bj * k + s % k, with both remainders below k.
        FlattenDivMod(bi, RowOf(s, k), k);
        FlattenDivMod(bj, ColOf(s, k), k);
      }
    }
  }

  // ---------------------------------------------------------------------------
  // Groups and distinctness
  // ---------------------------------------------------------------------------

  lemma RowGroupDistinct(g: Assignment, n: nat, r: int)
    requires Shape(g, n) && 0 <= r < n
    ensures Distinct(g, RowVars(n, r)) <==> RowDistinct(g, n, r)
  {
    var vs := RowVars(n, r);
    assert forall s :: 0 <= s < n ==> ValueOf(g, vs[s]) == g[r][s];
  }

  lemma ColumnGroupDistinct(g: Assignment, n: nat, c: int)
    requires Shape(g, n) && 0 <= c < n
    ensures Distinct(g, ColumnVars(n, c)) <==> ColumnDistinct(g, n, c)
  {
    var vs := ColumnVars(n, c);
    assert forall s :: 0 <= s < n ==> ValueOf(g, vs[s]) == g[s][c];
  }

  /** No block group holds a value twice exactly when no two cells of one block do. */
  lemma BlockGroupsDistinct(g: Assignment, k: nat)
    requires k > 0 && Shape(g, k * k)
    ensures (forall b :: 0 <= b < k * k ==> Distinct(g, BlockGroups(k)[b])) <==> BlocksDistinct(g, k)
  {
    var n := k * k;
    if forall b :: 0 <= b < n ==> Distinct(g, BlockGroups(k)[b]) {
      forall r1, c1, r2, c2 |
        0 <= r1 < n && 0 <= c1 < n && 0 <= r2 < n && 0 <= c2 < n &&
        (r1 != r2 || c1 != c2) && SameBlock(k, r1, c1, r2, c2)
        ensures g[r1][c1] != g[r2][c2]
      {
        CellMembership(k, r1, c1);
        CellMembership(k, r2, c2);
        var bi, bj := BandOf(r1, k), BandOf(c1, k);
        var b := Flatten(bi, bj, k);
        FlattenInRange(bi, bj, k, k);
        FlattenDivMod(bi, bj, k);
        var vs := BlockGroups(k)[b];
        assert vs == BlockVars(k, bi, bj);
        var s1 := Flatten(OffsetIn(r1, k), OffsetIn(c1, k), k);
        var s2 := Flatten(OffsetIn(r2, k), OffsetIn(c2, k), k);
        assert vs[s1] == GridVar(r1, c1, n);
        assert vs[s2] == GridVar(r2, c2, n);
        assert Distinct(g, vs);
        assert ValueOf(g, vs[s1]) != ValueOf(g, vs[s2]);
      }
    }
    if BlocksDistinct(g, k) {
      forall b | 0 <= b < n
        ensures Distinct(g, BlockGroups(k)[b])
      {
        UnflattenInRange(b, k, k);
        var bi, bj := RowOf(b, k), ColOf(b, k);
        var vs := BlockGroups(k)[b];
        assert vs == BlockVars(k, bi, bj);
        forall s | 0 <= s < n
          ensures Assigns(g, vs[s])
        {
          BlockSlotOnGrid(k, bi, bj, s);
        }
        forall s1, s2 | 0 <= s1 < n && 0 <= s2 < n && s1 != s2
          ensures ValueOf(g, vs[s1]) != ValueOf(g, vs[s2])
        {
          BlockSlotOnGrid(k, bi, bj, s1);
          BlockSlotOnGrid(k, bi, bj, s2);
          var v1, v2 := vs[s1], vs[s2];
          CellMembership(k, v2.row, v2.col);
          CellMembership(k, v1.row, v1.col);
          // s1 and s2 are the home slots of v1 and v2 in this block, so v1 != v2.
          assert v1.row != v2.row || v1.col != v2.col;
          assert SameBlock(k, v1.row, v1.col, v2.row, v2.col);
        }
      }
    }
  }

  /** The variable lists of cs's all-different constraints are exactly the lists posted with AllDifferent. */
  lemma {:induction false} GroupsMembers(cs: seq<Constraint>)
    ensures forall vs :: vs in Groups(cs) <==> AllDifferent(vs) in cs
  {
    if cs != [] {
      GroupsMembers(cs[1..]);
      assert cs == [cs[0]] + cs[1..];
    }
  }

  // ---------------------------------------------------------------------------
  // The model is the puzzle
  // ---------------------------------------------------------------------------

  /** When every group of the list is distinct, so are the rows, the columns and the blocks. */
  lemma DistinctGroupListsSeparateLines(g: Assignment, gs: seq<seq<IntVar>>, n: nat, kb: nat)
    requires Shape(g, n) && (kb > 0 ==> kb * kb == n)
    requires gs == RowGroups(n) + ColumnGroups(n) + BlockGroups(kb)
    requires forall x :: 0 <= x < |gs| ==> Distinct(g, gs[x])
    ensures forall r :: 0 <= r < n ==> RowDistinct(g, n, r)
    ensures forall c :: 0 <= c < n ==> ColumnDistinct(g, n, c)
    ensures kb > 0 ==> BlocksDistinct(g, kb)
  {
    forall r | 0 <= r < n
      ensures RowDistinct(g, n, r)
    {
      assert gs[r] == RowVars(n, r);
      RowGroupDistinct(g, n, r);
    }
    forall c | 0 <= c < n
      ensures ColumnDistinct(g, n, c)
    {
      assert gs[n + c] == ColumnVars(n, c);
      ColumnGroupDistinct(g, n, c);
    }
    if kb > 0 {
      forall b | 0 <= b < n
        ensures Distinct(g, BlockGroups(kb)[b])
      {
        assert gs[2 * n + b] == BlockGroups(kb)[b];
      }
      BlockGroupsDistinct(g, kb);
    }
  }

  lemma SatisfiedModelIsSolution(initial: seq<seq<int>>, k: int, m: Model, g: Assignment)
    requires SudokuModel(initial, k) == Ok(m) && Satisfies(m, g)
    ensures Fits(initial, k * k) && IsSolution(initial, k, g)
  {
    var n := m.n;
    var cs := m.constraints;
    ModelVariables(initial, k, m);
    forall r, c | 0 <= r < n && 0 <= c < n
      ensures 1 <= g[r][c] <= n
    {
      assert InDomain(g, m.vars[Flatten(r, c, n)]);
    }
    CluesExactlyPositiveEntries(initial, k, m);
    forall r, c | 0 <= r < n && 0 <= c < n && initial[r][c] > 0
      ensures g[r][c] == initial[r][c]
    {
      assert Holds(g, Equality(GridVar(r, c, n), initial[r][c]));
    }
    GroupLayout(initial, k, m);
    GroupsMembers(cs);
    var gs := Groups(cs);
    forall x | 0 <= x < |gs|
      ensures Distinct(g, gs[x])
    {
      assert gs[x] in gs;
      assert Holds(g, AllDifferent(gs[x]));
    }
    var kb := Iterations(k);
    assert kb > 0 ==> kb * kb == n;
    DistinctGroupListsSeparateLines(g, gs, n, kb);
  }

  /** Distinct rows, columns and blocks make every group of the list distinct. */
  lemma GroupListsDistinct(g: Assignment, gs: seq<seq<IntVar>>, n: nat, kb: nat)
    requires Shape(g, n) && (kb > 0 ==> kb * kb == n)
    requires gs == RowGroups(n) + ColumnGroups(n) + BlockGroups(kb)
    requires forall r :: 0 <= r < n ==> RowDistinct(g, n, r)
    requires forall c :: 0 <= c < n ==> ColumnDistinct(g, n, c)
    requires kb > 0 ==> BlocksDistinct(g, kb)
    ensures forall x :: 0 <= x < |gs| ==> Distinct(g, gs[x])
  {
    if kb > 0 {
      BlockGroupsDistinct(g, kb);
    }
    forall x | 0 <= x < |gs|
      ensures Distinct(g, gs[x])
    {
      if x < n {
        assert gs[x] == RowVars(n, x);
        RowGroupDistinct(g, n, x);
      } else if x < 2 * n {
        assert gs[x] == ColumnVars(n, x - n);
        ColumnGroupDistinct(g, n, x - n);
      } else {
        assert gs[x] == BlockGroups(kb)[x - 2 * n];
      }
    }
  }

  lemma SolutionSatisfiesModel(initial: seq<seq<int>>, k: int, m: Model, g: Assignment)
    requires SudokuModel(initial, k) == Ok(m)
    requires Fits(initial, k * k) && IsSolution(initial, k, g)
    ensures Satisfies(m, g)
  {
    var n := m.n;
    var cs := m.constraints;
    ModelVariables(initial, k, m);
    forall p | 0 <= p < |m.vars|
      ensures InDomain(g, m.vars[p])
    {
      assert OnGrid(m.vars[p], n);
    }
    CluesExactlyPositiveEntries(initial, k, m);
    GroupLayout(initial, k, m);
    GroupsMembers(cs);
    var gs := Groups(cs);
    GroupListsDistinct(g, gs, n, Iterations(k));
    forall e | e in cs
      ensures Holds(g, e)
    {
      if e.AllDifferent? {
        assert e.vars in gs;
      }
    }
  }

  /**
   * An assignment satisfies the model solve posts exactly when it solves the
   * puzzle: the constraints say no more and no less than the puzzle's rules.
   */
  lemma ModelSatisfiedIffSolution(initial: seq<seq<int>>, k: int, g: Assignment)
    requires Fits(initial, k * k)
    ensures SudokuModel(initial, k).Ok?
    ensures Satisfies(SudokuModel(initial, k).value, g) <==> IsSolution(initial, k, g)
  {
    var m := SudokuModel(initial, k).value;
    if Satisfies(m, g) {
      SatisfiedModelIsSolution(initial, k, m, g);
    }
    if IsSolution(initial, k, g) {
      SolutionSatisfiesModel(initial, k, m, g);
    }
  }

  /** A clue larger than n can never hold: the cell's domain is 1..n. */
  lemma ClueAboveSideUnsatisfiable(initial: seq<seq<int>>, k: int, g: Assignment, r: int, c: int)
    requires Fits(initial, k * k)
    requires 0 <= r < k * k && 0 <= c < k * k && initial[r][c] > k * k
    ensures SudokuModel(initial, k).Ok?
    ensures !Satisfies(SudokuModel(initial, k).value, g)
  {
    ModelSatisfiedIffSolution(initial, k, g);
  }
}
