/** Conway's Game of Life on an N×N torus, as the script's `update`
    callback computes it: cells hold 0 (off) or 255 (on), the next grid is
    built in a copy from the old one and then copied back. The neighbour
    total and the rule are modelled exactly as written, including the
    parenthesisation that divides only the last neighbour by 255 and the
    nesting that never turns an off cell on. */
module Conway {
  import opened Arith
  import opened Wrappers

  /** The value of a live cell. The script compares with a name `ON` that it
      never defines; its comments give the value 255. */
  const On: int := 255

  /** The grid side used unless a valid `--grid-size` is given. */
  const DefaultSize: int := 100

  /** A grid as a value: a sequence of rows. */
  type Board = seq<seq<int>>

  ghost predicate IsSquare(b: Board, n: nat) {
    |b| == n && forall i :: 0 <= i < n ==> |b[i]| == n
  }

  /** Every cell is off (0) or on (255). */
  ghost predicate IsBinary(b: Board) {
    forall i, j :: 0 <= i < |b| && 0 <= j < |b[i]| ==> b[i][j] == 0 || b[i][j] == On
  }

  /** The contents of a numpy grid. */
  ghost function Cells(g: array2<int>): (b: Board)
    reads g
    ensures |b| == g.Length0 && forall i :: 0 <= i < |b| ==> |b[i]| == g.Length1
    ensures forall i, j {:trigger g[i, j]} :: 0 <= i < g.Length0 && 0 <= j < g.Length1 ==> b[i][j] == g[i, j]
  {
    seq(g.Length0, i requires 0 <= i < g.Length0 reads g =>
      seq(g.Length1, j requires 0 <= j < g.Length1 reads g => g[i, j]))
  }

  // ---- indices -------------------------------------------------------------

  /** numpy's reading of an index in `[-n, n)`: a negative index counts
      from the end of the axis. */
  function PyIndex(k: int, n: int): (r: int)
    requires -n <= k < n
    ensures 0 <= r < n
    ensures k >= 0 ==> r == k
    ensures k < 0 ==> r == n + k
  {
    if k < 0 then k + n else k
  }

  /** The row or column before `k` on a torus of side `n`. */
  function Prev(k: int, n: int): (r: int)
    requires 0 <= k < n
    ensures 0 <= r < n
  {
    if k == 0 then n - 1 else k - 1
  }

  /** The row or column after `k` on a torus of side `n`. */
  function Succ(k: int, n: int): (r: int)
    requires 0 <= k < n
    ensures 0 <= r < n
  {
    if k == n - 1 then 0 else k + 1
  }

  /** The script's toroidal indices `(k-1)%N` and `(k+1)%N` are the
      neighbours before and after `k`, wrapping at the edges; and the term
      `grid[(i-1%N, ...)]`, which parses as `i - (1 % N)`, selects the same
      row as `(i - 1) % N` under negative indexing, for every N. */
  lemma {:induction false} TorusIndices(k: int, n: int)
    requires 0 <= k < n
    ensures (k - 1) % n == Prev(k, n) && (k + 1) % n == Succ(k, n)
    ensures -n <= k - 1 % n < n
    ensures PyIndex(k - 1 % n, n) == Prev(k, n)
  {
    if k == 0 {
      DivModUnique(-1, n, -1, n - 1);
    } else {
      DivModUnique(k - 1, n, 0, k - 1);
    }
    if k == n - 1 {
      DivModUnique(k + 1, n, 1, 0);
    } else {
      DivModUnique(k + 1, n, 0, k + 1);
    }
    if n == 1 {
      DivModUnique(1, n, 1, 0);
    } else {
      DivModUnique(1, n, 0, 1);
    }
  }

  // ---- one cell --------------------------------------------------------------

  /** 1 for a live cell, 0 otherwise. */
  function Live(v: int): nat { if v == On then 1 else 0 }

  /** The neighbour total of cell `(i, j)` exactly as parenthesised in
      `update`: the eight neighbour values are added, only the last one
      (down-right) divided by 255, and `int` truncates the sum toward zero. */
  function Total(b: Board, n: nat, i: nat, j: nat): int
    requires IsSquare(b, n) && i < n && j < n
  {
    var up, down, left, right := Prev(i, n), Succ(i, n), Prev(j, n), Succ(j, n);
    Trunc((b[i][left] + b[i][right] + b[up][j] + b[down][j]
           + b[up][left] + b[up][right] + b[down][left]) as real
          + b[down][right] as real / 255.0)
  }

  /** The rule of `update` for one cell: only a live cell is written; it dies
      when the total is below 2 or above 3 and stays alive otherwise. */
  function Rule(cell: int, total: int): (r: int)
    ensures cell != On ==> r == cell
    ensures cell == On ==> (r == 0 <==> total < 2 || total > 3)
    ensures cell == On ==> (r == On <==> 2 <= total <= 3)
  {
    if cell == On then
      if total < 2 || total > 3 then 0
      else if total == 3 then 255
      else cell
    else cell
  }

  function NextCell(b: Board, n: nat, i: nat, j: nat): int
    requires IsSquare(b, n) && i < n && j < n
  {
    Rule(b[i][j], Total(b, n, i, j))
  }

  /** The grid after one `update`, computed from the old grid only. */
  function NextBoard(b: Board, n: nat): (r: Board)
    requires IsSquare(b, n)
    ensures IsSquare(r, n)
    ensures forall i, j :: 0 <= i < n && 0 <= j < n ==> r[i][j] == NextCell(b, n, i, j)
  {
    seq(n, i requires 0 <= i < n => seq(n, j requires 0 <= j < n => NextCell(b, n, i, j)))
  }

  // ---- properties of the rule as written --------------------------------------

  /** No cell is ever born: a cell that is not on keeps its value. */
  lemma NoBirth(b: Board, n: nat, i: nat, j: nat)
    requires IsSquare(b, n) && i < n && j < n && b[i][j] != On
    ensures NextBoard(b, n)[i][j] == b[i][j]
  {
  }

  /** With 0/255 cells the total as written is 255 times the number of live
      cells among the first seven neighbours, plus 1 if the last neighbour
      is live. */
  lemma BinaryTotal(b: Board, n: nat, i: nat, j: nat)
    requires IsSquare(b, n) && IsBinary(b) && i < n && j < n
    ensures
      var up, down, left, right := Prev(i, n), Succ(i, n), Prev(j, n), Succ(j, n);
      Total(b, n, i, j)
        == 255 * (Live(b[i][left]) + Live(b[i][right]) + Live(b[up][j]) + Live(b[down][j])
                  + Live(b[up][left]) + Live(b[up][right]) + Live(b[down][left]))
           + Live(b[down][right])
  {
    var up, down, left, right := Prev(i, n), Succ(i, n), Prev(j, n), Succ(j, n);
    var s := b[i][left] + b[i][right] + b[up][j] + b[down][j]
             + b[up][left] + b[up][right] + b[down][left];
    var k := Live(b[i][left]) + Live(b[i][right]) + Live(b[up][j]) + Live(b[down][j])
             + Live(b[up][left]) + Live(b[up][right]) + Live(b[down][left]);
    var last := b[down][right];
    assert s == 255 * k;
    assert last as real / 255.0 == Live(last) as real;
    assert s as real + last as real / 255.0 == (255 * k + Live(last)) as real;
  }

  /** Hence the total as written is never 2 or 3 on a 0/255 grid. */
  lemma BinaryTotalNotTwoOrThree(b: Board, n: nat, i: nat, j: nat)
    requires IsSquare(b, n) && IsBinary(b) && i < n && j < n
    ensures Total(b, n, i, j) != 2 && Total(b, n, i, j) != 3
  {
    BinaryTotal(b, n, i, j);
  }

  /** So one `update` of a 0/255 grid clears every live cell: the whole
      grid becomes 0. */
  lemma BinaryBoardClears(b: Board, n: nat)
    requires IsSquare(b, n) && IsBinary(b)
    ensures forall i, j :: 0 <= i < n && 0 <= j < n ==> NextBoard(b, n)[i][j] == 0
  {
    forall i, j | 0 <= i < n && 0 <= j < n
      ensures NextBoard(b, n)[i][j] == 0
    {
      BinaryTotalNotTwoOrThree(b, n, i, j);
    }
  }

  /** Cell values stay within {0, 255} across `update`. */
  lemma StaysBinary(b: Board, n: nat)
    requires IsSquare(b, n) && IsBinary(b)
    ensures IsBinary(NextBoard(b, n))
  {
    var r := NextBoard(b, n);
    forall i, j | 0 <= i < |r| && 0 <= j < |r[i]|
      ensures r[i][j] == 0 || r[i][j] == On
    {
      assert r[i][j] == Rule(b[i][j], Total(b, n, i, j));
    }
  }

  // ---- the script's operations --------------------------------------------------

  /** `update`: fills a copy of the grid cell by cell from the old grid, then
      copies it back in place; the grid keeps its N×N shape. */
  method Update(grid: array2<int>, n: nat)
    requires grid.Length0 == n && grid.Length1 == n
    modifies grid
    ensures Cells(grid) == NextBoard(old(Cells(grid)), n)
  {
    ghost var b := Cells(grid);
    ghost var next := NextBoard(b, n);
    var newGrid := new int[n, n];
    forall i, j | 0 <= i < n && 0 <= j < n {
      newGrid[i, j] := grid[i, j];
    }
    var i := 0;
    while i < n
      modifies newGrid
      invariant 0 <= i <= n
      invariant forall r, c {:trigger next[r][c]} :: 0 <= r < i && 0 <= c < n ==> newGrid[r, c] == next[r][c]
      invariant forall r, c {:trigger newGrid[r, c]} :: i <= r < n && 0 <= c < n ==> newGrid[r, c] == b[r][c]
    {
      UpdateRow(grid, newGrid, n, i, b, next);
      i := i + 1;
    }
    forall r, c | 0 <= r < n && 0 <= c < n {
      grid[r, c] := newGrid[r, c];
    }
    BoardExt(Cells(grid), next, n);
  }

  /** The inner loop of `update`: row `i` of the copy receives the rule's
      result for each cell, every other row is left as it is. */
  method UpdateRow(grid: array2<int>, newGrid: array2<int>, n: nat, i: nat, ghost b: Board, ghost next: Board)
    requires grid.Length0 == n && grid.Length1 == n && newGrid.Length0 == n && newGrid.Length1 == n
    requires i < n && grid != newGrid && b == Cells(grid) && IsSquare(b, n)
    requires next == NextBoard(b, n) && IsSquare(next, n)
    requires forall c :: 0 <= c < n ==> newGrid[i, c] == b[i][c]
    modifies newGrid
    ensures forall c {:trigger next[i][c]} :: 0 <= c < n ==> newGrid[i, c] == next[i][c]
    ensures forall r, c :: 0 <= r < n && r != i && 0 <= c < n ==> newGrid[r, c] == old(newGrid[r, c])
  {
    var j := 0;
    while j < n
      invariant 0 <= j <= n
      invariant forall c {:trigger next[i][c]} :: 0 <= c < j ==> newGrid[i, c] == next[i][c]
      invariant forall c {:trigger newGrid[i, c]} :: j <= c < n ==> newGrid[i, c] == b[i][c]
      invariant forall r, c {:trigger newGrid[r, c]} :: 0 <= r < n && r != i && 0 <= c < n ==> newGrid[r, c] == old(newGrid[r, c])
    {
      var total := NeighbourTotal(grid, n, i, j);
      UpdateCell(grid, newGrid, n, i, j, total);
      assert newGrid[i, j] == NextCell(b, n, i, j) == next[i][j];
      j := j + 1;
    }
  }

  /** The body of the inner loop: only a live cell of the old grid is
      written in the copy, with the rule's result for its total. */
  method UpdateCell(grid: array2<int>, newGrid: array2<int>, n: nat, i: nat, j: nat, total: int)
    requires grid.Length0 == n && grid.Length1 == n && newGrid.Length0 == n && newGrid.Length1 == n
    requires i < n && j < n && grid != newGrid && newGrid[i, j] == grid[i, j]
    modifies newGrid
    ensures newGrid[i, j] == Rule(grid[i, j], total)
    ensures forall r, c :: 0 <= r < n && 0 <= c < n && (r, c) != (i, j) ==> newGrid[r, c] == old(newGrid[r, c])
  {
    if grid[i, j] == On {
      if total < 2 || total > 3 {
        newGrid[i, j] := 0;
      } else if total == 3 {
        newGrid[i, j] := 255;
      }
    }
  }

  /** Two N×N boards with the same cells are equal. */
  lemma BoardExt(x: Board, y: Board, n: nat)
    requires IsSquare(x, n) && IsSquare(y, n)
    requires forall i, j :: 0 <= i < n && 0 <= j < n ==> x[i][j] == y[i][j]
    ensures x == y
  {
    forall i | 0 <= i < n
      ensures x[i] == y[i]
    {
    }
  }

  /** The neighbour total of `update` for cell `(i, j)`, read from the
      grid with the script's own index expressions. */
  method NeighbourTotal(grid: array2<int>, n: nat, i: nat, j: nat) returns (total: int)
    requires grid.Length0 == n && grid.Length1 == n && i < n && j < n
    ensures total == Total(Cells(grid), n, i, j)
  {
    TorusIndices(i, n);
    TorusIndices(j, n);
    total := Trunc((grid[i, (j - 1) % n] + grid[i, (j + 1) % n]
                    + grid[(i - 1) % n, j] + grid[(i + 1) % n, j]
                    + grid[PyIndex(i - 1 % n, n), (j - 1) % n] + grid[(i - 1) % n, (j + 1) % n]
                    + grid[(i + 1) % n, (j - 1) % n]) as real
                   + grid[(i + 1) % n, (j + 1) % n] as real / 255.0);
  }

  /** The glider pattern of `addGlider`, top-left cell first. */
  const Glider: Board := [[0, 0, 255], [255, 0, 255], [0, 255, 255]]

  /** `addGlider(i, j, grid)`: the slice assignment overwrites the 3×3 block
      with top-left cell `(i, j)`. The model takes blocks that lie inside
      the grid, which covers the script's only call, at `(1, 1)`; numpy
      would clip a block that sticks out past the far edge (and refuse the
      shape mismatch), and would count a negative `i` or `j` from the end. */
  method AddGlider(i: int, j: int, grid: array2<int>)
    requires 0 <= i && i + 3 <= grid.Length0 && 0 <= j && j + 3 <= grid.Length1
    modifies grid
    ensures forall r, c :: 0 <= r < grid.Length0 && 0 <= c < grid.Length1 ==>
      grid[r, c] == (if i <= r < i + 3 && j <= c < j + 3 then Glider[r - i][c - j] else old(grid[r, c]))
    ensures IsBinary(old(Cells(grid))) ==> IsBinary(Cells(grid))
  {
    ghost var before := Cells(grid);
    forall r, c | i <= r < i + 3 && j <= c < j + 3 {
      grid[r, c] := Glider[r - i][c - j];
    }
    if IsBinary(before) {
      GliderKeepsBinary(before, Cells(grid), i, j);
    }
  }

  /** Writing the glider into a grid of off and on cells leaves a grid of
      off and on cells. */
  lemma GliderKeepsBinary(before: Board, after: Board, i: int, j: int)
    requires IsBinary(before) && |after| == |before|
    requires forall r :: 0 <= r < |after| ==> |after[r]| == |before[r]|
    requires forall r, c :: 0 <= r < |after| && 0 <= c < |after[r]| ==>
      after[r][c] == (if i <= r < i + 3 && j <= c < j + 3 then Glider[r - i][c - j] else before[r][c])
    ensures IsBinary(after)
  {
    GliderIsBinary();
    forall r, c | 0 <= r < |after| && 0 <= c < |after[r]|
      ensures after[r][c] == 0 || after[r][c] == On
    {
      if i <= r < i + 3 && j <= c < j + 3 {
        assert after[r][c] == Glider[r - i][c - j];
      } else {
        assert after[r][c] == before[r][c];
      }
    }
  }

  lemma GliderIsBinary()
    ensures IsBinary(Glider)
  {
  }

  /** The grid side chosen by `main`: the `--grid-size` value is used only
      on the random branch (neither `--glider` nor `--gosper`), only when it
      is given and only when it exceeds 8; otherwise the side is 100. */
  function GridSize(arg: Option<int>, glider: bool, gosper: bool): (r: int)
    ensures r > 8
    ensures r != DefaultSize ==> !glider && !gosper && arg == Some(r)
    ensures !glider && !gosper && arg.Some? && arg.value > 8 ==> r == arg.value
  {
    if !glider && !gosper && arg.Some? && arg.value > 8 then arg.value else DefaultSize
  }
}
