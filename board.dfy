/** The sudoku board as the solver sees it: a rectangular grid whose cells are
    either a placed digit or the list of digits still possible there, the
    positions that make up its units (rows, columns, 3x3 blocks), and the
    measure that every propagation step lowers. */
module Board {

  /** A cell of the grid: a Python `int` (placed) or a Python list of remaining
      candidates. The list is a sequence because its order is observable. */
  datatype Cell = Fixed(v: int) | Open(cands: seq<int>)

  /** The board's value: a list of rows. */
  type Grid = seq<seq<Cell>>

  /** (row, column) */
  type Pos = (int, int)

  datatype Option<T> = None | Some(value: T)

  /** Why `assert_correct_format` rejected its input (sudokusolver/utils.py:9-19). */
  datatype FormatReason = RowCount | RowLength | ElementType

  /** The exceptions the core raises: `UnsolvableSudoku`, `IncorrectSudokuFormat`,
      and the `IndexError` that `_complete` hits on a grid smaller than 9x9. */
  datatype Error = UnsolvableSudoku | IndexError | IncorrectSudokuFormat(reason: FormatReason)

  /** Normal completion, or the exception that escaped. */
  datatype Status = Ok | Raised(error: Error)

  /** The board an in-place routine leaves behind, with how it ended. */
  datatype Run = Run(grid: Grid, status: Status)

  /** Which block extraction to use: the source's `_yield_blocks` as written,
      or the one its docstring ("Yield 3x3 blocks") intends. */
  datatype Layout = AsWritten | Intended

  // ---------------------------------------------------------------- shape

  function Width(g: Grid): nat
  {
    if |g| == 0 then 0 else |g[0]|
  }

  predicate IsRect(g: Grid)
  {
    forall i :: 0 <= i < |g| ==> |g[i]| == Width(g)
  }

  predicate Is9x9(g: Grid)
  {
    |g| == 9 && IsRect(g) && Width(g) == 9
  }

  predicate InBounds(g: Grid, p: Pos)
  {
    0 <= p.0 < |g| && 0 <= p.1 < Width(g)
  }

  /** Every position of the unit lies on the grid. */
  predicate UnitIn(g: Grid, pos: seq<Pos>)
  {
    forall t :: 0 <= t < |pos| ==> InBounds(g, pos[t])
  }

  /** No cell occurs twice in the unit (so no list is reached twice). */
  predicate Distinct(pos: seq<Pos>)
  {
    forall s, t :: 0 <= s < t < |pos| ==> pos[s] != pos[t]
  }

  /** Grids of the same shape. */
  predicate SameShape(h: Grid, g: Grid)
  {
    |h| == |g| && forall i :: 0 <= i < |g| ==> |h[i]| == |g[i]|
  }

  /** The value of a board held in a two-dimensional array. */
  function Contents(b: array2<Cell>): (g: Grid)
    reads b
    ensures |g| == b.Length0 && forall i :: 0 <= i < |g| ==> |g[i]| == b.Length1
    ensures IsRect(g) && (b.Length0 > 0 ==> Width(g) == b.Length1)
  {
    seq(b.Length0, i requires 0 <= i < b.Length0 reads b =>
      seq(b.Length1, j requires 0 <= j < b.Length1 reads b => b[i, j]))
  }

  // ---------------------------------------------------------------- units

  /** Row i of a grid with C columns, left to right. */
  function RowUnit(i: int, C: nat): seq<Pos>
  {
    seq(C, j => (i, j))
  }

  /** Column j of a grid with R rows, top to bottom: one tuple of `zip(*sudoku)`. */
  function ColUnit(j: int, R: nat): seq<Pos>
  {
    seq(R, i => (i, j))
  }

  /** The cells `_yield_blocks` gathers on its iteration (i, j)
      (sudokusolver/sudokusolver.py:35-40): rows [3i, 3i+3) and, because the
      column slice also uses `i`, columns [3i, 3i+3). The index j is unused. */
  function BlockUnitAsWritten(i: int, j: int): (u: seq<Pos>)
    ensures u == BlockUnit(i, i)
  {
    seq(9, t => (3 * i + t / 3, 3 * i + t % 3))
  }

  /** The 3x3 block (i, j): rows [3i, 3i+3), columns [3j, 3j+3), row by row. */
  function BlockUnit(i: int, j: int): seq<Pos>
  {
    seq(9, t => (3 * i + t / 3, 3 * j + t % 3))
  }

  /** `for row in sudoku`: every row of an R x C grid. */
  function RowUnits(R: nat, C: nat): seq<seq<Pos>>
  {
    seq(R, i => RowUnit(i, C))
  }

  /** `for column in zip(*sudoku)`: every column of an R x C grid. */
  function ColUnits(R: nat, C: nat): seq<seq<Pos>>
  {
    seq(C, j => ColUnit(j, R))
  }

  /** The nine units the two nested loops of `_yield_blocks` visit, in order. */
  function BlockUnits(layout: Layout): seq<seq<Pos>>
  {
    seq(9, k => if layout == AsWritten then BlockUnitAsWritten(k / 3, k % 3) else BlockUnit(k / 3, k % 3))
  }

  // ---------------------------------------------------------------- reading and writing a unit

  /** The cells of a unit, in unit order (the Python list or tuple of cells). */
  function ReadUnit(g: Grid, pos: seq<Pos>): (u: seq<Cell>)
    requires IsRect(g) && UnitIn(g, pos)
    ensures |u| == |pos|
  {
    seq(|pos|, t requires 0 <= t < |pos| => g[pos[t].0][pos[t].1])
  }

  /** The first index of p in pos. */
  function IndexOf(pos: seq<Pos>, p: Pos): (r: nat)
    requires p in pos
    ensures r < |pos| && pos[r] == p
    ensures forall s :: 0 <= s < r ==> pos[s] != p
  {
    if pos[0] == p then 0 else 1 + IndexOf(pos[1..], p)
  }

  lemma IndexOfDistinct(pos: seq<Pos>, t: nat)
    requires Distinct(pos) && t < |pos|
    ensures IndexOf(pos, pos[t]) == t
  {
  }

  /** The grid after the cells of a unit have taken the values v: the cell at
      pos[t] holds v[t], every other cell is unchanged. */
  function WriteUnit(g: Grid, pos: seq<Pos>, v: seq<Cell>): (h: Grid)
    requires |v| == |pos|
    ensures SameShape(h, g)
  {
    seq(|g|, i requires 0 <= i < |g| =>
      seq(|g[i]|, j requires 0 <= j < |g[i]| =>
        if (i, j) in pos then v[IndexOf(pos, (i, j))] else g[i][j]))
  }

  lemma WriteUnitAt(g: Grid, pos: seq<Pos>, v: seq<Cell>, t: nat)
    requires |v| == |pos| && IsRect(g) && UnitIn(g, pos) && Distinct(pos) && t < |pos|
    ensures WriteUnit(g, pos, v)[pos[t].0][pos[t].1] == v[t]
  {
    IndexOfDistinct(pos, t);
  }

  lemma SameShapeRect(h: Grid, g: Grid)
    requires SameShape(h, g) && IsRect(g)
    ensures IsRect(h) && Width(h) == Width(g)
  {
  }

  /** `sudoku[i][j] = x` on a copy. */
  function SetCell(g: Grid, i: nat, j: nat, x: Cell): (h: Grid)
    requires i < |g| && j < |g[i]|
    ensures SameShape(h, g)
  {
    g[i := g[i][j := x]]
  }

  // ---------------------------------------------------------------- the narrowing order

  /** The measure of one cell: an open cell weighs one more than its number of
      candidates, a placed cell nothing. */
  function Weight(c: Cell): nat
  {
    match c
    case Fixed(_) => 0
    case Open(cs) => |cs| + 1
  }

  /** The digits a cell still allows. */
  function Cands(c: Cell): seq<int>
  {
    match c
    case Fixed(v) => [v]
    case Open(cs) => cs
  }

  /** n is o, or n comes from the open cell o by dropping candidates or by
      placing one of them: lists never grow and a placed digit never reverts. */
  predicate Narrows(n: Cell, o: Cell)
  {
    n == o || (o.Open? && Weight(n) < Weight(o) && forall x :: x in Cands(n) ==> x in o.cands)
  }

  predicate GridNarrows(h: Grid, g: Grid)
  {
    SameShape(h, g) && forall i, j :: 0 <= i < |g| && 0 <= j < |g[i]| ==> Narrows(h[i][j], g[i][j])
  }

  lemma NarrowsTrans(a: Cell, b: Cell, c: Cell)
    requires Narrows(a, b) && Narrows(b, c)
    ensures Narrows(a, c)
  {
  }

  lemma GridNarrowsTrans(a: Grid, b: Grid, c: Grid)
    requires GridNarrows(a, b) && GridNarrows(b, c)
    ensures GridNarrows(a, c)
  {
    forall i, j | 0 <= i < |c| && 0 <= j < |c[i]|
      ensures Narrows(a[i][j], c[i][j])
    {
      NarrowsTrans(a[i][j], b[i][j], c[i][j]);
    }
  }

  lemma GridNarrowsRefl(g: Grid)
    ensures GridNarrows(g, g)
  {
  }

  /** A placed digit stays placed with the same value under narrowing. */
  lemma NarrowsKeepsFixed(n: Cell, v: int)
    requires Narrows(n, Fixed(v))
    ensures n == Fixed(v)
  {
  }

  /** Sum of the weights of a row. */
  function RowPotential(s: seq<Cell>): nat
  {
    if s == [] then 0 else Weight(s[0]) + RowPotential(s[1..])
  }

  /** Sum over all open cells of (number of candidates + 1). */
  function Potential(g: Grid): nat
  {
    if g == [] then 0 else RowPotential(g[0]) + Potential(g[1..])
  }

  lemma {:induction false} RowPotentialNarrows(s: seq<Cell>, t: seq<Cell>)
    requires |s| == |t| && forall j :: 0 <= j < |t| ==> Narrows(s[j], t[j])
    ensures RowPotential(s) <= RowPotential(t)
    ensures s != t ==> RowPotential(s) < RowPotential(t)
  {
    if s != [] {
      RowPotentialNarrows(s[1..], t[1..]);
      assert Narrows(s[0], t[0]);
      if s[1..] == t[1..] && s != t {
        assert s == [s[0]] + s[1..] && t == [t[0]] + t[1..];
        assert s[0] != t[0];
      }
    }
  }

  /** Narrowing a grid never raises its potential, and a grid that changed has
      strictly lower potential: the measure that bounds `base_routine`. */
  lemma {:induction false} PotentialNarrows(h: Grid, g: Grid)
    requires GridNarrows(h, g)
    ensures Potential(h) <= Potential(g)
    ensures h != g ==> Potential(h) < Potential(g)
  {
    if g != [] {
      assert GridNarrows(h[1..], g[1..]) by {
        forall i, j | 0 <= i < |g[1..]| && 0 <= j < |g[1..][i]|
          ensures Narrows(h[1..][i][j], g[1..][i][j])
        {
          assert h[1..][i] == h[i + 1] && g[1..][i] == g[i + 1];
        }
      }
      PotentialNarrows(h[1..], g[1..]);
      RowPotentialNarrows(h[0], g[0]);
      if h[1..] == g[1..] && h != g {
        assert h == [h[0]] + h[1..] && g == [g[0]] + g[1..];
      }
    }
  }

  lemma {:induction false} RowPotentialUpdate(s: seq<Cell>, j: nat, x: Cell)
    requires j < |s|
    ensures RowPotential(s[j := x]) + Weight(s[j]) == RowPotential(s) + Weight(x)
  {
    if j > 0 {
      RowPotentialUpdate(s[1..], j - 1, x);
      assert s[j := x][1..] == s[1..][j - 1 := x];
    }
  }

  /** Changing one cell changes the potential by the difference of the weights. */
  lemma {:induction false} PotentialSetCell(g: Grid, i: nat, j: nat, x: Cell)
    requires i < |g| && j < |g[i]|
    ensures Potential(SetCell(g, i, j, x)) + Weight(g[i][j]) == Potential(g) + Weight(x)
  {
    if i == 0 {
      RowPotentialUpdate(g[0], j, x);
      assert SetCell(g, i, j, x)[1..] == g[1..];
    } else {
      PotentialSetCell(g[1..], i - 1, j, x);
      assert SetCell(g, i, j, x)[1..] == SetCell(g[1..], i - 1, j, x);
    }
  }
}
