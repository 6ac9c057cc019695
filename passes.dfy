/** The propagator on whole grids: applying a per-unit rule to a list of units
    in order (the `_filterrows` ... `_checkblocks` drivers), `_complete`, one
    pass of `base_routine`, and `base_routine` itself, as functions of the grid.
    The in-place methods of module SudokuSolver are proved equal to these. */
module Passes {
  import opened Board
  import opened Utils
  import opened Units

  /** The rule keeps the unit's length. */
  ghost predicate Preserving(f: seq<Cell> -> seq<Cell>)
  {
    forall u :: |f(u)| == |u|
  }

  /** The rule only narrows cells. */
  ghost predicate Narrowing(f: seq<Cell> -> seq<Cell>)
  {
    forall u, k :: 0 <= k < |u| && k < |f(u)| ==> Narrows(f(u)[k], u[k])
  }

  predicate UnitsIn(g: Grid, units: seq<seq<Pos>>)
  {
    forall n :: 0 <= n < |units| ==> UnitIn(g, units[n])
  }

  predicate AllDistinct(units: seq<seq<Pos>>)
  {
    forall n :: 0 <= n < |units| ==> Distinct(units[n])
  }

  /** The rule applied to one unit of the grid, writing its cells back. */
  function Step(g: Grid, pos: seq<Pos>, f: seq<Cell> -> seq<Cell>): (h: Grid)
    requires IsRect(g) && UnitIn(g, pos) && Preserving(f)
    ensures SameShape(h, g) && IsRect(h) && Width(h) == Width(g)
  {
    var h := WriteUnit(g, pos, f(ReadUnit(g, pos)));
    SameShapeRect(h, g);
    h
  }

  /** `for unit in units: rule(unit)`: the rule applied to each unit in turn,
      each seeing the cells the earlier ones left. */
  function ApplyUnits(g: Grid, units: seq<seq<Pos>>, f: seq<Cell> -> seq<Cell>): (h: Grid)
    requires IsRect(g) && UnitsIn(g, units) && Preserving(f)
    ensures SameShape(h, g) && IsRect(h) && Width(h) == Width(g)
  {
    if units == [] then g
    else
      var h := ApplyUnits(g, units[..|units| - 1], f);
      Step(h, units[|units| - 1], f)
  }

  /** A prefix of usable units is usable. */
  lemma ApplyUnitsPrefix(g: Grid, units: seq<seq<Pos>>, n: nat)
    requires UnitsIn(g, units) && n <= |units|
    ensures UnitsIn(g, units[..n])
  {
    assert forall k :: 0 <= k < n ==> units[..n][k] == units[k];
  }

  /** The fold over the first n + 1 units is one more step after the fold
      over the first n. */
  lemma ApplyUnitsSnoc(g: Grid, units: seq<seq<Pos>>, n: nat, f: seq<Cell> -> seq<Cell>)
    requires IsRect(g) && UnitsIn(g, units) && Preserving(f) && n < |units|
    ensures UnitsIn(g, units[..n]) && UnitsIn(g, units[..n + 1])
    ensures UnitIn(ApplyUnits(g, units[..n], f), units[n])
    ensures ApplyUnits(g, units[..n + 1], f) == Step(ApplyUnits(g, units[..n], f), units[n], f)
  {
    assert units[..n + 1][..n] == units[..n];
    assert UnitIn(g, units[n]);
  }

  lemma StepNarrows(g: Grid, pos: seq<Pos>, f: seq<Cell> -> seq<Cell>)
    requires IsRect(g) && UnitIn(g, pos) && Preserving(f) && Narrowing(f)
    ensures GridNarrows(Step(g, pos, f), g)
  {
    var u := ReadUnit(g, pos);
    forall i, j | 0 <= i < |g| && 0 <= j < |g[i]| && (i, j) in pos
      ensures Narrows(Step(g, pos, f)[i][j], g[i][j])
    {
      var t := IndexOf(pos, (i, j));
      assert u[t] == g[i][j];
      assert Narrows(f(u)[t], u[t]);
    }
  }

  /** A rule that only narrows cells, applied to any units, only narrows the grid. */
  lemma {:induction false} ApplyUnitsNarrows(g: Grid, units: seq<seq<Pos>>, f: seq<Cell> -> seq<Cell>)
    requires IsRect(g) && UnitsIn(g, units) && Preserving(f) && Narrowing(f)
    ensures GridNarrows(ApplyUnits(g, units, f), g)
  {
    if units == [] {
      GridNarrowsRefl(g);
    } else {
      var front := units[..|units| - 1];
      ApplyUnitsNarrows(g, front, f);
      var h := ApplyUnits(g, front, f);
      StepNarrows(h, units[|units| - 1], f);
      GridNarrowsTrans(Step(h, units[|units| - 1], f), h, g);
    }
  }

  // ---------------------------------------------------------------- rows and columns

  lemma RowUnitFacts(i: int, C: nat)
    ensures Distinct(RowUnit(i, C))
    ensures forall p :: p in RowUnit(i, C) <==> p.0 == i && 0 <= p.1 < C
    ensures forall j :: 0 <= j < C ==> IndexOf(RowUnit(i, C), (i, j)) == j
  {
    var row := RowUnit(i, C);
    forall j | 0 <= j < C ensures (i, j) in row && IndexOf(row, (i, j)) == j {
      assert row[j] == (i, j);
      IndexOfDistinct(row, j);
    }
  }

  lemma ColUnitFacts(j: int, R: nat)
    ensures Distinct(ColUnit(j, R))
    ensures forall p :: p in ColUnit(j, R) <==> p.1 == j && 0 <= p.0 < R
    ensures forall i :: 0 <= i < R ==> IndexOf(ColUnit(j, R), (i, j)) == i
  {
    var col := ColUnit(j, R);
    forall i | 0 <= i < R ensures (i, j) in col && IndexOf(col, (i, j)) == i {
      assert col[i] == (i, j);
      IndexOfDistinct(col, i);
    }
  }

  /** The rows of a rectangular grid lie on it and have no repeated cell. */
  lemma RowUnitsFit(g: Grid)
    requires IsRect(g)
    ensures UnitsIn(g, RowUnits(|g|, Width(g))) && AllDistinct(RowUnits(|g|, Width(g)))
  {
    forall i | 0 <= i < |g| ensures Distinct(RowUnit(i, Width(g))) {
      RowUnitFacts(i, Width(g));
    }
  }

  /** The columns of a rectangular grid lie on it and have no repeated cell. */
  lemma ColUnitsFit(g: Grid, C: nat)
    requires IsRect(g) && (|g| > 0 ==> C == Width(g))
    ensures UnitsIn(g, ColUnits(|g|, C)) && AllDistinct(ColUnits(|g|, C))
  {
    forall j | 0 <= j < C ensures Distinct(ColUnit(j, |g|)) {
      ColUnitFacts(j, |g|);
    }
  }

  /** Column j of a grid, top to bottom. */
  function Col(g: Grid, j: int): (s: seq<Cell>)
    requires IsRect(g) && 0 <= j < Width(g)
    ensures |s| == |g|
  {
    seq(|g|, i requires 0 <= i < |g| => g[i][j])
  }

  /** Rewriting row i when it still holds the cells of g. */
  lemma RowStep(g: Grid, h: Grid, f: seq<Cell> -> seq<Cell>, i: int)
    requires IsRect(g) && IsRect(h) && SameShape(h, g) && Preserving(f) && 0 <= i < |g|
    requires forall j :: 0 <= j < Width(g) ==> h[i][j] == g[i][j]
    ensures UnitIn(h, RowUnit(i, Width(g)))
    ensures forall j :: 0 <= j < Width(g) ==> Step(h, RowUnit(i, Width(g)), f)[i][j] == f(g[i])[j]
    ensures forall k, j :: 0 <= k < |g| && k != i && 0 <= j < Width(g) ==>
      Step(h, RowUnit(i, Width(g)), f)[k][j] == h[k][j]
  {
    var C := Width(g);
    var row := RowUnit(i, C);
    RowUnitFacts(i, C);
    assert ReadUnit(h, row) == g[i] by {
      forall j | 0 <= j < C ensures ReadUnit(h, row)[j] == g[i][j] {
        assert row[j] == (i, j);
      }
    }
    forall j | 0 <= j < C ensures Step(h, row, f)[i][j] == f(g[i])[j] {
      assert (i, j) in row;
    }
    forall k, j | 0 <= k < |g| && k != i && 0 <= j < C ensures Step(h, row, f)[k][j] == h[k][j] {
      assert (k, j) !in row;
    }
  }

  lemma RowsPrefixStep(g: Grid, f: seq<Cell> -> seq<Cell>, n: nat, h: Grid)
    requires IsRect(g) && IsRect(h) && SameShape(h, g) && Preserving(f) && 0 < n <= |g|
    requires forall i, j :: n - 1 <= i < |g| && 0 <= j < Width(g) ==> h[i][j] == g[i][j]
    requires forall i, j :: 0 <= i < n - 1 && 0 <= j < Width(g) ==> h[i][j] == f(g[i])[j]
    ensures UnitIn(h, RowUnit(n - 1, Width(g)))
    ensures forall i, j :: n <= i < |g| && 0 <= j < Width(g) ==>
      Step(h, RowUnit(n - 1, Width(g)), f)[i][j] == g[i][j]
    ensures forall i, j :: 0 <= i < n && 0 <= j < Width(g) ==>
      Step(h, RowUnit(n - 1, Width(g)), f)[i][j] == f(g[i])[j]
  {
    RowStep(g, h, f, n - 1);
  }

  lemma {:induction false} ApplyRowsPrefix(g: Grid, f: seq<Cell> -> seq<Cell>, n: nat)
    requires IsRect(g) && Preserving(f) && n <= |g|
    ensures UnitsIn(g, RowUnits(|g|, Width(g))[..n])
    ensures forall i, j :: n <= i < |g| && 0 <= j < Width(g) ==>
      ApplyUnits(g, RowUnits(|g|, Width(g))[..n], f)[i][j] == g[i][j]
    ensures forall i, j :: 0 <= i < n && 0 <= j < Width(g) ==>
      ApplyUnits(g, RowUnits(|g|, Width(g))[..n], f)[i][j] == f(g[i])[j]
  {
    var rows := RowUnits(|g|, Width(g));
    RowUnitsFit(g);
    if n > 0 {
      ApplyRowsPrefix(g, f, n - 1);
      var prefix := rows[..n];
      assert prefix[..n - 1] == rows[..n - 1];
      assert prefix[n - 1] == RowUnit(n - 1, Width(g));
      var h := ApplyUnits(g, rows[..n - 1], f);
      assert ApplyUnits(g, prefix, f) == Step(h, RowUnit(n - 1, Width(g)), f);
      RowsPrefixStep(g, f, n, h);
    }
  }

  /** `_filterrows` / `_checkrows` on any rectangular grid: cell (i, j) ends
      as position j of the rule applied to row i. */
  lemma ApplyRows(g: Grid, f: seq<Cell> -> seq<Cell>)
    requires IsRect(g) && Preserving(f)
    ensures UnitsIn(g, RowUnits(|g|, Width(g)))
    ensures forall i, j :: 0 <= i < |g| && 0 <= j < Width(g) ==>
      ApplyUnits(g, RowUnits(|g|, Width(g)), f)[i][j] == f(g[i])[j]
  {
    ApplyRowsPrefix(g, f, |g|);
    assert RowUnits(|g|, Width(g))[..|g|] == RowUnits(|g|, Width(g));
  }

  /** Rewriting column j when it still holds the cells of g. */
  lemma ColStep(g: Grid, h: Grid, f: seq<Cell> -> seq<Cell>, j: int)
    requires IsRect(g) && IsRect(h) && SameShape(h, g) && Preserving(f) && 0 <= j < Width(g)
    requires forall i :: 0 <= i < |g| ==> h[i][j] == g[i][j]
    ensures UnitIn(h, ColUnit(j, |g|))
    ensures forall i, k :: 0 <= i < |g| && 0 <= k < Width(g) ==>
      Step(h, ColUnit(j, |g|), f)[i][k] == if k == j then f(Col(g, j))[i] else h[i][k]
  {
    var R := |g|;
    var col := ColUnit(j, R);
    ColUnitFacts(j, R);
    assert ReadUnit(h, col) == Col(g, j) by {
      forall i | 0 <= i < R ensures ReadUnit(h, col)[i] == Col(g, j)[i] {
        assert col[i] == (i, j);
      }
    }
  }

  lemma ColsPrefixStep(g: Grid, f: seq<Cell> -> seq<Cell>, n: nat, h: Grid)
    requires IsRect(g) && IsRect(h) && SameShape(h, g) && Preserving(f) && 0 < n <= Width(g)
    requires forall i, j :: 0 <= i < |g| && n - 1 <= j < Width(g) ==> h[i][j] == g[i][j]
    requires forall i, j :: 0 <= i < |g| && 0 <= j < n - 1 ==> h[i][j] == f(Col(g, j))[i]
    ensures UnitIn(h, ColUnit(n - 1, |g|))
    ensures forall i, j :: 0 <= i < |g| && n <= j < Width(g) ==>
      Step(h, ColUnit(n - 1, |g|), f)[i][j] == g[i][j]
    ensures forall i, j :: 0 <= i < |g| && 0 <= j < n ==>
      Step(h, ColUnit(n - 1, |g|), f)[i][j] == f(Col(g, j))[i]
  {
    ColStep(g, h, f, n - 1);
  }

  lemma {:induction false} ApplyColsPrefix(g: Grid, f: seq<Cell> -> seq<Cell>, n: nat)
    requires IsRect(g) && Preserving(f) && n <= Width(g)
    ensures UnitsIn(g, ColUnits(|g|, Width(g))[..n])
    ensures forall i, j :: 0 <= i < |g| && n <= j < Width(g) ==>
      ApplyUnits(g, ColUnits(|g|, Width(g))[..n], f)[i][j] == g[i][j]
    ensures forall i, j :: 0 <= i < |g| && 0 <= j < n ==>
      ApplyUnits(g, ColUnits(|g|, Width(g))[..n], f)[i][j] == f(Col(g, j))[i]
  {
    var cols := ColUnits(|g|, Width(g));
    ColUnitsFit(g, Width(g));
    if n > 0 {
      ApplyColsPrefix(g, f, n - 1);
      ApplyUnitsSnoc(g, cols, n - 1, f);
      var h := ApplyUnits(g, cols[..n - 1], f);
      ColsPrefixStep(g, f, n, h);
    }
  }

  /** `_filtercols` / `_checkcols` on any rectangular grid: the column tuples of
      `zip(*sudoku)` alias the cells, so cell (i, j) ends as position i of the
      rule applied to column j. */
  lemma ApplyCols(g: Grid, f: seq<Cell> -> seq<Cell>)
    requires IsRect(g) && Preserving(f)
    ensures UnitsIn(g, ColUnits(|g|, Width(g)))
    ensures forall i, j :: 0 <= i < |g| && 0 <= j < Width(g) ==>
      ApplyUnits(g, ColUnits(|g|, Width(g)), f)[i][j] == f(Col(g, j))[i]
  {
    ApplyColsPrefix(g, f, Width(g));
    assert ColUnits(|g|, Width(g))[..Width(g)] == ColUnits(|g|, Width(g));
  }

  // ---------------------------------------------------------------- blocks

  /** (a, b) names one of the nine 3x3 blocks. */
  predicate IsBlock(p: (int, int))
  {
    0 <= p.0 < 3 && 0 <= p.1 < 3
  }

  /** Cell (r, c) sits at place (r % 3) * 3 + c % 3 of block (r / 3, c / 3). */
  lemma CellInBlock(r: int, c: int)
    requires 0 <= r < 9 && 0 <= c < 9
    ensures IsBlock((r / 3, c / 3)) && 0 <= (r % 3) * 3 + c % 3 < 9
    ensures BlockUnit(r / 3, c / 3)[(r % 3) * 3 + c % 3] == (r, c)
  {
    var t := (r % 3) * 3 + c % 3;
    assert t / 3 == r % 3 && t % 3 == c % 3;
  }

  /** Place t of block (a, b) is the cell (3a + t / 3, 3b + t % 3). */
  lemma BlockCell(a: int, b: int, t: int)
    requires IsBlock((a, b)) && 0 <= t < 9
    ensures var r, c := 3 * a + t / 3, 3 * b + t % 3;
      0 <= r < 9 && 0 <= c < 9 && r / 3 == a && c / 3 == b && (r % 3) * 3 + c % 3 == t
  {
  }

  lemma BlockUnitFacts(a: int, b: int)
    requires IsBlock((a, b))
    ensures Distinct(BlockUnit(a, b))
    ensures forall p :: p in BlockUnit(a, b) ==> 0 <= p.0 < 9 && 0 <= p.1 < 9 && p.0 / 3 == a && p.1 / 3 == b
  {
    var B := BlockUnit(a, b);
    forall t | 0 <= t < 9 ensures 0 <= B[t].0 < 9 && 0 <= B[t].1 < 9 && B[t].0 / 3 == a && B[t].1 / 3 == b {
      BlockCell(a, b, t);
    }
    forall s, t | 0 <= s < t < 9 ensures B[s] != B[t] {
      BlockCell(a, b, s);
      BlockCell(a, b, t);
    }
  }

  /** The index of cell (r, c) inside its own block. */
  lemma BlockIndex(r: int, c: int)
    requires 0 <= r < 9 && 0 <= c < 9
    ensures IsBlock((r / 3, c / 3))
    ensures (r, c) in BlockUnit(r / 3, c / 3)
    ensures IndexOf(BlockUnit(r / 3, c / 3), (r, c)) == (r % 3) * 3 + c % 3
  {
    CellInBlock(r, c);
    BlockUnitFacts(r / 3, c / 3);
    IndexOfDistinct(BlockUnit(r / 3, c / 3), (r % 3) * 3 + c % 3);
  }

  /** The cells of block (a, b), row by row. */
  function BlockAt(g: Grid, a: int, b: int): (u: seq<Cell>)
    requires Is9x9(g) && IsBlock((a, b))
    ensures |u| == 9
  {
    assert UnitIn(g, BlockUnit(a, b)) by {
      forall t | 0 <= t < 9 ensures InBounds(g, BlockUnit(a, b)[t]) {
        BlockCell(a, b, t);
      }
    }
    ReadUnit(g, BlockUnit(a, b))
  }

  lemma BlockAtCell(g: Grid, r: int, c: int)
    requires Is9x9(g) && 0 <= r < 9 && 0 <= c < 9
    ensures IsBlock((r / 3, c / 3)) && BlockAt(g, r / 3, c / 3)[(r % 3) * 3 + c % 3] == g[r][c]
  {
    CellInBlock(r, c);
  }

  /** The rule applied m times. */
  function Iter(f: seq<Cell> -> seq<Cell>, m: nat, u: seq<Cell>): (r: seq<Cell>)
    requires Preserving(f)
    ensures |r| == |u|
  {
    if m == 0 then u else f(Iter(f, m - 1, u))
  }

  /** The units of a list of blocks. */
  function BlockList(bs: seq<(int, int)>): seq<seq<Pos>>
  {
    seq(|bs|, k requires 0 <= k < |bs| => BlockUnit(bs[k].0, bs[k].1))
  }

  lemma BlockListFits(g: Grid, bs: seq<(int, int)>)
    requires Is9x9(g) && forall k :: 0 <= k < |bs| ==> IsBlock(bs[k])
    ensures UnitsIn(g, BlockList(bs)) && AllDistinct(BlockList(bs))
  {
    forall k | 0 <= k < |bs| ensures Distinct(BlockList(bs)[k]) {
      BlockUnitFacts(bs[k].0, bs[k].1);
    }
  }

  /** Rewriting block (a, b) when it holds the m-th iterate of g's block. */
  lemma BlockStep(g: Grid, h: Grid, f: seq<Cell> -> seq<Cell>, a: int, b: int, m: nat)
    requires Is9x9(g) && Is9x9(h) && Preserving(f) && IsBlock((a, b))
    requires forall r, c :: 0 <= r < 9 && 0 <= c < 9 && r / 3 == a && c / 3 == b ==>
      h[r][c] == Iter(f, m, BlockAt(g, a, b))[(r % 3) * 3 + c % 3]
    ensures UnitIn(h, BlockUnit(a, b))
    ensures forall r, c :: 0 <= r < 9 && 0 <= c < 9 && r / 3 == a && c / 3 == b ==>
      Step(h, BlockUnit(a, b), f)[r][c] == Iter(f, m + 1, BlockAt(g, a, b))[(r % 3) * 3 + c % 3]
    ensures forall r, c :: 0 <= r < 9 && 0 <= c < 9 && !(r / 3 == a && c / 3 == b) ==>
      Step(h, BlockUnit(a, b), f)[r][c] == h[r][c]
  {
    var B := BlockUnit(a, b);
    BlockUnitFacts(a, b);
    var it := Iter(f, m, BlockAt(g, a, b));
    forall t | 0 <= t < 9 ensures InBounds(h, B[t]) {
      BlockCell(a, b, t);
    }
    assert ReadUnit(h, B) == it by {
      forall t | 0 <= t < 9 ensures ReadUnit(h, B)[t] == it[t] {
        BlockCell(a, b, t);
      }
    }
    forall r, c | 0 <= r < 9 && 0 <= c < 9 && r / 3 == a && c / 3 == b
      ensures Step(h, B, f)[r][c] == Iter(f, m + 1, BlockAt(g, a, b))[(r % 3) * 3 + c % 3]
    {
      BlockIndex(r, c);
    }
    forall r, c | 0 <= r < 9 && 0 <= c < 9 && !(r / 3 == a && c / 3 == b)
      ensures Step(h, B, f)[r][c] == h[r][c]
    {
      assert (r, c) !in B;
    }
  }

  /** Applying the rule to a list of blocks in turn: since blocks do not
      overlap, each block ends as the rule iterated once per occurrence of the
      block in the list. */
  lemma {:induction false} ApplyBlockList(g: Grid, bs: seq<(int, int)>, f: seq<Cell> -> seq<Cell>)
    requires Is9x9(g) && Preserving(f) && forall k :: 0 <= k < |bs| ==> IsBlock(bs[k])
    ensures UnitsIn(g, BlockList(bs))
    ensures forall r, c :: 0 <= r < 9 && 0 <= c < 9 ==>
      ApplyUnits(g, BlockList(bs), f)[r][c] ==
      Iter(f, multiset(bs)[(r / 3, c / 3)], BlockAt(g, r / 3, c / 3))[(r % 3) * 3 + c % 3]
  {
    BlockListFits(g, bs);
    var n := |bs|;
    if n == 0 {
      forall r, c | 0 <= r < 9 && 0 <= c < 9
        ensures g[r][c] == BlockAt(g, r / 3, c / 3)[(r % 3) * 3 + c % 3]
      {
        BlockAtCell(g, r, c);
      }
    } else {
      var front, a, b := bs[..n - 1], bs[n - 1].0, bs[n - 1].1;
      assert bs == front + [(a, b)];
      ApplyBlockList(g, front, f);
      BlockListSnoc(g, bs, f);
      BlockListStep(g, f, front, a, b, ApplyUnits(g, BlockList(front), f));
    }
  }

  /** The fold over a list of blocks ends with a step on its last block. */
  lemma BlockListSnoc(g: Grid, bs: seq<(int, int)>, f: seq<Cell> -> seq<Cell>)
    requires Is9x9(g) && Preserving(f) && bs != [] && forall k :: 0 <= k < |bs| ==> IsBlock(bs[k])
    ensures UnitsIn(g, BlockList(bs)) && UnitsIn(g, BlockList(bs[..|bs| - 1]))
    ensures var h := ApplyUnits(g, BlockList(bs[..|bs| - 1]), f);
      UnitIn(h, BlockUnit(bs[|bs| - 1].0, bs[|bs| - 1].1)) &&
      ApplyUnits(g, BlockList(bs), f) == Step(h, BlockUnit(bs[|bs| - 1].0, bs[|bs| - 1].1), f)
  {
    var n, units := |bs|, BlockList(bs);
    BlockListFits(g, bs);
    BlockListPrefix(bs, n - 1);
    var front := units[..n - 1];
    assert BlockList(bs[..n - 1]) == front;
    var u := BlockUnit(bs[n - 1].0, bs[n - 1].1);
    assert units[n - 1] == u;
    var h := ApplyUnits(g, front, f);
    assert ApplyUnits(g, units, f) == Step(h, u, f);
    assert UnitIn(h, u);
  }

  lemma BlockListPrefix(bs: seq<(int, int)>, n: nat)
    requires n <= |bs|
    ensures BlockList(bs[..n]) == BlockList(bs)[..n]
  {
  }

  /** One more block at the end of the list: the block's cells move one
      iterate further, all other cells stay. */
  lemma BlockListStep(g: Grid, f: seq<Cell> -> seq<Cell>, front: seq<(int, int)>, a: int, b: int, h: Grid)
    requires Is9x9(g) && Is9x9(h) && Preserving(f) && IsBlock((a, b))
    requires forall r, c :: 0 <= r < 9 && 0 <= c < 9 ==>
      h[r][c] == Iter(f, multiset(front)[(r / 3, c / 3)], BlockAt(g, r / 3, c / 3))[(r % 3) * 3 + c % 3]
    ensures UnitIn(h, BlockUnit(a, b))
    ensures forall r, c :: 0 <= r < 9 && 0 <= c < 9 ==>
      Step(h, BlockUnit(a, b), f)[r][c] ==
      Iter(f, multiset(front + [(a, b)])[(r / 3, c / 3)], BlockAt(g, r / 3, c / 3))[(r % 3) * 3 + c % 3]
  {
    var m := multiset(front)[(a, b)];
    BlockStep(g, h, f, a, b, m);
    forall r, c | 0 <= r < 9 && 0 <= c < 9
      ensures Step(h, BlockUnit(a, b), f)[r][c] ==
        Iter(f, multiset(front + [(a, b)])[(r / 3, c / 3)], BlockAt(g, r / 3, c / 3))[(r % 3) * 3 + c % 3]
    {
      SnocCount(front, (a, b), (r / 3, c / 3));
    }
  }

  lemma SnocCount<T>(s: seq<T>, x: T, y: T)
    ensures multiset(s + [x])[y] == multiset(s)[y] + if x == y then 1 else 0
  {
    assert multiset(s + [x]) == multiset(s) + multiset{x};
  }

  /** The block coordinates `_yield_blocks` visits as written. */
  const DiagonalVisits: seq<(int, int)> := [(0, 0), (0, 0), (0, 0), (1, 1), (1, 1), (1, 1), (2, 2), (2, 2), (2, 2)]

  /** The block coordinates of the intended `_yield_blocks`, each once. */
  const AllBlocks: seq<(int, int)> := [(0, 0), (0, 1), (0, 2), (1, 0), (1, 1), (1, 2), (2, 0), (2, 1), (2, 2)]

  lemma BlockUnitsAsList()
    ensures BlockUnits(AsWritten) == BlockList(DiagonalVisits)
    ensures BlockUnits(Intended) == BlockList(AllBlocks)
  {
    forall k | 0 <= k < 9 ensures BlockUnits(AsWritten)[k] == BlockList(DiagonalVisits)[k] {
      assert BlockUnitAsWritten(k / 3, k % 3) == BlockUnit(k / 3, k / 3);
    }
  }

  lemma DiagonalCount(x: int, y: int)
    requires IsBlock((x, y))
    ensures multiset(DiagonalVisits)[(x, y)] == if x == y then 3 else 0
  {
    assert multiset(DiagonalVisits) ==
      multiset{(0, 0), (0, 0), (0, 0), (1, 1), (1, 1), (1, 1), (2, 2), (2, 2), (2, 2)};
  }

  lemma AllBlocksCount(x: int, y: int)
    requires IsBlock((x, y))
    ensures multiset(AllBlocks)[(x, y)] == 1
  {
    assert multiset(AllBlocks) ==
      multiset{(0, 0), (0, 1), (0, 2), (1, 0), (1, 1), (1, 2), (2, 0), (2, 1), (2, 2)};
  }

  /** `_filterblocks` / `_checkblocks` as written, on a 9x9 grid: the three
      blocks on the diagonal each get the rule three times in a row, and every
      cell off the diagonal blocks is left alone. */
  lemma ApplyBlocksAsWritten(g: Grid, f: seq<Cell> -> seq<Cell>)
    requires Is9x9(g) && Preserving(f)
    ensures UnitsIn(g, BlockUnits(AsWritten))
    ensures forall r, c :: 0 <= r < 9 && 0 <= c < 9 && r / 3 != c / 3 ==>
      ApplyUnits(g, BlockUnits(AsWritten), f)[r][c] == g[r][c]
    ensures forall r, c :: 0 <= r < 9 && 0 <= c < 9 && r / 3 == c / 3 ==>
      ApplyUnits(g, BlockUnits(AsWritten), f)[r][c] ==
      Iter(f, 3, BlockAt(g, r / 3, c / 3))[(r % 3) * 3 + c % 3]
  {
    BlockUnitsAsList();
    ApplyBlockList(g, DiagonalVisits, f);
    forall r, c | 0 <= r < 9 && 0 <= c < 9
      ensures ApplyUnits(g, BlockUnits(AsWritten), f)[r][c] ==
        if r / 3 == c / 3 then Iter(f, 3, BlockAt(g, r / 3, c / 3))[(r % 3) * 3 + c % 3] else g[r][c]
    {
      CellInBlock(r, c);
      DiagonalCount(r / 3, c / 3);
      BlockAtCell(g, r, c);
    }
  }

  /** `_filterblocks` / `_checkblocks` as intended, on a 9x9 grid: each cell
      ends as its place in the rule applied once to its own block. */
  lemma ApplyBlocksIntended(g: Grid, f: seq<Cell> -> seq<Cell>)
    requires Is9x9(g) && Preserving(f)
    ensures UnitsIn(g, BlockUnits(Intended))
    ensures forall r, c :: 0 <= r < 9 && 0 <= c < 9 ==>
      ApplyUnits(g, BlockUnits(Intended), f)[r][c] == f(BlockAt(g, r / 3, c / 3))[(r % 3) * 3 + c % 3]
  {
    BlockUnitsAsList();
    ApplyBlockList(g, AllBlocks, f);
    forall r, c | 0 <= r < 9 && 0 <= c < 9
      ensures ApplyUnits(g, BlockUnits(Intended), f)[r][c] == f(BlockAt(g, r / 3, c / 3))[(r % 3) * 3 + c % 3]
    {
      CellInBlock(r, c);
      AllBlocksCount(r / 3, c / 3);
      var u := BlockAt(g, r / 3, c / 3);
      assert Iter(f, 1, u) == f(u);
    }
  }

  // ---------------------------------------------------------------- the two rules as grid passes

  /** Both rules keep the length of a unit. */
  lemma RulesKeepLength()
    ensures Preserving(FilterUnit) && Preserving(CheckUnit)
  {
    forall u ensures |FilterUnit(u)| == |u| && |CheckUnit(u)| == |u| {
    }
  }

  /** Both rules keep the length of a unit and only narrow its cells. */
  lemma RulesPreserve()
    ensures Preserving(FilterUnit) && Preserving(CheckUnit)
    ensures Narrowing(FilterUnit) && Narrowing(CheckUnit)
  {
    RulesKeepLength();
    forall u, k | 0 <= k < |u| && k < |FilterUnit(u)| ensures Narrows(FilterUnit(u)[k], u[k]) {
      FilterUnitNarrows(u);
    }
    forall u, k | 0 <= k < |u| && k < |CheckUnit(u)| ensures Narrows(CheckUnit(u)[k], u[k]) {
      CheckUnitNarrows(u);
    }
  }

  /** The nine blocks `_yield_blocks` gathers, for either layout, lie on a 9x9
      grid and have no repeated cell. */
  lemma BlockUnitsFit(g: Grid, layout: Layout)
    requires Is9x9(g)
    ensures UnitsIn(g, BlockUnits(layout)) && AllDistinct(BlockUnits(layout))
  {
    BlockUnitsAsList();
    BlockListFits(g, DiagonalVisits);
    BlockListFits(g, AllBlocks);
  }

  /** Rows, columns and blocks of a 9x9 grid are all usable units. */
  lemma UnitsFit(g: Grid, layout: Layout)
    requires Is9x9(g)
    ensures UnitsIn(g, RowUnits(9, 9)) && AllDistinct(RowUnits(9, 9))
    ensures UnitsIn(g, ColUnits(9, 9)) && AllDistinct(ColUnits(9, 9))
    ensures UnitsIn(g, BlockUnits(layout)) && AllDistinct(BlockUnits(layout))
  {
    RowUnitsFit(g);
    ColUnitsFit(g, 9);
    BlockUnitsFit(g, layout);
  }

  /** The positions of rows, columns and blocks lie on a 9x9 grid. */
  lemma UnitsOn(g: Grid, layout: Layout)
    requires Is9x9(g)
    ensures UnitsIn(g, RowUnits(9, 9)) && UnitsIn(g, ColUnits(9, 9)) && UnitsIn(g, BlockUnits(layout))
  {
    UnitsFit(g, layout);
  }

  /** A pass of one rule over one kind of unit of a 9x9 grid. */
  function Pass(g: Grid, units: seq<seq<Pos>>, f: seq<Cell> -> seq<Cell>): (h: Grid)
    requires Is9x9(g) && UnitsIn(g, units) && Preserving(f)
    ensures Is9x9(h)
  {
    ApplyUnits(g, units, f)
  }

  /** Lines 112-117 of `base_routine`: `_filterrows`, `_filtercols`,
      `_filterblocks`, `_checkrows`, `_checkcols`, `_checkblocks`, in order. */
  function Propagate(g: Grid, layout: Layout): (h: Grid)
    requires Is9x9(g)
    ensures Is9x9(h)
  {
    RulesPreserve();
    UnitsFit(g, layout);
    var g1 := Pass(g, RowUnits(9, 9), FilterUnit);
    UnitsFit(g1, layout);
    var g2 := Pass(g1, ColUnits(9, 9), FilterUnit);
    UnitsFit(g2, layout);
    var g3 := Pass(g2, BlockUnits(layout), FilterUnit);
    UnitsFit(g3, layout);
    var g4 := Pass(g3, RowUnits(9, 9), CheckUnit);
    UnitsFit(g4, layout);
    var g5 := Pass(g4, ColUnits(9, 9), CheckUnit);
    UnitsFit(g5, layout);
    Pass(g5, BlockUnits(layout), CheckUnit)
  }

  /** A pass of a narrowing rule keeps a board narrower than g0. */
  lemma PassNarrowsFrom(g0: Grid, g: Grid, units: seq<seq<Pos>>, f: seq<Cell> -> seq<Cell>)
    requires Is9x9(g) && UnitsIn(g, units) && Preserving(f) && Narrowing(f) && GridNarrows(g, g0)
    ensures GridNarrows(Pass(g, units, f), g0)
  {
    ApplyUnitsNarrows(g, units, f);
    GridNarrowsTrans(Pass(g, units, f), g, g0);
  }

  /** The boards between the six passes of a round, each a 9x9 board on
      which the next pass is defined. */
  lemma PropagateParts(g: Grid, layout: Layout) returns (g1: Grid, g2: Grid, g3: Grid, g4: Grid, g5: Grid)
    requires Is9x9(g)
    ensures Preserving(FilterUnit) && Preserving(CheckUnit) && Narrowing(FilterUnit) && Narrowing(CheckUnit)
    ensures UnitsIn(g, RowUnits(9, 9)) && g1 == Pass(g, RowUnits(9, 9), FilterUnit)
    ensures UnitsIn(g1, ColUnits(9, 9)) && g2 == Pass(g1, ColUnits(9, 9), FilterUnit)
    ensures UnitsIn(g2, BlockUnits(layout)) && g3 == Pass(g2, BlockUnits(layout), FilterUnit)
    ensures UnitsIn(g3, RowUnits(9, 9)) && g4 == Pass(g3, RowUnits(9, 9), CheckUnit)
    ensures UnitsIn(g4, ColUnits(9, 9)) && g5 == Pass(g4, ColUnits(9, 9), CheckUnit)
    ensures UnitsIn(g5, BlockUnits(layout)) && Propagate(g, layout) == Pass(g5, BlockUnits(layout), CheckUnit)
  {
    RulesPreserve();
    UnitsOn(g, layout);
    g1 := Pass(g, RowUnits(9, 9), FilterUnit);
    UnitsOn(g1, layout);
    g2 := Pass(g1, ColUnits(9, 9), FilterUnit);
    UnitsOn(g2, layout);
    g3 := Pass(g2, BlockUnits(layout), FilterUnit);
    UnitsOn(g3, layout);
    g4 := Pass(g3, RowUnits(9, 9), CheckUnit);
    UnitsOn(g4, layout);
    g5 := Pass(g4, ColUnits(9, 9), CheckUnit);
    UnitsOn(g5, layout);
  }

  /** The six passes only narrow cells. */
  lemma PropagateNarrows(g: Grid, layout: Layout)
    requires Is9x9(g)
    ensures GridNarrows(Propagate(g, layout), g)
  {
    var g1, g2, g3, g4, g5 := PropagateParts(g, layout);
    GridNarrowsRefl(g);
    PassNarrowsFrom(g, g, RowUnits(9, 9), FilterUnit);
    PassNarrowsFrom(g, g1, ColUnits(9, 9), FilterUnit);
    PassNarrowsFrom(g, g2, BlockUnits(layout), FilterUnit);
    PassNarrowsFrom(g, g3, RowUnits(9, 9), CheckUnit);
    PassNarrowsFrom(g, g4, ColUnits(9, 9), CheckUnit);
    PassNarrowsFrom(g, g5, BlockUnits(layout), CheckUnit);
  }

  // ---------------------------------------------------------------- _complete

  /** A one-candidate list becomes its value; any other cell is kept. */
  function Collapse(c: Cell): (r: Cell)
    ensures Narrows(r, c)
  {
    if c.Open? && |c.cands| == 1 then Fixed(c.cands[0]) else c
  }

  /** The walk of `_complete` over `range(9)` x `range(9)` stops at flat step k
      (row k / 9, column k % 9): the row or column does not exist, or the cell
      is an empty list. */
  predicate Stops(g: Grid, k: nat)
    requires IsRect(g)
  {
    var r, c := k / 9, k % 9;
    r >= |g| || c >= Width(g) || g[r][c] == Open([])
  }

  /** The first step at or after k where the walk stops; 81 when it runs through. */
  function FirstStop(g: Grid, k: nat): (n: nat)
    requires IsRect(g) && k <= 81
    ensures k <= n <= 81
    ensures forall t :: k <= t < n ==> !Stops(g, t)
    ensures n < 81 ==> Stops(g, n)
    decreases 81 - k
  {
    if k == 81 then 81 else if Stops(g, k) then k else FirstStop(g, k + 1)
  }

  /** The grid with the cells of the first n steps of the walk collapsed. */
  function CollapseBelow(g: Grid, n: nat): (h: Grid)
    ensures SameShape(h, g)
  {
    seq(|g|, i requires 0 <= i < |g| =>
      seq(|g[i]|, j requires 0 <= j < |g[i]| =>
        if i < 9 && j < 9 && 9 * i + j < n then Collapse(g[i][j]) else g[i][j]))
  }

  /** `_complete(sudoku)`: the grid it leaves behind and how it ends. It walks
      the first 9 rows and columns in row-major order whatever the grid's size
      and stops at the first position that is missing (IndexError) or holds an
      empty list (UnsolvableSudoku), whichever comes first. Cells visited
      before the raise keep their collapse. */
  function CompleteSpec(g: Grid): (r: Run)
    requires IsRect(g)
    ensures SameShape(r.grid, g)
    ensures r.status in {Ok, Raised(IndexError), Raised(UnsolvableSudoku)}
  {
    var n := FirstStop(g, 0);
    var status :=
      if n == 81 then Ok
      else if n / 9 >= |g| || n % 9 >= Width(g) then Raised(IndexError)
      else Raised(UnsolvableSudoku);
    Run(CollapseBelow(g, n), status)
  }

  /** On a 9x9 grid `_complete` raises exactly when some cell is an empty list,
      and then only UnsolvableSudoku; otherwise every cell is collapsed. */
  lemma CompleteMeaning(g: Grid)
    requires Is9x9(g)
    ensures CompleteSpec(g).status == Ok <==>
      forall i, j :: 0 <= i < 9 && 0 <= j < 9 ==> g[i][j] != Open([])
    ensures CompleteSpec(g).status.Raised? ==> CompleteSpec(g).status.error == UnsolvableSudoku
    ensures CompleteSpec(g).status == Ok ==>
      forall i, j :: 0 <= i < 9 && 0 <= j < 9 ==> CompleteSpec(g).grid[i][j] == Collapse(g[i][j])
  {
    var n := FirstStop(g, 0);
    if n == 81 {
      forall i, j | 0 <= i < 9 && 0 <= j < 9 ensures g[i][j] != Open([]) {
        var k := 9 * i + j;
        assert k / 9 == i && k % 9 == j;
        assert !Stops(g, k);
      }
    } else {
      assert g[n / 9][n % 9] == Open([]);
    }
  }

  /** A grid with fewer than 9 rows and no empty list makes `_complete`
      raise IndexError once the walk runs past the last row. */
  lemma CompleteShortGrid(g: Grid)
    requires IsRect(g) && |g| < 9 && Width(g) >= 9
    requires forall i, j :: 0 <= i < |g| && 0 <= j < 9 ==> g[i][j] != Open([])
    ensures CompleteSpec(g).status == Raised(IndexError)
    ensures forall i, j :: 0 <= i < |g| && 0 <= j < 9 ==> CompleteSpec(g).grid[i][j] == Collapse(g[i][j])
  {
    var n := FirstStop(g, 0);
    var k := 9 * |g|;
    assert k / 9 == |g|;
    assert Stops(g, k);
    forall i, j | 0 <= i < |g| && 0 <= j < 9
      ensures CompleteSpec(g).grid[i][j] == Collapse(g[i][j])
    {
      assert 9 * i + j < k;
    }
  }

  /** An empty list met before any missing position raises UnsolvableSudoku even
      on a grid smaller than 9x9: `_complete([[[]]])` stops at its only cell. */
  lemma CompleteEmptyListFirst()
    ensures CompleteSpec([[Open([])]]) == Run([[Open([])]], Raised(UnsolvableSudoku))
  {
    var g := [[Open([])]];
    assert Stops(g, 0);
    assert CollapseBelow(g, 0)[0][0] == g[0][0];
    assert CollapseBelow(g, 0)[0] == g[0];
  }

  /** `_complete` only narrows cells. */
  lemma CompleteNarrows(g: Grid)
    requires IsRect(g)
    ensures GridNarrows(CompleteSpec(g).grid, g)
  {
  }

  // ---------------------------------------------------------------- one round and base_routine

  /** One round of the `base_routine` loop body (lines 112-118). */
  function PassSpec(g: Grid, layout: Layout): (r: Run)
    requires Is9x9(g)
    ensures Is9x9(r.grid)
  {
    var h := Propagate(g, layout);
    SameShapeRect(CompleteSpec(h).grid, h);
    CompleteSpec(h)
  }

  /** One round only narrows cells, whether it raises or not. */
  lemma PassNarrows(g: Grid, layout: Layout)
    requires Is9x9(g)
    ensures GridNarrows(PassSpec(g, layout).grid, g)
  {
    PropagateNarrows(g, layout);
    CompleteNarrows(Propagate(g, layout));
    GridNarrowsTrans(PassSpec(g, layout).grid, Propagate(g, layout), g);
  }

  /** `base_routine(sudoku)`: rounds repeated until one leaves the grid as it
      found it, or until `_complete` raises. It terminates because a round that
      changes the grid strictly lowers the potential. */
  function BaseRoutineSpec(g: Grid, layout: Layout): (r: Run)
    requires Is9x9(g)
    ensures Is9x9(r.grid)
    decreases Potential(g)
  {
    var p := PassSpec(g, layout);
    if p.status.Raised? || p.grid == g then p
    else
      PassNarrows(g, layout);
      PotentialNarrows(p.grid, g);
      BaseRoutineSpec(p.grid, layout)
  }

  /** A round that returns normally and changes the grid hands `base_routine`
      on to its result, with strictly lower potential. */
  lemma BaseRoutineStep(g: Grid, layout: Layout)
    requires Is9x9(g) && PassSpec(g, layout).status == Ok && PassSpec(g, layout).grid != g
    ensures Potential(PassSpec(g, layout).grid) < Potential(g)
    ensures BaseRoutineSpec(g, layout) == BaseRoutineSpec(PassSpec(g, layout).grid, layout)
  {
    PassNarrows(g, layout);
    PotentialNarrows(PassSpec(g, layout).grid, g);
  }

  /** A round that raises ends `base_routine` with that round's outcome. */
  lemma BaseRoutineRaisedRound(g: Grid, layout: Layout)
    requires Is9x9(g) && PassSpec(g, layout).status.Raised?
    ensures BaseRoutineSpec(g, layout) == PassSpec(g, layout)
  {
  }

  /** A round that changes nothing ends `base_routine` normally. */
  lemma BaseRoutineStableRound(g: Grid, layout: Layout)
    requires Is9x9(g) && PassSpec(g, layout) == Run(g, Ok)
    ensures BaseRoutineSpec(g, layout) == Run(g, Ok)
  {
  }

  /** Every round of `base_routine` only narrows cells, so its result narrows
      its input. */
  lemma {:induction false} BaseRoutineNarrows(g: Grid, layout: Layout)
    requires Is9x9(g)
    ensures GridNarrows(BaseRoutineSpec(g, layout).grid, g)
    decreases Potential(g)
  {
    var p := PassSpec(g, layout);
    PassNarrows(g, layout);
    if !(p.status.Raised? || p.grid == g) {
      PotentialNarrows(p.grid, g);
      BaseRoutineNarrows(p.grid, layout);
      GridNarrowsTrans(BaseRoutineSpec(p.grid, layout).grid, p.grid, g);
    }
  }

  /** When `base_routine` returns normally, its grid is a fixed point of a
      round: one more round would change nothing and raise nothing. */
  lemma {:induction false} BaseRoutineFixedPoint(g: Grid, layout: Layout)
    requires Is9x9(g) && BaseRoutineSpec(g, layout).status == Ok
    ensures PassSpec(BaseRoutineSpec(g, layout).grid, layout) == Run(BaseRoutineSpec(g, layout).grid, Ok)
    decreases Potential(g)
  {
    var p := PassSpec(g, layout);
    if p.grid != g {
      PassNarrows(g, layout);
      PotentialNarrows(p.grid, g);
      BaseRoutineFixedPoint(p.grid, layout);
    }
  }

  /** Running `base_routine` again on its own result changes nothing. */
  lemma BaseRoutineIdempotent(g: Grid, layout: Layout)
    requires Is9x9(g) && BaseRoutineSpec(g, layout).status == Ok
    ensures BaseRoutineSpec(BaseRoutineSpec(g, layout).grid, layout) == BaseRoutineSpec(g, layout)
  {
    BaseRoutineFixedPoint(g, layout);
  }

  /** On a 9x9 grid `base_routine` can only raise UnsolvableSudoku: no row or
      column of the walk of `_complete` is missing. */
  lemma {:induction false} BaseRoutineRaises(g: Grid, layout: Layout)
    requires Is9x9(g) && BaseRoutineSpec(g, layout).status.Raised?
    ensures BaseRoutineSpec(g, layout).status.error == UnsolvableSudoku
    decreases Potential(g)
  {
    var p := PassSpec(g, layout);
    if p.status.Raised? {
      CompleteMeaning(Propagate(g, layout));
    } else {
      PassNarrows(g, layout);
      PotentialNarrows(p.grid, g);
      BaseRoutineRaises(p.grid, layout);
    }
  }

  // ---------------------------------------------------------------- is_solved

  /** `is_solved(sudoku)`: every element is an int. Nothing checks the rules. */
  predicate IsSolved(g: Grid)
  {
    forall i, j :: 0 <= i < |g| && 0 <= j < |g[i]| ==> g[i][j].Fixed?
  }

  lemma {:induction false} RowPotentialZero(s: seq<Cell>)
    ensures RowPotential(s) == 0 <==> forall j :: 0 <= j < |s| ==> s[j].Fixed?
  {
    if s != [] {
      RowPotentialZero(s[1..]);
      assert forall j :: 1 <= j < |s| ==> s[j] == s[1..][j - 1];
    }
  }

  /** A grid counts as solved exactly when its potential is zero: the search
      stops where the termination measure bottoms out. */
  lemma {:induction false} SolvedIffNoPotential(g: Grid)
    ensures IsSolved(g) <==> Potential(g) == 0
  {
    if g != [] {
      SolvedIffNoPotential(g[1..]);
      RowPotentialZero(g[0]);
      assert forall i :: 1 <= i < |g| ==> g[i] == g[1..][i - 1];
    }
  }

  /** A grid of nine 1s in every row counts as solved although every row
      repeats a digit. */
  lemma SolvedIgnoresRules()
    ensures var ones := seq(9, _ => seq(9, _ => Fixed(1)));
      IsSolved(ones) && ones[0][0] == ones[0][1]
  {
  }

  // ---------------------------------------------------------------- well-formed candidate lists

  /** A list cell holds distinct digits from 1 to 9. */
  predicate CellWf(c: Cell)
  {
    c.Open? ==> NoDup(c.cands) && forall x :: x in c.cands ==> 1 <= x <= 9
  }

  predicate GridWf(g: Grid)
  {
    forall i, j :: 0 <= i < |g| && 0 <= j < |g[i]| ==> CellWf(g[i][j])
  }

  /** The rule keeps candidate lists free of repeats. */
  ghost predicate KeepsNoDup(f: seq<Cell> -> seq<Cell>)
  {
    forall u :: AllNoDup(u) ==> AllNoDup(f(u))
  }

  lemma StepWf(g: Grid, pos: seq<Pos>, f: seq<Cell> -> seq<Cell>)
    requires IsRect(g) && UnitIn(g, pos) && Preserving(f) && Narrowing(f) && KeepsNoDup(f)
    requires GridWf(g)
    ensures GridWf(Step(g, pos, f))
  {
    var u := ReadUnit(g, pos);
    assert AllNoDup(u) by {
      forall k | 0 <= k < |u| && u[k].Open? ensures NoDup(u[k].cands) {
        assert CellWf(g[pos[k].0][pos[k].1]);
      }
    }
    forall i, j | 0 <= i < |g| && 0 <= j < |g[i]| && (i, j) in pos
      ensures CellWf(Step(g, pos, f)[i][j])
    {
      var t := IndexOf(pos, (i, j));
      assert u[t] == g[i][j];
      assert CellWf(u[t]);
      var c := f(u)[t];
      assert Narrows(c, u[t]);
      assert AllNoDup(f(u));
      if c.Open? && c != u[t] {
        assert Cands(c) == c.cands;
      }
    }
  }

  /** A rule that narrows cells and keeps lists free of repeats keeps every
      list a set of digits, over any units. */
  lemma {:induction false} ApplyUnitsWf(g: Grid, units: seq<seq<Pos>>, f: seq<Cell> -> seq<Cell>)
    requires IsRect(g) && UnitsIn(g, units) && Preserving(f) && Narrowing(f) && KeepsNoDup(f)
    requires GridWf(g)
    ensures GridWf(ApplyUnits(g, units, f))
  {
    if units != [] {
      var front := units[..|units| - 1];
      ApplyUnitsWf(g, front, f);
      StepWf(ApplyUnits(g, front, f), units[|units| - 1], f);
    }
  }

  lemma RulesKeepNoDup()
    ensures KeepsNoDup(FilterUnit) && KeepsNoDup(CheckUnit)
  {
    forall u | AllNoDup(u) ensures AllNoDup(FilterUnit(u)) && AllNoDup(CheckUnit(u)) {
      FilterUnitNoDup(u);
      CheckUnitNoDup(u);
    }
  }

  lemma PropagateWf(g: Grid, layout: Layout)
    requires Is9x9(g) && GridWf(g)
    ensures GridWf(Propagate(g, layout))
  {
    RulesKeepNoDup();
    var g1, g2, g3, g4, g5 := PropagateParts(g, layout);
    ApplyUnitsWf(g, RowUnits(9, 9), FilterUnit);
    ApplyUnitsWf(g1, ColUnits(9, 9), FilterUnit);
    ApplyUnitsWf(g2, BlockUnits(layout), FilterUnit);
    ApplyUnitsWf(g3, RowUnits(9, 9), CheckUnit);
    ApplyUnitsWf(g4, ColUnits(9, 9), CheckUnit);
    ApplyUnitsWf(g5, BlockUnits(layout), CheckUnit);
  }


  lemma CompleteWf(g: Grid)
    requires IsRect(g) && GridWf(g)
    ensures GridWf(CompleteSpec(g).grid)
  {
  }

  /** One round keeps every candidate list a set of digits from 1 to 9. */
  lemma PassWf(g: Grid, layout: Layout)
    requires Is9x9(g) && GridWf(g)
    ensures GridWf(PassSpec(g, layout).grid)
  {
    PropagateWf(g, layout);
    CompleteWf(Propagate(g, layout));
  }

  /** `base_routine` keeps every candidate list a set of digits from 1 to 9. */
  lemma {:induction false} BaseRoutineWf(g: Grid, layout: Layout)
    requires Is9x9(g) && GridWf(g)
    ensures GridWf(BaseRoutineSpec(g, layout).grid)
    decreases Potential(g)
  {
    var p := PassSpec(g, layout);
    PassWf(g, layout);
    if !(p.status.Raised? || p.grid == g) {
      PassNarrows(g, layout);
      PotentialNarrows(p.grid, g);
      BaseRoutineWf(p.grid, layout);
    }
  }

  // ---------------------------------------------------------------- _tolists

  /** `[i for i in range(1, 10)]`. */
  const Digits: seq<int> := [1, 2, 3, 4, 5, 6, 7, 8, 9]

  function ToCell(x: PyValue): Cell
    requires x != PyOther
  {
    if x.PyNone? then Open(Digits) else Fixed(x.i)
  }

  /** `_tolists(sudoku)`: every None becomes a fresh list of the nine digits;
      every int stays. */
  function ToLists(g: seq<seq<PyValue>>): (r: Grid)
    requires forall i, j :: 0 <= i < |g| && 0 <= j < |g[i]| ==> g[i][j] != PyOther
    ensures |r| == |g| && forall i :: 0 <= i < |g| ==> |r[i]| == |g[i]|
  {
    seq(|g|, i requires 0 <= i < |g| =>
      seq(|g[i]|, j requires 0 <= j < |g[i]| => ToCell(g[i][j])))
  }

  /** The board `_tolists` builds: a cell is a list exactly where the input
      held None, and then it allows exactly the digits 1 to 9, once each; an
      int is kept as given. The board is well formed, and a correctly
      formatted input gives a 9x9 board. */
  lemma ToListsMeaning(g: seq<seq<PyValue>>)
    requires forall i, j :: 0 <= i < |g| && 0 <= j < |g[i]| ==> g[i][j] != PyOther
    ensures forall i, j :: 0 <= i < |g| && 0 <= j < |g[i]| ==>
      (ToLists(g)[i][j].Open? <==> g[i][j] == PyNone) &&
      (g[i][j].PyInt? ==> ToLists(g)[i][j] == Fixed(g[i][j].i)) &&
      (ToLists(g)[i][j].Open? ==> forall x :: x in ToLists(g)[i][j].cands <==> 1 <= x <= 9)
    ensures GridWf(ToLists(g))
    ensures CorrectFormat(g) ==> Is9x9(ToLists(g))
  {
    DigitsFacts();
  }

  lemma DigitsFacts()
    ensures NoDup(Digits) && forall x :: x in Digits <==> 1 <= x <= 9
  {
    assert NoDup(Digits);
    forall x | 1 <= x <= 9 ensures x in Digits {
      assert Digits[x - 1] == x;
    }
  }

  // ---------------------------------------------------------------- the blank board

  /** The board `_tolists` makes from 81 Nones. */
  function BlankGrid(): (g: Grid)
    ensures Is9x9(g)
  {
    seq(9, _ => seq(9, _ => Open(Digits)))
  }

  /** A unit whose every cell is the list of the nine digits. */
  function BlankUnit(k: nat): seq<Cell>
  {
    seq(k, _ => Open(Digits))
  }

  lemma WriteBack(g: Grid, pos: seq<Pos>)
    requires IsRect(g) && UnitIn(g, pos)
    ensures WriteUnit(g, pos, ReadUnit(g, pos)) == g
  {
    var h := WriteUnit(g, pos, ReadUnit(g, pos));
    forall i | 0 <= i < |g| ensures h[i] == g[i] {
      forall j | 0 <= j < |g[i]| ensures h[i][j] == g[i][j] {
        if (i, j) in pos {
          var t := IndexOf(pos, (i, j));
          assert ReadUnit(g, pos)[t] == g[i][j];
        }
      }
    }
  }

  /** A rule that leaves every unit of the list as it reads leaves the grid alone. */
  lemma {:induction false} ApplyUnitsUnchanged(g: Grid, units: seq<seq<Pos>>, f: seq<Cell> -> seq<Cell>)
    requires IsRect(g) && UnitsIn(g, units) && Preserving(f)
    requires forall n :: 0 <= n < |units| ==> f(ReadUnit(g, units[n])) == ReadUnit(g, units[n])
    ensures ApplyUnits(g, units, f) == g
  {
    if units != [] {
      var front := units[..|units| - 1];
      ApplyUnitsUnchanged(g, front, f);
      WriteBack(g, units[|units| - 1]);
    }
  }

  lemma BlankRead(pos: seq<Pos>)
    requires UnitIn(BlankGrid(), pos)
    ensures ReadUnit(BlankGrid(), pos) == BlankUnit(|pos|)
  {
  }

  lemma {:induction false} CountNoDup(s: seq<int>, x: int)
    requires NoDup(s)
    ensures Count(s, x) == if x in s then 1 else 0
  {
    if s != [] {
      assert forall j :: 1 <= j < |s| ==> s[j] == s[1..][j - 1];
      CountNoDup(s[1..], x);
    }
  }

  /** k copies of the list of the nine digits. */
  function Copies(k: nat): seq<seq<int>>
  {
    seq(k, _ => Digits)
  }

  lemma {:induction false} ListsOfBlank(k: nat)
    ensures ListsOf(BlankUnit(k)) == Copies(k)
  {
    if k > 0 {
      assert BlankUnit(k)[1..] == BlankUnit(k - 1);
      ListsOfBlank(k - 1);
      assert Copies(k) == [Digits] + Copies(k - 1);
    }
  }

  lemma {:induction false} CopiesCount(k: nat, x: int)
    ensures Count(Flatten(Copies(k)), x) == if x in Digits then k else 0
  {
    if k > 0 {
      var c := Copies(k);
      assert c[0] == Digits && c[1..] == Copies(k - 1);
      CopiesCount(k - 1, x);
      CountAppend(Digits, Flatten(Copies(k - 1)), x);
      assert NoDup(Digits);
      CountNoDup(Digits, x);
    }
  }

  lemma BlankUnitCount(k: nat, x: int)
    ensures Count(Flatten(ListsOf(BlankUnit(k))), x) == if x in Digits then k else 0
  {
    ListsOfBlank(k);
    CopiesCount(k, x);
  }

  lemma NonEmptyHasMember(s: seq<int>)
    ensures s != [] ==> s[0] in s
  {
  }

  lemma NoIntsInBlank(k: nat)
    ensures IntsOf(BlankUnit(k)) == []
  {
    var ints := IntsOf(BlankUnit(k));
    forall x ensures x !in ints {
      assert forall j :: 0 <= j < k ==> BlankUnit(k)[j] != Fixed(x);
    }
    NonEmptyHasMember(ints);
  }

  lemma NoUniquesInBlank(k: nat)
    requires k >= 2
    ensures Uniques(Flatten(ListsOf(BlankUnit(k)))) == []
  {
    var vs := Uniques(Flatten(ListsOf(BlankUnit(k))));
    forall x ensures x !in vs {
      BlankUnitCount(k, x);
    }
    NonEmptyHasMember(vs);
  }

  /** Neither rule changes a unit of at least two blank cells: there is no
      placed digit to remove, and every digit is a candidate in two lists. */
  lemma BlankUnitStable(k: nat)
    requires k >= 2
    ensures FilterUnit(BlankUnit(k)) == BlankUnit(k)
    ensures CheckUnit(BlankUnit(k)) == BlankUnit(k)
  {
    NoIntsInBlank(k);
    NoUniquesInBlank(k);
  }

  lemma BlankStopsNowhere(k: nat)
    requires k <= 81
    ensures FirstStop(BlankGrid(), k) == 81
    decreases 81 - k
  {
    if k < 81 {
      assert !Stops(BlankGrid(), k);
      BlankStopsNowhere(k + 1);
    }
  }

  /** A pass of either rule over units of at least two cells leaves the blank
      board as it is. */
  lemma BlankPass(units: seq<seq<Pos>>, f: seq<Cell> -> seq<Cell>)
    requires UnitsIn(BlankGrid(), units) && Preserving(f)
    requires forall n :: 0 <= n < |units| ==> |units[n]| >= 2
    requires forall k: nat :: k >= 2 ==> f(BlankUnit(k)) == BlankUnit(k)
    ensures ApplyUnits(BlankGrid(), units, f) == BlankGrid()
  {
    forall n | 0 <= n < |units|
      ensures f(ReadUnit(BlankGrid(), units[n])) == ReadUnit(BlankGrid(), units[n])
    {
      BlankRead(units[n]);
    }
    ApplyUnitsUnchanged(BlankGrid(), units, f);
  }

  lemma UnitSizes(layout: Layout)
    ensures forall n :: 0 <= n < |RowUnits(9, 9)| ==> |RowUnits(9, 9)[n]| >= 2
    ensures forall n :: 0 <= n < |ColUnits(9, 9)| ==> |ColUnits(9, 9)[n]| >= 2
    ensures forall n :: 0 <= n < |BlockUnits(layout)| ==> |BlockUnits(layout)[n]| >= 2
  {
    assert forall n :: 0 <= n < 9 ==> |RowUnits(9, 9)[n]| == 9 && |ColUnits(9, 9)[n]| == 9;
    assert forall n :: 0 <= n < 9 ==> |BlockUnits(layout)[n]| == 9;
  }

  lemma BlankAllUnits(layout: Layout, f: seq<Cell> -> seq<Cell>)
    requires Preserving(f)
    requires forall k: nat :: k >= 2 ==> f(BlankUnit(k)) == BlankUnit(k)
    ensures UnitsIn(BlankGrid(), RowUnits(9, 9)) && ApplyUnits(BlankGrid(), RowUnits(9, 9), f) == BlankGrid()
    ensures UnitsIn(BlankGrid(), ColUnits(9, 9)) && ApplyUnits(BlankGrid(), ColUnits(9, 9), f) == BlankGrid()
    ensures UnitsIn(BlankGrid(), BlockUnits(layout)) && ApplyUnits(BlankGrid(), BlockUnits(layout), f) == BlankGrid()
  {
    UnitsFit(BlankGrid(), layout);
    UnitSizes(layout);
    BlankPass(RowUnits(9, 9), f);
    BlankPass(ColUnits(9, 9), f);
    BlankPass(BlockUnits(layout), f);
  }

  lemma BlankPropagate(layout: Layout)
    ensures Propagate(BlankGrid(), layout) == BlankGrid()
  {
    RulesPreserve();
    forall k: nat | k >= 2 ensures FilterUnit(BlankUnit(k)) == BlankUnit(k) && CheckUnit(BlankUnit(k)) == BlankUnit(k) {
      BlankUnitStable(k);
    }
    BlankAllUnits(layout, FilterUnit);
    BlankAllUnits(layout, CheckUnit);
  }

  lemma BlankComplete()
    ensures CompleteSpec(BlankGrid()) == Run(BlankGrid(), Ok)
  {
    BlankStopsNowhere(0);
    var g := BlankGrid();
    assert Collapse(Open(Digits)) == Open(Digits);
    forall i | 0 <= i < 9 ensures CollapseBelow(g, 81)[i] == g[i] {
      forall j | 0 <= j < 9 ensures CollapseBelow(g, 81)[i][j] == g[i][j] {
      }
    }
  }

  /** The blank board is a fixed point of the propagator for either block
      layout: `base_routine` returns it unchanged and it is not solved, so the
      search has to guess. */
  lemma BlankIsFixedPoint(layout: Layout)
    ensures PassSpec(BlankGrid(), layout) == Run(BlankGrid(), Ok)
    ensures BaseRoutineSpec(BlankGrid(), layout) == Run(BlankGrid(), Ok)
    ensures !IsSolved(BlankGrid())
  {
    BlankPropagate(layout);
    BlankComplete();
    assert BlankGrid()[0][0].Open?;
  }

  /** The cells of a block of a well-formed grid have lists without repeats. */
  lemma BlockNoDup(g: Grid, a: int, b: int)
    requires Is9x9(g) && GridWf(g) && IsBlock((a, b))
    ensures AllNoDup(BlockAt(g, a, b))
  {
    var u := BlockAt(g, a, b);
    forall t | 0 <= t < 9 && u[t].Open?
      ensures NoDup(u[t].cands)
    {
      BlockCell(a, b, t);
      BlockAtCell(g, 3 * a + t / 3, 3 * b + t % 3);
    }
  }

  /** As written, the cell at row 1, column 4 (block (0, 1), off the diagonal)
      comes out of `_filterblocks` as it went in. */
  lemma OffDiagonalAsWritten(g: Grid)
    requires Is9x9(g)
    ensures UnitsIn(g, BlockUnits(AsWritten))
    ensures ApplyUnits(g, BlockUnits(AsWritten), FilterUnit)[1][4] == g[1][4]
  {
    RulesPreserve();
    ApplyBlocksAsWritten(g, FilterUnit);
  }

  /** `_check` is not idempotent, so the three copies of a diagonal block that
      `_yield_blocks` yields (`ApplyBlocksAsWritten`) do more than one `_check`:
      for lists [a, b] and [a, b, c], one pass fixes only the second list,
      while the next passes also turn the first into [a]. */
  lemma CheckTwiceDiffers(a: int, b: int, c: int)
    requires a != b && a != c && b != c
    ensures Preserving(CheckUnit)
    ensures var u := [Open([a, b]), Open([a, b, c])];
      CheckUnit(u) == [Open([a, b]), Open([c])] && Iter(CheckUnit, 3, u)[0] == Open([a])
  {
    RulesPreserve();
    var u := [Open([a, b]), Open([a, b, c])];
    CheckTwoLists([a, b], [a, b, c]);
    CheckThreeFirst(a, b, c);
    var w := CheckUnit(u);
    assert w == [Open([a, b]), Open([c])];
    CheckTwoLists([a, b], [c]);
    CheckThreeLater(a, b, c);
    var w2 := CheckUnit(w);
    assert w2 == [Open([a]), Open([c])];
    CheckTwoLists([a], [c]);
    assert Iter(CheckUnit, 1, u) == w;
    assert Iter(CheckUnit, 2, u) == w2;
    assert Iter(CheckUnit, 3, u) == CheckUnit(w2);
  }

  /** With the intended blocks, a digit x placed at row 0, column 3 is removed
      from the list at row 1, column 4 of the same block. */
  lemma OffDiagonalIntended(g: Grid, x: int)
    requires Is9x9(g) && GridWf(g) && g[0][3] == Fixed(x) && g[1][4].Open?
    ensures UnitsIn(g, BlockUnits(Intended))
    ensures ApplyUnits(g, BlockUnits(Intended), FilterUnit)[1][4].Open?
    ensures x !in ApplyUnits(g, BlockUnits(Intended), FilterUnit)[1][4].cands
  {
    RulesPreserve();
    ApplyBlocksIntended(g, FilterUnit);
    var u := BlockAt(g, 0, 1);
    BlockAtCell(g, 0, 3);
    BlockAtCell(g, 1, 4);
    BlockNoDup(g, 0, 1);
    FilterUnitNarrows(u);
    FilterUnitEliminates(u);
    assert u[0] == Fixed(x) && u[4] == g[1][4];
  }

  /** `_filterblocks` as written never looks at the block right of the top-left
      one: a digit x placed at row 0, column 3 stays a candidate of the list at
      row 1, column 4 of the same block, which the nine intended blocks remove. */
  lemma OffDiagonalBlockMissed(g: Grid, x: int)
    requires Is9x9(g) && GridWf(g) && g[0][3] == Fixed(x) && g[1][4].Open? && x in g[1][4].cands
    ensures UnitsIn(g, BlockUnits(AsWritten)) && UnitsIn(g, BlockUnits(Intended))
    ensures ApplyUnits(g, BlockUnits(AsWritten), FilterUnit)[1][4].Open?
    ensures x in ApplyUnits(g, BlockUnits(AsWritten), FilterUnit)[1][4].cands
    ensures ApplyUnits(g, BlockUnits(Intended), FilterUnit)[1][4].Open?
    ensures x !in ApplyUnits(g, BlockUnits(Intended), FilterUnit)[1][4].cands
  {
    OffDiagonalAsWritten(g);
    OffDiagonalIntended(g, x);
  }

  // ---------------------------------------------------------------- _solve

  /** Placing one of an open cell's candidates narrows the grid and strictly
      lowers its potential: each guess of `yield_possibility` is a smaller
      problem. */
  lemma GuessNarrows(g: Grid, i: nat, j: nat, v: int)
    requires i < |g| && j < |g[i]| && g[i][j].Open? && v in g[i][j].cands
    ensures GridNarrows(SetCell(g, i, j, Fixed(v)), g)
    ensures Potential(SetCell(g, i, j, Fixed(v))) < Potential(g)
  {
    assert Narrows(Fixed(v), g[i][j]);
    PotentialSetCell(g, i, j, Fixed(v));
  }

  /** A 9x9 grid that is not solved has a list at some flat index. */
  lemma UnsolvedHasOpen(g: Grid)
    requires Is9x9(g) && !IsSolved(g)
    ensures exists t :: 0 <= t < 81 && OpenAt(g, t)
  {
    var r, c :| 0 <= r < 9 && 0 <= c < 9 && !g[r][c].Fixed?;
    var t := 9 * r + c;
    assert t / 9 == r && t % 9 == c;
    assert OpenAt(g, t);
  }

  /** Every guess made for an open cell of a 9x9 grid is a 9x9 grid that
      narrows it and has lower potential. */
  lemma GuessesSmaller(g: Grid, r: nat, c: nat)
    requires Is9x9(g) && r < 9 && c < 9 && g[r][c].Open?
    ensures forall l :: 0 <= l < |Guesses(g, r, c)| ==>
      Is9x9(Guesses(g, r, c)[l]) && GridNarrows(Guesses(g, r, c)[l], g) &&
      Potential(Guesses(g, r, c)[l]) < Potential(g)
  {
    forall l | 0 <= l < |Guesses(g, r, c)|
      ensures Is9x9(Guesses(g, r, c)[l]) && GridNarrows(Guesses(g, r, c)[l], g)
      ensures Potential(Guesses(g, r, c)[l]) < Potential(g)
    {
      GuessNarrows(g, r, c, g[r][c].cands[l]);
    }
  }

  /** The first result that is not None, in order: the `for` loop of `_solve`
      that returns the first guess whose `_solve` comes back. */
  function FirstSome<T>(rs: seq<Option<T>>): (r: Option<T>)
    ensures r.None? <==> forall k :: 0 <= k < |rs| ==> rs[k].None?
    ensures r.Some? ==> exists k :: 0 <= k < |rs| && rs[k] == r && forall l :: 0 <= l < k ==> rs[l].None?
  {
    if rs == [] then None
    else if rs[0].Some? then rs[0]
    else
      var r := FirstSome(rs[1..]);
      assert forall k :: 1 <= k < |rs| ==> rs[k] == rs[1..][k - 1];
      if r.Some? then
        ghost var k :| 0 <= k < |rs[1..]| && rs[1..][k] == r && forall l :: 0 <= l < k ==> rs[1..][l].None?;
        assert rs[k + 1] == r;
        r
      else r
  }

  /** The index of the first result that is not None. */
  lemma FirstSomeIndex<T>(rs: seq<Option<T>>) returns (k: nat)
    requires FirstSome(rs).Some?
    ensures k < |rs| && rs[k] == FirstSome(rs) && forall l :: 0 <= l < k ==> rs[l].None?
  {
    k :| 0 <= k < |rs| && rs[k] == FirstSome(rs) && forall l :: 0 <= l < k ==> rs[l].None?;
  }

  /** A result that is not None after only None results is the first. */
  lemma FirstSomeAt<T>(rs: seq<Option<T>>, k: nat)
    requires k < |rs| && rs[k].Some? && forall l :: 0 <= l < k ==> rs[l].None?
    ensures FirstSome(rs) == rs[k]
  {
    var j := FirstSomeIndex(rs);
    assert !(j < k) && !(k < j);
  }

  /** One turn of that loop: a guess that comes back ends it, one that fails
      passes on to the rest. */
  lemma FirstSomeStep<T>(rs: seq<Option<T>>, k: nat)
    requires k < |rs|
    ensures FirstSome(rs[k..]) == if rs[k].Some? then rs[k] else FirstSome(rs[k + 1..])
  {
    assert rs[k..][0] == rs[k] && rs[k..][1..] == rs[k + 1..];
  }

  /** `_solve` as its structure intends, on values: None stands for
      `UnsolvableSudoku`. `base_routine` first; a board it leaves solved is the
      answer; otherwise the guesses of `yield_possibility` are searched. */
  function SearchIntended(g: Grid, layout: Layout): Option<Grid>
    requires Is9x9(g)
    decreases Potential(g), 2, 0
  {
    var p := BaseRoutineSpec(g, layout);
    if p.status.Raised? then None
    else if IsSolved(p.grid) then Some(p.grid)
    else
      BaseRoutineNarrows(g, layout);
      PotentialNarrows(p.grid, g);
      GuessSearch(p.grid, layout)
  }

  /** The boards `yield_possibility` makes from an unsolved 9x9 board: one per
      candidate of its first list cell in row-major order, in list order. */
  function NextGuesses(h: Grid): (gs: seq<Grid>)
    requires Is9x9(h) && !IsSolved(h)
    ensures forall l :: 0 <= l < |gs| ==> Is9x9(gs[l]) && GridNarrows(gs[l], h) && Potential(gs[l]) < Potential(h)
  {
    UnsolvedHasOpen(h);
    var i := FirstOpen(h, 0);
    GuessesSmaller(h, i / 9, i % 9);
    Guesses(h, i / 9, i % 9)
  }

  /** The guesses are those for the cell at the first open flat index. */
  lemma NextGuessesAt(h: Grid, i: nat)
    requires Is9x9(h) && !IsSolved(h) && i < 81 && OpenAt(h, i) && i == FirstOpen(h, 0)
    ensures NextGuesses(h) == Guesses(h, i / 9, i % 9)
  {
  }

  /** The search from an unsolved board: its guesses, tried in order. */
  function GuessSearch(h: Grid, layout: Layout): Option<Grid>
    requires Is9x9(h) && !IsSolved(h)
    decreases Potential(h), 1, 0
  {
    FirstSome(Outcomes(h, NextGuesses(h), layout))
  }

  /** The result of the intended search from each guess, in order. */
  function Outcomes(h: Grid, gs: seq<Grid>, layout: Layout): seq<Option<Grid>>
    requires forall l :: 0 <= l < |gs| ==> Is9x9(gs[l]) && Potential(gs[l]) < Potential(h)
    decreases Potential(h), 0
  {
    seq(|gs|, l requires 0 <= l < |gs| => SearchIntended(gs[l], layout))
  }

  /** The three ways the intended search ends at a board. */
  lemma SearchIntendedCases(g: Grid, layout: Layout)
    requires Is9x9(g)
    ensures BaseRoutineSpec(g, layout).status.Raised? ==> SearchIntended(g, layout) == None
    ensures BaseRoutineSpec(g, layout).status == Ok && IsSolved(BaseRoutineSpec(g, layout).grid) ==>
      SearchIntended(g, layout) == Some(BaseRoutineSpec(g, layout).grid)
    ensures BaseRoutineSpec(g, layout).status == Ok && !IsSolved(BaseRoutineSpec(g, layout).grid) ==>
      Is9x9(BaseRoutineSpec(g, layout).grid) &&
      SearchIntended(g, layout) == GuessSearch(BaseRoutineSpec(g, layout).grid, layout)
  {
    BaseRoutineNarrows(g, layout);
  }

  /** The search from an unsolved board fails exactly when the search from
      every one of its guesses fails. */
  lemma GuessSearchFails(h: Grid, layout: Layout)
    requires Is9x9(h) && !IsSolved(h)
    ensures GuessSearch(h, layout).None? <==>
      forall l :: 0 <= l < |NextGuesses(h)| ==> SearchIntended(NextGuesses(h)[l], layout).None?
  {
    if GuessSearch(h, layout).None? {
      GuessSearchNone(h, layout);
    } else {
      var k := GuessSearchSome(h, layout);
    }
  }

  /** A failed search from an unsolved board: every guess fails. */
  lemma GuessSearchNone(h: Grid, layout: Layout)
    requires Is9x9(h) && !IsSolved(h) && GuessSearch(h, layout).None?
    ensures forall l :: 0 <= l < |NextGuesses(h)| ==> SearchIntended(NextGuesses(h)[l], layout).None?
  {
    var gs := NextGuesses(h);
    var rs := Outcomes(h, gs, layout);
    assert FirstSome(rs).None?;
    OutcomesAt(h, gs, layout);
  }

  /** A successful search from an unsolved board: the guess k it comes from. */
  lemma GuessSearchSome(h: Grid, layout: Layout) returns (k: nat)
    requires Is9x9(h) && !IsSolved(h) && GuessSearch(h, layout).Some?
    ensures k < |NextGuesses(h)| && SearchIntended(NextGuesses(h)[k], layout) == GuessSearch(h, layout)
  {
    var gs := NextGuesses(h);
    var rs := Outcomes(h, gs, layout);
    assert GuessSearch(h, layout) == FirstSome(rs);
    k := FirstSomeIndex(rs);
    OutcomesAt(h, gs, layout);
  }

  /** outs[l] is the outcome of the intended search from gs[l]. */
  predicate OutcomesOf(gs: seq<Grid>, outs: seq<Option<Grid>>, layout: Layout)
  {
    |outs| == |gs| &&
    forall l {:trigger SearchIntended(gs[l], layout)} :: 0 <= l < |gs| ==>
      Is9x9(gs[l]) && outs[l] == SearchIntended(gs[l], layout)
  }

  /** The guesses from an unsolved board, the outcome of the search from each,
      and the first success among them. */
  lemma GuessSearchParts(h: Grid, layout: Layout) returns (gs: seq<Grid>, outs: seq<Option<Grid>>)
    requires Is9x9(h) && !IsSolved(h)
    ensures gs == NextGuesses(h) && |outs| == |gs| && FirstSome(outs) == GuessSearch(h, layout)
    ensures forall l :: 0 <= l < |gs| ==> Is9x9(gs[l]) && Potential(gs[l]) < Potential(h)
    ensures OutcomesOf(gs, outs, layout)
  {
    gs := NextGuesses(h);
    outs := Outcomes(h, gs, layout);
    OutcomesAt(h, gs, layout);
  }

  /** Outcome l is the intended search from guess l. */
  lemma OutcomesAt(h: Grid, gs: seq<Grid>, layout: Layout)
    requires forall l :: 0 <= l < |gs| ==> Is9x9(gs[l]) && Potential(gs[l]) < Potential(h)
    ensures |Outcomes(h, gs, layout)| == |gs|
    ensures forall l :: 0 <= l < |gs| ==> Outcomes(h, gs, layout)[l] == SearchIntended(gs[l], layout)
  {
  }

  /** What the intended search returns is solved and narrows its argument. */
  lemma {:induction false} SearchIntendedSound(g: Grid, layout: Layout)
    requires Is9x9(g) && SearchIntended(g, layout).Some?
    ensures IsSolved(SearchIntended(g, layout).value)
    ensures GridNarrows(SearchIntended(g, layout).value, g)
    decreases Potential(g), 2, 0
  {
    var p := BaseRoutineSpec(g, layout);
    BaseRoutineNarrows(g, layout);
    if p.status == Ok && !IsSolved(p.grid) {
      PotentialNarrows(p.grid, g);
      GuessSearchSound(p.grid, layout);
      GridNarrowsTrans(SearchIntended(g, layout).value, p.grid, g);
    }
  }

  lemma {:induction false} GuessSearchSound(h: Grid, layout: Layout)
    requires Is9x9(h) && !IsSolved(h) && GuessSearch(h, layout).Some?
    ensures IsSolved(GuessSearch(h, layout).value)
    ensures GridNarrows(GuessSearch(h, layout).value, h)
    decreases Potential(h), 1, 0
  {
    var gs := NextGuesses(h);
    var k := GuessSearchSome(h, layout);
    SearchIntendedSound(gs[k], layout);
    GridNarrowsTrans(GuessSearch(h, layout).value, gs[k], h);
  }

  /** Where `_solve` as written returns a board, the intended search returns
      the same board. */
  lemma AsWrittenAgreesWithIntended(g: Grid, layout: Layout)
    requires Is9x9(g) && SolvesAsWritten(g, layout)
    ensures SearchIntended(g, layout) == Some(BaseRoutineSpec(g, layout).grid)
  {
    SearchIntendedCases(g, layout);
  }

  /** `_solve` as written returns normally exactly when `base_routine` alone
      leaves the board solved: after any guess it raises. */
  predicate SolvesAsWritten(g: Grid, layout: Layout)
    requires Is9x9(g)
  {
    var p := BaseRoutineSpec(g, layout);
    p.status == Ok && IsSolved(p.grid)
  }

  /** The blank board, which every completed sudoku narrows, is not solved by
      `_solve` as written, whichever block layout it uses. */
  lemma BlankNotSolvedAsWritten(layout: Layout)
    ensures !SolvesAsWritten(BlankGrid(), layout)
  {
    BlankIsFixedPoint(layout);
  }

  /** A board whose cells are ints except for at most one list [v, v], with v
      none of the board's ints when that list is there. */
  predicate DoubleListBoard(g: Grid, v: int)
    requires Is9x9(g)
  {
    (forall i, j :: 0 <= i < 9 && 0 <= j < 9 ==> g[i][j].Fixed? || g[i][j] == Open([v, v])) &&
    (forall i, j, k, l ::
      (0 <= i < 9 && 0 <= j < 9 && 0 <= k < 9 && 0 <= l < 9 && g[i][j].Open? && g[k][l].Open?) ==> i == k && j == l) &&
    (forall i, j, k, l ::
      (0 <= i < 9 && 0 <= j < 9 && 0 <= k < 9 && 0 <= l < 9 && g[i][j].Open? && g[k][l].Fixed?) ==> g[k][l].v != v)
  }

  /** Every unit of such a board has the same shape. */
  lemma DoubleListUnits(g: Grid, v: int, units: seq<seq<Pos>>)
    requires Is9x9(g) && DoubleListBoard(g, v) && UnitsIn(g, units) && AllDistinct(units)
    ensures forall n :: 0 <= n < |units| ==> OneDoubleList(ReadUnit(g, units[n]), v)
  {
    forall n | 0 <= n < |units| ensures OneDoubleList(ReadUnit(g, units[n]), v) {
      var pos := units[n];
      assert UnitIn(g, pos) && Distinct(pos);
      assert forall t :: 0 <= t < |pos| ==> ReadUnit(g, pos)[t] == g[pos[t].0][pos[t].1];
    }
  }

  /** A rule that leaves every such unit alone leaves the board alone. */
  lemma DoubleListApply(g: Grid, v: int, units: seq<seq<Pos>>, f: seq<Cell> -> seq<Cell>)
    requires Is9x9(g) && DoubleListBoard(g, v) && UnitsIn(g, units) && AllDistinct(units) && Preserving(f)
    requires f == FilterUnit || f == CheckUnit
    ensures ApplyUnits(g, units, f) == g
  {
    DoubleListUnits(g, v, units);
    forall n | 0 <= n < |units| ensures f(ReadUnit(g, units[n])) == ReadUnit(g, units[n]) {
      OneDoubleListFilter(ReadUnit(g, units[n]), v);
      OneDoubleListCheck(ReadUnit(g, units[n]), v);
    }
    ApplyUnitsUnchanged(g, units, f);
  }

  /** `_complete` leaves such a board alone: no list is empty or a singleton. */
  lemma DoubleListComplete(g: Grid, v: int)
    requires Is9x9(g) && DoubleListBoard(g, v)
    ensures CompleteSpec(g) == Run(g, Ok)
  {
    CompleteMeaning(g);
    var h := CompleteSpec(g).grid;
    forall i | 0 <= i < 9 ensures h[i] == g[i] {
      assert forall j :: 0 <= j < 9 ==> h[i][j] == Collapse(g[i][j]) == g[i][j];
    }
  }

  /** A round of `base_routine` changes nothing on such a board. */
  lemma DoubleListRound(g: Grid, v: int, layout: Layout)
    requires Is9x9(g) && DoubleListBoard(g, v)
    ensures PassSpec(g, layout) == Run(g, Ok)
  {
    RulesPreserve();
    UnitsFit(g, layout);
    DoubleListApply(g, v, RowUnits(9, 9), FilterUnit);
    DoubleListApply(g, v, ColUnits(9, 9), FilterUnit);
    DoubleListApply(g, v, BlockUnits(layout), FilterUnit);
    DoubleListApply(g, v, RowUnits(9, 9), CheckUnit);
    DoubleListApply(g, v, ColUnits(9, 9), CheckUnit);
    DoubleListApply(g, v, BlockUnits(layout), CheckUnit);
    assert Propagate(g, layout) == g;
    DoubleListComplete(g, v);
  }

  /** A board of ints only is such a board, for any v. */
  lemma SolvedIsDoubleList(h: Grid, v: int)
    requires Is9x9(h) && IsSolved(h)
    ensures DoubleListBoard(h, v)
  {
  }

  /** Placing a digit in the only list cell leaves ints everywhere. */
  lemma PlaceOnlyList(g: Grid, v: int)
    requires Is9x9(g)
    requires forall i, j :: 0 <= i < 9 && 0 <= j < 9 && (i, j) != (0, 0) ==> g[i][j].Fixed?
    ensures Is9x9(SetCell(g, 0, 0, Fixed(v))) && IsSolved(SetCell(g, 0, 0, Fixed(v)))
  {
    var h := SetCell(g, 0, 0, Fixed(v));
    assert forall i, j :: 0 <= i < 9 && 0 <= j < 9 ==> h[i][j] == if (i, j) == (0, 0) then Fixed(v) else g[i][j];
  }

  /** A board that only a guess solves: ints everywhere except the list [v, v]
      at row 0, column 0, with no int equal to v. No rule changes it, so
      `_solve` as written raises, while the intended search guesses v and
      returns the board with v placed. */
  lemma GuessNeeded(g: Grid, v: int, layout: Layout)
    requires Is9x9(g) && g[0][0] == Open([v, v])
    requires forall i, j :: 0 <= i < 9 && 0 <= j < 9 && (i, j) != (0, 0) ==> g[i][j].Fixed? && g[i][j].v != v
    ensures !SolvesAsWritten(g, layout)
    ensures SearchIntended(g, layout) == Some(SetCell(g, 0, 0, Fixed(v)))
  {
    assert DoubleListBoard(g, v);
    DoubleListRound(g, v, layout);
    BaseRoutineStableRound(g, layout);
    assert !IsSolved(g);
    SearchIntendedCases(g, layout);
    var h := SetCell(g, 0, 0, Fixed(v));
    PlaceOnlyList(g, v);
    SolvedIsDoubleList(h, v);
    DoubleListRound(h, v, layout);
    BaseRoutineStableRound(h, layout);
    SearchIntendedCases(h, layout);
    assert OpenAt(g, 0);
    FirstOpenIs(g, 0);
    NextGuessesAt(g, 0);
    var gs, outs := GuessSearchParts(g, layout);
    assert gs[0] == h;
    FirstSomeAt(outs, 0);
  }

  // ---------------------------------------------------------------- a board that needs a guess, without repeated candidates

  /** The lists [a, b], a != b, in the 2x2 corner (rows 0-1, columns 0-1) and
      ints other than a and b everywhere else. */
  predicate FourListBoard(g: Grid, a: int, b: int)
    requires Is9x9(g)
  {
    a != b &&
    forall i, j :: 0 <= i < 9 && 0 <= j < 9 ==>
      if i < 2 && j < 2 then g[i][j] == Open([a, b]) else g[i][j].Fixed? && g[i][j].v != a && g[i][j].v != b
  }

  /** Cell (i, j) of g with its corner replaced: the int a at row 0, column 0,
      and c01, c10, c11 at the other three corner cells. */
  function Corner(g: Grid, a: int, c01: Cell, c10: Cell, c11: Cell, i: int, j: int): Cell
    requires Is9x9(g) && 0 <= i < 9 && 0 <= j < 9
  {
    if i == 0 && j == 0 then Fixed(a)
    else if i == 0 && j == 1 then c01
    else if i == 1 && j == 0 then c10
    else if i == 1 && j == 1 then c11
    else g[i][j]
  }

  /** h is g with its corner replaced. */
  predicate AtStage(h: Grid, g: Grid, a: int, c01: Cell, c10: Cell, c11: Cell)
    requires Is9x9(g)
  {
    Is9x9(h) && forall i, j :: 0 <= i < 9 && 0 <= j < 9 ==> h[i][j] == Corner(g, a, c01, c10, c11, i, j)
  }

  /** Every row of such a board is a unit of ints other than a and b plus,
      in rows 0 and 1, the lists [a, b] at its first two places. */
  lemma FourListRows(g: Grid, a: int, b: int)
    requires Is9x9(g) && FourListBoard(g, a, b)
    ensures UnitsIn(g, RowUnits(9, 9))
    ensures forall n :: 0 <= n < 9 ==> PairUnit(ReadUnit(g, RowUnits(9, 9)[n]), a, b)
  {
    RowUnitsFit(g);
    forall n | 0 <= n < 9 ensures PairUnit(ReadUnit(g, RowUnits(9, 9)[n]), a, b) {
      var u := ReadUnit(g, RowUnits(9, 9)[n]);
      assert forall t :: 0 <= t < 9 ==> u[t] == g[n][t];
    }
  }

  lemma FourListCols(g: Grid, a: int, b: int)
    requires Is9x9(g) && FourListBoard(g, a, b)
    ensures UnitsIn(g, ColUnits(9, 9))
    ensures forall n :: 0 <= n < 9 ==> PairUnit(ReadUnit(g, ColUnits(9, 9)[n]), a, b)
  {
    ColUnitsFit(g, 9);
    forall n | 0 <= n < 9 ensures PairUnit(ReadUnit(g, ColUnits(9, 9)[n]), a, b) {
      var u := ReadUnit(g, ColUnits(9, 9)[n]);
      assert forall t :: 0 <= t < 9 ==> u[t] == g[t][n];
    }
  }

  /** Block (p, q) of such a board: only block (0, 0) holds lists, at its
      places 0, 1, 3 and 4. */
  lemma FourListBlock(g: Grid, a: int, b: int, p: int, q: int)
    requires Is9x9(g) && FourListBoard(g, a, b) && IsBlock((p, q))
    ensures PairUnit(BlockAt(g, p, q), a, b)
  {
    var u := BlockAt(g, p, q);
    forall t | 0 <= t < 9
      ensures u[t] == g[3 * p + t / 3][3 * q + t % 3]
      ensures u[t].Open? ==> p == 0 && q == 0
    {
      BlockCell(p, q, t);
    }
    assert p == 0 && q == 0 ==> u[0] == g[0][0] && u[1] == g[0][1];
  }

  lemma FourListBlocks(g: Grid, a: int, b: int, layout: Layout)
    requires Is9x9(g) && FourListBoard(g, a, b)
    ensures UnitsIn(g, BlockUnits(layout))
    ensures forall n :: 0 <= n < 9 ==> PairUnit(ReadUnit(g, BlockUnits(layout)[n]), a, b)
  {
    BlockUnitsFit(g, layout);
    forall n | 0 <= n < 9 ensures PairUnit(ReadUnit(g, BlockUnits(layout)[n]), a, b) {
      var p, q := n / 3, if layout == AsWritten then n / 3 else n % 3;
      assert BlockUnits(layout)[n] == BlockUnit(p, q);
      FourListBlock(g, a, b, p, q);
    }
  }

  /** A rule that leaves every unit of the list alone leaves the board alone. */
  lemma PairUnitsStable(g: Grid, a: int, b: int, units: seq<seq<Pos>>, f: seq<Cell> -> seq<Cell>)
    requires Is9x9(g) && UnitsIn(g, units) && Preserving(f) && (f == FilterUnit || f == CheckUnit)
    requires forall n :: 0 <= n < |units| ==> PairUnit(ReadUnit(g, units[n]), a, b)
    ensures ApplyUnits(g, units, f) == g
  {
    forall n | 0 <= n < |units| ensures f(ReadUnit(g, units[n])) == ReadUnit(g, units[n]) {
      PairUnitFilter(ReadUnit(g, units[n]), a, b);
      PairUnitCheck(ReadUnit(g, units[n]), a, b);
    }
    ApplyUnitsUnchanged(g, units, f);
  }

  /** Each of the six passes leaves such a board alone. */
  lemma FourListPasses(g: Grid, a: int, b: int, layout: Layout, f: seq<Cell> -> seq<Cell>)
    requires Is9x9(g) && FourListBoard(g, a, b) && (f == FilterUnit || f == CheckUnit)
    ensures Preserving(f)
    ensures UnitsIn(g, RowUnits(9, 9)) && ApplyUnits(g, RowUnits(9, 9), f) == g
    ensures UnitsIn(g, ColUnits(9, 9)) && ApplyUnits(g, ColUnits(9, 9), f) == g
    ensures UnitsIn(g, BlockUnits(layout)) && ApplyUnits(g, BlockUnits(layout), f) == g
  {
    RulesPreserve();
    FourListRows(g, a, b);
    FourListCols(g, a, b);
    FourListBlocks(g, a, b, layout);
    PairUnitsStable(g, a, b, RowUnits(9, 9), f);
    PairUnitsStable(g, a, b, ColUnits(9, 9), f);
    PairUnitsStable(g, a, b, BlockUnits(layout), f);
  }

  /** `_complete` leaves such a board alone: no list is a singleton or empty. */
  lemma FourListComplete(g: Grid, a: int, b: int)
    requires Is9x9(g) && FourListBoard(g, a, b)
    ensures CompleteSpec(g) == Run(g, Ok)
  {
    CompleteMeaning(g);
    var h := CompleteSpec(g).grid;
    forall i | 0 <= i < 9 ensures h[i] == g[i] {
      assert forall j :: 0 <= j < 9 ==> h[i][j] == Collapse(g[i][j]) == g[i][j];
    }
  }

  /** A round of `base_routine` changes nothing on such a board: no int
      meets a list, no candidate is unique in any unit, and no list is a
      singleton or empty. */
  lemma FourListRound(g: Grid, a: int, b: int, layout: Layout)
    requires Is9x9(g) && FourListBoard(g, a, b)
    ensures PassSpec(g, layout) == Run(g, Ok)
  {
    FourListPasses(g, a, b, layout, FilterUnit);
    FourListPasses(g, a, b, layout, CheckUnit);
    assert Propagate(g, layout) == g;
    FourListComplete(g, a, b);
  }

  /** Every cell of a stage is an int other than b, [a, b] or [b], and the
      only int a is the guess at row 0, column 0. */
  predicate StageCells(h: Grid, a: int, b: int)
    requires Is9x9(h)
  {
    h[0][0] == Fixed(a) &&
    (forall i, j :: 0 <= i < 9 && 0 <= j < 9 ==> CellAB(h[i][j], a, b)) &&
    (forall i, j :: 0 <= i < 9 && 0 <= j < 9 && h[i][j] == Fixed(a) ==> i == 0 && j == 0)
  }

  lemma StageFacts(g: Grid, a: int, b: int, h: Grid, c01: Cell, c10: Cell, c11: Cell)
    requires Is9x9(g) && FourListBoard(g, a, b) && AtStage(h, g, a, c01, c10, c11)
    requires c01.Open? && c10.Open? && c11.Open? && CellAB(c01, a, b) && CellAB(c10, a, b) && CellAB(c11, a, b)
    ensures StageCells(h, a, b)
  {
  }

  /** `_filter` of row i of a stage: row 0 holds the int a, so its lists
      become [b]; no other row holds a, so its lists stay. */
  lemma StageRowFilter(h: Grid, a: int, b: int, i: int)
    requires Is9x9(h) && a != b && StageCells(h, a, b) && 0 <= i < 9
    ensures forall j :: 0 <= j < 9 ==>
      FilterUnit(h[i])[j] == if i == 0 && h[i][j].Open? then Open([b]) else h[i][j]
  {
    FilterAB(h[i], a, b);
    assert HasInt(h[i], a) <==> i == 0 by {
      assert i == 0 ==> h[i][0] == Fixed(a);
    }
  }

  /** `_filter` of column j of a stage: only column 0 holds the int a. */
  lemma StageColFilter(h: Grid, a: int, b: int, j: int)
    requires Is9x9(h) && a != b && StageCells(h, a, b) && 0 <= j < 9
    ensures forall i :: 0 <= i < 9 ==>
      FilterUnit(Col(h, j))[i] == if j == 0 && h[i][j].Open? then Open([b]) else h[i][j]
  {
    var u := Col(h, j);
    assert forall t :: 0 <= t < 9 ==> u[t] == h[t][j];
    FilterAB(u, a, b);
    assert HasInt(u, a) <==> j == 0 by {
      assert j == 0 ==> u[0] == Fixed(a);
    }
  }

  /** `_filter` of block (p, q) of a stage: only block (0, 0) holds the int
      a; a second `_filter` changes nothing. */
  lemma StageBlockFilter(h: Grid, a: int, b: int, p: int, q: int)
    requires Is9x9(h) && a != b && StageCells(h, a, b) && IsBlock((p, q))
    ensures forall t :: 0 <= t < 9 ==>
      FilterUnit(BlockAt(h, p, q))[t] ==
      if p == 0 && q == 0 && BlockAt(h, p, q)[t].Open? then Open([b]) else BlockAt(h, p, q)[t]
    ensures FilterUnit(FilterUnit(BlockAt(h, p, q))) == FilterUnit(BlockAt(h, p, q))
  {
    var u := BlockAt(h, p, q);
    forall t | 0 <= t < 9
      ensures 0 <= 3 * p + t / 3 < 9 && 0 <= 3 * q + t % 3 < 9 && u[t] == h[3 * p + t / 3][3 * q + t % 3]
    {
      BlockCell(p, q, t);
    }
    FilterAB(u, a, b);
    assert HasInt(u, a) <==> p == 0 && q == 0 by {
      assert p == 0 && q == 0 ==> u[0] == Fixed(a);
    }
    FilterUnitIdempotent(u);
  }

  /** `_filterrows` of a stage: the lists of row 0 become [b]. */
  lemma StageRowsFilter(h: Grid, a: int, b: int)
    requires Is9x9(h) && a != b && StageCells(h, a, b)
    ensures Preserving(FilterUnit) && UnitsIn(h, RowUnits(9, 9))
    ensures forall i, j :: 0 <= i < 9 && 0 <= j < 9 ==>
      Pass(h, RowUnits(9, 9), FilterUnit)[i][j] == if i == 0 && h[i][j].Open? then Open([b]) else h[i][j]
  {
    RulesPreserve();
    RowUnitsFit(h);
    ApplyRows(h, FilterUnit);
    forall i | 0 <= i < 9 ensures forall j :: 0 <= j < 9 ==>
      FilterUnit(h[i])[j] == if i == 0 && h[i][j].Open? then Open([b]) else h[i][j]
    {
      StageRowFilter(h, a, b, i);
    }
  }

  /** `_filtercols` of a stage: the lists of column 0 become [b]. */
  lemma StageColsFilter(h: Grid, a: int, b: int)
    requires Is9x9(h) && a != b && StageCells(h, a, b)
    ensures Preserving(FilterUnit) && UnitsIn(h, ColUnits(9, 9))
    ensures forall i, j :: 0 <= i < 9 && 0 <= j < 9 ==>
      Pass(h, ColUnits(9, 9), FilterUnit)[i][j] == if j == 0 && h[i][j].Open? then Open([b]) else h[i][j]
  {
    RulesPreserve();
    ColUnitsFit(h, 9);
    ApplyCols(h, FilterUnit);
    forall i, j | 0 <= i < 9 && 0 <= j < 9
      ensures Pass(h, ColUnits(9, 9), FilterUnit)[i][j] == if j == 0 && h[i][j].Open? then Open([b]) else h[i][j]
    {
      StageColFilter(h, a, b, j);
    }
  }

  /** `_filterrows` after the guess: row 0 holds the int a, so its list
      loses a; row 1 holds no a and keeps its lists. */
  lemma GuessRowsFilter(g: Grid, a: int, b: int, h: Grid)
    requires Is9x9(g) && FourListBoard(g, a, b)
    requires AtStage(h, g, a, Open([a, b]), Open([a, b]), Open([a, b]))
    ensures Preserving(FilterUnit) && UnitsIn(h, RowUnits(9, 9))
    ensures AtStage(Pass(h, RowUnits(9, 9), FilterUnit), g, a, Open([b]), Open([a, b]), Open([a, b]))
  {
    StageFacts(g, a, b, h, Open([a, b]), Open([a, b]), Open([a, b]));
    StageRowsFilter(h, a, b);
  }

  /** `_filtercols` next: column 0 holds the int a, so its list loses a;
      column 1 holds no a. */
  lemma GuessColsFilter(g: Grid, a: int, b: int, h: Grid)
    requires Is9x9(g) && FourListBoard(g, a, b)
    requires AtStage(h, g, a, Open([b]), Open([a, b]), Open([a, b]))
    ensures Preserving(FilterUnit) && UnitsIn(h, ColUnits(9, 9))
    ensures AtStage(Pass(h, ColUnits(9, 9), FilterUnit), g, a, Open([b]), Open([b]), Open([a, b]))
  {
    StageFacts(g, a, b, h, Open([b]), Open([a, b]), Open([a, b]));
    StageColsFilter(h, a, b);
  }

  /** The rule applied three times is applied once when a second application
      changes nothing. */
  lemma IterIdempotent(f: seq<Cell> -> seq<Cell>, u: seq<Cell>)
    requires Preserving(f) && f(f(u)) == f(u)
    ensures Iter(f, 3, u) == f(u)
  {
    assert Iter(f, 1, u) == f(u);
    assert Iter(f, 2, u) == f(u);
  }

  /** Cell (r, c) after `_filter` of its block, applied once or three times. */
  lemma StageBlockCell(h: Grid, a: int, b: int, r: int, c: int)
    requires Is9x9(h) && a != b && StageCells(h, a, b) && 0 <= r < 9 && 0 <= c < 9
    ensures IsBlock((r / 3, c / 3)) && 0 <= (r % 3) * 3 + c % 3 < 9
    ensures (r < 3 && c < 3) <==> (r / 3 == 0 && c / 3 == 0)
    ensures Iter(FilterUnit, 3, BlockAt(h, r / 3, c / 3)) == FilterUnit(BlockAt(h, r / 3, c / 3))
    ensures FilterUnit(BlockAt(h, r / 3, c / 3))[(r % 3) * 3 + c % 3] ==
      if r < 3 && c < 3 && h[r][c].Open? then Open([b]) else h[r][c]
  {
    RulesPreserve();
    CellInBlock(r, c);
    BlockAtCell(h, r, c);
    StageBlockFilter(h, a, b, r / 3, c / 3);
    IterIdempotent(FilterUnit, BlockAt(h, r / 3, c / 3));
    assert (r < 3 && c < 3) <==> (r / 3 == 0 && c / 3 == 0);
  }

  /** `_filterblocks` of a stage, under either layout: block (0, 0) is a
      diagonal block, visited by both, and its lists become [b]; no other
      block holds the int a. */
  lemma StageBlocksFilter(h: Grid, a: int, b: int, layout: Layout)
    requires Is9x9(h) && a != b && StageCells(h, a, b)
    ensures Preserving(FilterUnit) && UnitsIn(h, BlockUnits(layout))
    ensures forall r, c :: 0 <= r < 9 && 0 <= c < 9 ==>
      Pass(h, BlockUnits(layout), FilterUnit)[r][c] == if r < 3 && c < 3 && h[r][c].Open? then Open([b]) else h[r][c]
  {
    RulesPreserve();
    BlockUnitsFit(h, layout);
    if layout == AsWritten {
      ApplyBlocksAsWritten(h, FilterUnit);
      forall r, c | 0 <= r < 9 && 0 <= c < 9
        ensures Pass(h, BlockUnits(layout), FilterUnit)[r][c] == if r < 3 && c < 3 && h[r][c].Open? then Open([b]) else h[r][c]
      {
        StageBlockCell(h, a, b, r, c);
      }
    } else {
      ApplyBlocksIntended(h, FilterUnit);
      forall r, c | 0 <= r < 9 && 0 <= c < 9
        ensures Pass(h, BlockUnits(layout), FilterUnit)[r][c] == if r < 3 && c < 3 && h[r][c].Open? then Open([b]) else h[r][c]
      {
        StageBlockCell(h, a, b, r, c);
      }
    }
  }

  /** `_filterblocks` after the rows and columns: the last list of the
      corner loses a. */
  lemma GuessBlocksFilter(g: Grid, a: int, b: int, h: Grid, layout: Layout)
    requires Is9x9(g) && FourListBoard(g, a, b)
    requires AtStage(h, g, a, Open([b]), Open([b]), Open([a, b]))
    ensures Preserving(FilterUnit) && UnitsIn(h, BlockUnits(layout))
    ensures AtStage(Pass(h, BlockUnits(layout), FilterUnit), g, a, Open([b]), Open([b]), Open([b]))
  {
    StageFacts(g, a, b, h, Open([b]), Open([b]), Open([a, b]));
    StageBlocksFilter(h, a, b, layout);
  }

  /** `_check` leaves alone every unit of a board whose lists are all [b]. */
  lemma SingletonBoardCheck(h: Grid, b: int, units: seq<seq<Pos>>)
    requires IsRect(h) && UnitsIn(h, units) && Preserving(CheckUnit)
    requires forall i, j :: 0 <= i < |h| && 0 <= j < |h[i]| && h[i][j].Open? ==> h[i][j] == Open([b])
    ensures ApplyUnits(h, units, CheckUnit) == h
  {
    forall n | 0 <= n < |units| ensures CheckUnit(ReadUnit(h, units[n])) == ReadUnit(h, units[n]) {
      var u := ReadUnit(h, units[n]);
      assert forall t :: 0 <= t < |u| ==> InBounds(h, units[n][t]) && u[t] == h[units[n][t].0][units[n][t].1];
      SingletonListsCheck(u, b);
    }
    ApplyUnitsUnchanged(h, units, CheckUnit);
  }

  /** The three `_check` passes leave the corner of lists [b] alone: each
      unit holds at most the one candidate b, in every list. */
  lemma GuessChecks(g: Grid, a: int, b: int, h: Grid, layout: Layout)
    requires Is9x9(g) && FourListBoard(g, a, b)
    requires AtStage(h, g, a, Open([b]), Open([b]), Open([b]))
    ensures Preserving(CheckUnit)
    ensures UnitsIn(h, RowUnits(9, 9)) && Pass(h, RowUnits(9, 9), CheckUnit) == h
    ensures UnitsIn(h, ColUnits(9, 9)) && Pass(h, ColUnits(9, 9), CheckUnit) == h
    ensures UnitsIn(h, BlockUnits(layout)) && Pass(h, BlockUnits(layout), CheckUnit) == h
  {
    RulesPreserve();
    UnitsFit(h, layout);
    assert forall i, j :: 0 <= i < |h| && 0 <= j < |h[i]| && h[i][j].Open? ==> h[i][j] == Open([b]);
    SingletonBoardCheck(h, b, RowUnits(9, 9));
    SingletonBoardCheck(h, b, ColUnits(9, 9));
    SingletonBoardCheck(h, b, BlockUnits(layout));
  }

  /** `_complete` of the corner of lists [b] places b in each of them. */
  lemma GuessComplete(g: Grid, a: int, b: int, h: Grid)
    requires Is9x9(g) && FourListBoard(g, a, b)
    requires AtStage(h, g, a, Open([b]), Open([b]), Open([b]))
    ensures CompleteSpec(h).status == Ok
    ensures AtStage(CompleteSpec(h).grid, g, a, Fixed(b), Fixed(b), Fixed(b))
  {
    CompleteMeaning(h);
    assert forall i, j :: 0 <= i < 9 && 0 <= j < 9 ==> h[i][j] != Open([]);
    var s := CompleteSpec(h).grid;
    forall i, j | 0 <= i < 9 && 0 <= j < 9
      ensures s[i][j] == Corner(g, a, Fixed(b), Fixed(b), Fixed(b), i, j)
    {
      assert s[i][j] == Collapse(h[i][j]);
    }
  }

  /** The six passes after the guess a at row 0, column 0: the ints filter
      the other three lists down to [b], and the checks keep them. */
  lemma GuessPropagate(g: Grid, a: int, b: int, h: Grid, layout: Layout)
    requires Is9x9(g) && FourListBoard(g, a, b)
    requires AtStage(h, g, a, Open([a, b]), Open([a, b]), Open([a, b]))
    ensures AtStage(Propagate(h, layout), g, a, Open([b]), Open([b]), Open([b]))
  {
    var h1, h2, h3, h4, h5 := PropagateParts(h, layout);
    GuessRowsFilter(g, a, b, h);
    GuessColsFilter(g, a, b, h1);
    GuessBlocksFilter(g, a, b, h2, layout);
    GuessChecks(g, a, b, h3, layout);
  }

  /** The round after the guess: `_complete` places b in the three lists. */
  lemma GuessRound(g: Grid, a: int, b: int, h: Grid, layout: Layout)
    requires Is9x9(g) && FourListBoard(g, a, b)
    requires AtStage(h, g, a, Open([a, b]), Open([a, b]), Open([a, b]))
    ensures PassSpec(h, layout).status == Ok
    ensures AtStage(PassSpec(h, layout).grid, g, a, Fixed(b), Fixed(b), Fixed(b))
  {
    GuessPropagate(g, a, b, h, layout);
    GuessComplete(g, a, b, Propagate(h, layout));
  }

  /** With b placed in the other three corner cells, every cell is an int. */
  lemma StageSolved(g: Grid, a: int, b: int, s: Grid)
    requires Is9x9(g) && FourListBoard(g, a, b)
    requires AtStage(s, g, a, Fixed(b), Fixed(b), Fixed(b))
    ensures IsSolved(s)
  {
    forall i, j | 0 <= i < |s| && 0 <= j < |s[i]| ensures s[i][j].Fixed? {
      assert s[i][j] == Corner(g, a, Fixed(b), Fixed(b), Fixed(b), i, j);
    }
  }

  /** The first guess from the board: a in the list at row 0, column 0. */
  lemma FirstGuess(g: Grid, a: int, b: int)
    requires Is9x9(g) && FourListBoard(g, a, b)
    ensures !IsSolved(g) && OpenAt(g, 0)
    ensures AtStage(SetCell(g, 0, 0, Fixed(a)), g, a, Open([a, b]), Open([a, b]), Open([a, b]))
    ensures NextGuesses(g)[0] == SetCell(g, 0, 0, Fixed(a))
  {
    assert g[0][0] == Open([a, b]);
    var h := SetCell(g, 0, 0, Fixed(a));
    forall i, j | 0 <= i < 9 && 0 <= j < 9
      ensures h[i][j] == Corner(g, a, Open([a, b]), Open([a, b]), Open([a, b]), i, j)
    {
      if i != 0 || j != 0 {
        assert h[i][j] == g[i][j];
      }
    }
    FirstOpenIs(g, 0);
    NextGuessesAt(g, 0);
    assert 0 / 9 == 0 && 0 % 9 == 0;
    assert Guesses(g, 0, 0)[0] == h;
  }

  /** After the guess, the search ends at once: one round solves the board
      and the next changes nothing. */
  lemma GuessSolved(g: Grid, a: int, b: int, h: Grid, layout: Layout)
    requires Is9x9(g) && FourListBoard(g, a, b)
    requires AtStage(h, g, a, Open([a, b]), Open([a, b]), Open([a, b]))
    ensures SearchIntended(h, layout).Some?
    ensures AtStage(SearchIntended(h, layout).value, g, a, Fixed(b), Fixed(b), Fixed(b))
  {
    GuessRound(g, a, b, h, layout);
    var s := PassSpec(h, layout).grid;
    assert s[0][1] == Fixed(b) && h[0][1] == Open([a, b]);
    BaseRoutineStep(h, layout);
    StageSolved(g, a, b, s);
    SolvedIsDoubleList(s, 0);
    DoubleListRound(s, 0, layout);
    BaseRoutineStableRound(s, layout);
    SearchIntendedCases(h, layout);
  }

  /** A board without repeated candidates that `base_routine` cannot finish:
      the lists [a, b] at rows 0-1, columns 0-1 and ints other than a and b
      everywhere else. `_solve` as written raises on it; the intended search
      guesses a at row 0, column 0, after which one round places b in the
      other three lists. */
  lemma FourListGuessNeeded(g: Grid, a: int, b: int, layout: Layout)
    requires Is9x9(g) && FourListBoard(g, a, b)
    ensures !SolvesAsWritten(g, layout)
    ensures SearchIntended(g, layout).Some?
    ensures AtStage(SearchIntended(g, layout).value, g, a, Fixed(b), Fixed(b), Fixed(b))
  {
    FourListRound(g, a, b, layout);
    BaseRoutineStableRound(g, layout);
    FirstGuess(g, a, b);
    SearchIntendedCases(g, layout);
    var h := SetCell(g, 0, 0, Fixed(a));
    GuessSolved(g, a, b, h, layout);
    var gs, outs := GuessSearchParts(g, layout);
    assert gs[0] == h;
    FirstSomeAt(outs, 0);
  }

  /** A solved grid that narrows the lists `_tolists` made from a well-formed
      input keeps every given int in place and puts a digit 1..9 wherever the
      input had None. */
  lemma SolutionKeepsGivens(input: seq<seq<PyValue>>, h: Grid)
    requires CorrectFormat(input)
    requires GridNarrows(h, ToLists(input)) && IsSolved(h)
    ensures Is9x9(h)
    ensures forall i, j :: 0 <= i < 9 && 0 <= j < 9 && input[i][j].PyInt? ==> h[i][j] == Fixed(input[i][j].i)
    ensures forall i, j :: 0 <= i < 9 && 0 <= j < 9 && input[i][j].PyNone? ==> h[i][j].Fixed? && 1 <= h[i][j].v <= 9
  {
    ToListsMeaning(input);
    forall i, j | 0 <= i < 9 && 0 <= j < 9
      ensures input[i][j].PyInt? ==> h[i][j] == Fixed(input[i][j].i)
      ensures input[i][j].PyNone? ==> h[i][j].Fixed? && 1 <= h[i][j].v <= 9
    {
      assert Narrows(h[i][j], ToLists(input)[i][j]);
      if input[i][j].PyInt? {
        NarrowsKeepsFixed(h[i][j], input[i][j].i);
      } else {
        assert h[i][j].v in Cands(h[i][j]);
      }
    }
  }
}
