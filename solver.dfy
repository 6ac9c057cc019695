/** The class `SudokuSolver` of sudokusolver/sudokusolver.py: the in-place
    operations on a board held in a two-dimensional array, each proved equal to
    its grid function in module Passes, and the search on top of them. */
module SudokuSolver {
  import opened Board
  import opened Utils
  import opened Units
  import opened Passes

  /** How a solve ends: the solved board, or the exception that escaped. */
  datatype Outcome = Solved(board: array2<Cell>) | Failed(error: Error)

  /** The unit's positions lie inside the array. */
  predicate InArray(b: array2<Cell>, pos: seq<Pos>)
  {
    forall t :: 0 <= t < |pos| ==> 0 <= pos[t].0 < b.Length0 && 0 <= pos[t].1 < b.Length1
  }

  /** g has the shape of the array. */
  predicate Fits(b: array2<Cell>, g: Grid)
  {
    |g| == b.Length0 && forall i :: 0 <= i < |g| ==> |g[i]| == b.Length1
  }

  /** The cells of the unit on the board are v, position by position. */
  ghost predicate UnitHolds(b: array2<Cell>, pos: seq<Pos>, v: seq<Cell>)
    reads b
    requires InArray(b, pos) && |v| == |pos|
  {
    forall t :: 0 <= t < |pos| ==> b[pos[t].0, pos[t].1] == v[t]
  }

  /** Every cell of the board outside the unit is as in g. */
  ghost predicate OutsideUnchanged(b: array2<Cell>, pos: seq<Pos>, g: Grid)
    reads b
    requires Fits(b, g)
  {
    forall i, j :: 0 <= i < b.Length0 && 0 <= j < b.Length1 && (i, j) !in pos ==> b[i, j] == g[i][j]
  }

  /** A unit of the board's own grid lies in the array and holds what
      `ReadUnit` reads; nothing has changed outside it yet. */
  lemma UnitStart(b: array2<Cell>, pos: seq<Pos>)
    requires UnitIn(Contents(b), pos)
    ensures InArray(b, pos) && UnitHolds(b, pos, ReadUnit(Contents(b), pos))
    ensures OutsideUnchanged(b, pos, Contents(b))
  {
    forall t | 0 <= t < |pos| ensures 0 <= pos[t].0 < b.Length0 && 0 <= pos[t].1 < b.Length1 {
      assert InBounds(Contents(b), pos[t]);
    }
  }

  /** The board holds the unit's cells as v, and g everywhere else. */
  lemma UnitWritten(b: array2<Cell>, pos: seq<Pos>, g: Grid, v: seq<Cell>)
    requires Fits(b, g) && InArray(b, pos) && |v| == |pos|
    requires UnitHolds(b, pos, v) && OutsideUnchanged(b, pos, g)
    ensures Contents(b) == WriteUnit(g, pos, v)
  {
    forall i | 0 <= i < b.Length0 ensures Contents(b)[i] == WriteUnit(g, pos, v)[i] {
      forall j | 0 <= j < b.Length1 ensures Contents(b)[i][j] == WriteUnit(g, pos, v)[i][j] {
        if (i, j) in pos {
          var t := IndexOf(pos, (i, j));
          assert b[pos[t].0, pos[t].1] == v[t];
        }
      }
    }
  }

  /** `for _int in ints: element.remove(_int)` on one list, a missing value
      ignored. */
  method RemoveInts(element: seq<int>, ints: seq<int>) returns (r: seq<int>)
    ensures r == RemoveEach(element, ints)
  {
    r := element;
    var m := 0;
    while m < |ints|
      invariant 0 <= m <= |ints|
      invariant r == RemoveEach(element, ints[..m])
    {
      r := RemoveFirst(r, ints[m]);
      assert ints[..m + 1][..m] == ints[..m];
      m := m + 1;
    }
    assert ints[..|ints|] == ints;
  }

  /** The inner loop of `_filter` on the list cell at row r, column c. */
  method RemoveIntsAt(b: array2<Cell>, r: nat, c: nat, ints: seq<int>)
    requires r < b.Length0 && c < b.Length1 && b[r, c].Open?
    modifies b
    ensures b[r, c] == FilterCell(old(b[r, c]), ints)
    ensures forall i, j :: 0 <= i < b.Length0 && 0 <= j < b.Length1 && (i, j) != (r, c) ==> b[i, j] == old(b[i, j])
  {
    var element := RemoveInts(b[r, c].cands, ints);
    b[r, c] := Open(element);
  }

  /** `_filter(ls)`: every int of the unit is removed, first occurrence only,
      from every list of the unit, in place. */
  method FilterUnitAt(b: array2<Cell>, pos: seq<Pos>)
    requires UnitIn(Contents(b), pos) && Distinct(pos)
    modifies b
    ensures UnitIn(old(Contents(b)), pos) && Preserving(FilterUnit)
    ensures Contents(b) == Step(old(Contents(b)), pos, FilterUnit)
  {
    RulesKeepLength();
    ghost var g := Contents(b);
    UnitStart(b, pos);
    var ls := ReadUnit(Contents(b), pos);
    ghost var out := FilterUnit(ls);
    var ints := IntsOf(ls);
    var k := 0;
    while k < |pos|
      invariant 0 <= k <= |pos|
      invariant forall t :: 0 <= t < |pos| ==> b[pos[t].0, pos[t].1] == if t < k then out[t] else ls[t]
      invariant OutsideUnchanged(b, pos, g)
    {
      var (r, c) := pos[k];
      ghost var cur := Contents(b);
      assert out[k] == FilterCell(ls[k], ints);
      if b[r, c].Open? {
        RemoveIntsAt(b, r, c, ints);
      }
      forall t | 0 <= t < |pos| && t != k
        ensures b[pos[t].0, pos[t].1] == cur[pos[t].0][pos[t].1]
      {
        assert pos[t] != pos[k];
      }
      k := k + 1;
    }
    UnitWritten(b, pos, g, out);
  }

  /** The inner loop of `_check` for one value:
      `for element in lists: if value in element: element.clear(); element.append(value)`.
      The unit holds w; cells that are not lists are left alone by the value. */
  method ApplyValueAt(b: array2<Cell>, pos: seq<Pos>, lists: seq<nat>, value: int, ghost g: Grid, ghost w: seq<Cell>)
    requires Fits(b, g) && InArray(b, pos) && Distinct(pos) && |w| == |pos|
    requires forall m :: 0 <= m < |lists| ==> lists[m] < |pos|
    requires forall m, n :: 0 <= m < n < |lists| ==> lists[m] < lists[n]
    requires forall t :: 0 <= t < |pos| && t !in lists ==> ApplyValueCell(w[t], value) == w[t]
    requires UnitHolds(b, pos, w) && OutsideUnchanged(b, pos, g)
    modifies b
    ensures UnitHolds(b, pos, ApplyValue(w, value)) && OutsideUnchanged(b, pos, g)
  {
    var li := 0;
    while li < |lists|
      invariant 0 <= li <= |lists|
      invariant forall t :: 0 <= t < |pos| ==>
        b[pos[t].0, pos[t].1] == if t in lists[..li] then ApplyValueCell(w[t], value) else w[t]
      invariant OutsideUnchanged(b, pos, g)
    {
      var p := pos[lists[li]];
      assert lists[..li + 1] == lists[..li] + [lists[li]];
      assert lists[li] !in lists[..li];
      var element := b[p.0, p.1];
      if element.Open? && value in element.cands {
        b[p.0, p.1] := Open([value]);
      }
      li := li + 1;
    }
    assert lists[..|lists|] == lists;
  }

  /** `_check(ls)`: for each digit that occurs in exactly one list of the unit,
      taken in order of first appearance, every list that still holds it is
      cut down to it, in place. */
  method CheckUnitAt(b: array2<Cell>, pos: seq<Pos>)
    requires UnitIn(Contents(b), pos) && Distinct(pos)
    modifies b
    ensures UnitIn(old(Contents(b)), pos) && Preserving(CheckUnit)
    ensures Contents(b) == Step(old(Contents(b)), pos, CheckUnit)
  {
    RulesKeepLength();
    ghost var g := Contents(b);
    UnitStart(b, pos);
    var ls := ReadUnit(Contents(b), pos);
    var lists := OpenIndices(ls);
    var flattened := Flatten(ListsOf(ls));
    var unique := Uniques(flattened);
    var vi := 0;
    while vi < |unique|
      invariant 0 <= vi <= |unique|
      invariant UnitHolds(b, pos, FoldValues(ls, unique[..vi]))
      invariant OutsideUnchanged(b, pos, g)
    {
      ghost var prev := FoldValues(ls, unique[..vi]);
      forall t | 0 <= t < |pos| && t !in lists ensures ApplyValueCell(prev[t], unique[vi]) == prev[t] {
        FoldValuesAt(ls, unique[..vi], t);
        CellFoldFixed(ls[t].v, unique[..vi]);
      }
      ApplyValueAt(b, pos, lists, unique[vi], g, prev);
      assert unique[..vi + 1][..vi] == unique[..vi];
      vi := vi + 1;
    }
    assert unique[..|unique|] == unique;
    UnitWritten(b, pos, g, CheckUnit(ls));
  }

  // ---------------------------------------------------------------- the drivers

  /** The board holds g with the rule applied to the first n units. */
  ghost predicate FoldedTo(b: array2<Cell>, g: Grid, units: seq<seq<Pos>>, n: nat, f: seq<Cell> -> seq<Cell>)
    reads b
    requires IsRect(g) && UnitsIn(g, units) && Preserving(f) && n <= |units|
  {
    ApplyUnitsPrefix(g, units, n);
    Contents(b) == ApplyUnits(g, units[..n], f)
  }

  /** One turn of `for unit in units: _filter(unit)`: the board goes from
      the fold over the first n units to the fold over the first n + 1. */
  method FilterNext(b: array2<Cell>, ghost g: Grid, units: seq<seq<Pos>>, n: nat)
    requires IsRect(g) && UnitsIn(g, units) && AllDistinct(units) && n < |units|
    requires Preserving(FilterUnit) && FoldedTo(b, g, units, n, FilterUnit)
    modifies b
    ensures FoldedTo(b, g, units, n + 1, FilterUnit)
  {
    ApplyUnitsSnoc(g, units, n, FilterUnit);
    FilterUnitAt(b, units[n]);
  }

  /** `for unit in units: _filter(unit)`. */
  method FilterEach(b: array2<Cell>, units: seq<seq<Pos>>)
    requires UnitsIn(Contents(b), units) && AllDistinct(units)
    modifies b
    ensures Contents(b) == ApplyUnits(old(Contents(b)), units, FilterUnit)
  {
    RulesKeepLength();
    ghost var g := Contents(b);
    assert units[..0] == [];
    var n := 0;
    while n < |units|
      invariant 0 <= n <= |units|
      invariant FoldedTo(b, g, units, n, FilterUnit)
    {
      FilterNext(b, g, units, n);
      n := n + 1;
    }
    assert units[..|units|] == units;
  }

  /** One turn of `for unit in units: _check(unit)`: the board goes from
      the fold over the first n units to the fold over the first n + 1. */
  method CheckNext(b: array2<Cell>, ghost g: Grid, units: seq<seq<Pos>>, n: nat)
    requires IsRect(g) && UnitsIn(g, units) && AllDistinct(units) && n < |units|
    requires Preserving(CheckUnit) && FoldedTo(b, g, units, n, CheckUnit)
    modifies b
    ensures FoldedTo(b, g, units, n + 1, CheckUnit)
  {
    ApplyUnitsSnoc(g, units, n, CheckUnit);
    CheckUnitAt(b, units[n]);
  }

  /** `for unit in units: _check(unit)`. */
  method CheckEach(b: array2<Cell>, units: seq<seq<Pos>>)
    requires UnitsIn(Contents(b), units) && AllDistinct(units)
    modifies b
    ensures Contents(b) == ApplyUnits(old(Contents(b)), units, CheckUnit)
  {
    RulesKeepLength();
    ghost var g := Contents(b);
    assert units[..0] == [];
    var n := 0;
    while n < |units|
      invariant 0 <= n <= |units|
      invariant FoldedTo(b, g, units, n, CheckUnit)
    {
      CheckNext(b, g, units, n);
      n := n + 1;
    }
    assert units[..|units|] == units;
  }

  /** `_filterrows(sudoku)`, on a board of any size. */
  method FilterRows(b: array2<Cell>)
    modifies b
    ensures UnitsIn(old(Contents(b)), RowUnits(b.Length0, Width(old(Contents(b)))))
    ensures Contents(b) == ApplyUnits(old(Contents(b)), RowUnits(b.Length0, Width(old(Contents(b)))), FilterUnit)
  {
    RowUnitsFit(Contents(b));
    FilterEach(b, RowUnits(b.Length0, Width(Contents(b))));
  }

  /** `_filtercols(sudoku)`: `zip(*sudoku)` gives the columns, whose lists are
      the board's own. */
  method FilterCols(b: array2<Cell>)
    modifies b
    ensures UnitsIn(old(Contents(b)), ColUnits(b.Length0, Width(old(Contents(b)))))
    ensures Contents(b) == ApplyUnits(old(Contents(b)), ColUnits(b.Length0, Width(old(Contents(b)))), FilterUnit)
  {
    ColUnitsFit(Contents(b), Width(Contents(b)));
    FilterEach(b, ColUnits(b.Length0, Width(Contents(b))));
  }

  /** `_filterblocks(sudoku)`, with the blocks of the given layout. */
  method FilterBlocks(b: array2<Cell>, layout: Layout)
    requires b.Length0 == 9 && b.Length1 == 9
    modifies b
    ensures UnitsIn(old(Contents(b)), BlockUnits(layout))
    ensures Contents(b) == ApplyUnits(old(Contents(b)), BlockUnits(layout), FilterUnit)
  {
    BlockUnitsFit(Contents(b), layout);
    FilterEach(b, BlockUnits(layout));
  }

  /** `_checkrows(sudoku)`, on a board of any size. */
  method CheckRows(b: array2<Cell>)
    modifies b
    ensures UnitsIn(old(Contents(b)), RowUnits(b.Length0, Width(old(Contents(b)))))
    ensures Contents(b) == ApplyUnits(old(Contents(b)), RowUnits(b.Length0, Width(old(Contents(b)))), CheckUnit)
  {
    RowUnitsFit(Contents(b));
    CheckEach(b, RowUnits(b.Length0, Width(Contents(b))));
  }

  /** `_checkcols(sudoku)`. */
  method CheckCols(b: array2<Cell>)
    modifies b
    ensures UnitsIn(old(Contents(b)), ColUnits(b.Length0, Width(old(Contents(b)))))
    ensures Contents(b) == ApplyUnits(old(Contents(b)), ColUnits(b.Length0, Width(old(Contents(b)))), CheckUnit)
  {
    ColUnitsFit(Contents(b), Width(Contents(b)));
    CheckEach(b, ColUnits(b.Length0, Width(Contents(b))));
  }

  /** `_checkblocks(sudoku)`, with the blocks of the given layout. */
  method CheckBlocks(b: array2<Cell>, layout: Layout)
    requires b.Length0 == 9 && b.Length1 == 9
    modifies b
    ensures UnitsIn(old(Contents(b)), BlockUnits(layout))
    ensures Contents(b) == ApplyUnits(old(Contents(b)), BlockUnits(layout), CheckUnit)
  {
    BlockUnitsFit(Contents(b), layout);
    CheckEach(b, BlockUnits(layout));
  }

  // ---------------------------------------------------------------- _complete

  /** The board holds g with the cells of the first n steps of the walk
      collapsed. */
  ghost predicate CollapsedBelow(b: array2<Cell>, g: Grid, n: nat)
    reads b
    requires Fits(b, g)
  {
    forall i, j :: 0 <= i < b.Length0 && 0 <= j < b.Length1 ==>
      b[i, j] == if i < 9 && j < 9 && 9 * i + j < n then Collapse(g[i][j]) else g[i][j]
  }

  lemma CollapsedContents(b: array2<Cell>, g: Grid, n: nat)
    requires Fits(b, g)
    requires CollapsedBelow(b, g, n)
    ensures Contents(b) == CollapseBelow(g, n)
  {
    forall i | 0 <= i < b.Length0 ensures Contents(b)[i] == CollapseBelow(g, n)[i] {
    }
  }

  /** The walk does not stop in its first n steps. */
  ghost predicate NoStopBelow(g: Grid, n: nat)
    requires IsRect(g)
  {
    forall t :: 0 <= t < n ==> !Stops(g, t)
  }

  /** The walk stops first at n when it does not stop before n and stops at n
      (or n is the end). */
  lemma {:induction false} FirstStopIs(g: Grid, k: nat, n: nat)
    requires IsRect(g) && k <= n <= 81
    requires forall t :: k <= t < n ==> !Stops(g, t)
    requires n < 81 ==> Stops(g, n)
    ensures FirstStop(g, k) == n
    decreases n - k
  {
    if k < n {
      FirstStopIs(g, k + 1, n);
    }
  }

  /** Step 9i + j of the walk is row i, column j. */
  lemma StopsAt(g: Grid, i: nat, j: nat)
    requires IsRect(g) && j < 9
    ensures Stops(g, 9 * i + j) <==> i >= |g| || j >= Width(g) || g[i][j] == Open([])
  {
    assert (9 * i + j) / 9 == i && (9 * i + j) % 9 == j;
  }

  lemma NoStopExtend(g: Grid, n: nat)
    requires IsRect(g) && NoStopBelow(g, n) && !Stops(g, n)
    ensures NoStopBelow(g, n + 1)
  {
  }

  /** When the walk first stops at row i, column j, `_complete` raises
      IndexError for a missing row or column and UnsolvableSudoku otherwise. */
  lemma CompleteRaisesAt(g: Grid, i: nat, j: nat)
    requires IsRect(g) && i < 9 && j < 9
    requires NoStopBelow(g, 9 * i + j)
    requires i >= |g| || j >= Width(g) || g[i][j] == Open([])
    ensures CompleteSpec(g) == Run(CollapseBelow(g, 9 * i + j),
      if i >= |g| || j >= Width(g) then Raised(IndexError) else Raised(UnsolvableSudoku))
  {
    StopsAt(g, i, j);
    FirstStopIs(g, 0, 9 * i + j);
    assert (9 * i + j) / 9 == i && (9 * i + j) % 9 == j;
  }

  /** One cell of the walk of `_complete`: a one-element list becomes its
      value; an empty list is reported and left as it is. */
  method CompleteCell(b: array2<Cell>, ghost g: Grid, i: nat, j: nat) returns (empty: bool)
    requires Fits(b, g)
    requires i < 9 && j < 9 && i < b.Length0 && j < b.Length1
    requires CollapsedBelow(b, g, 9 * i + j)
    modifies b
    ensures empty <==> g[i][j] == Open([])
    ensures empty ==> unchanged(b)
    ensures !empty ==> CollapsedBelow(b, g, 9 * i + j + 1)
  {
    var element := b[i, j];
    if element.Open? {
      if |element.cands| == 1 {
        b[i, j] := Fixed(element.cands[0]);
      } else if |element.cands| == 0 {
        return true;
      }
    }
    return false;
  }

  /** Step 9i + j of the walk of `_complete`, on a board that holds g with
      the steps before it done: either the step is done, or the walk raises
      and the board is what `_complete` leaves behind. */
  method CompleteStep(b: array2<Cell>, ghost g: Grid, i: nat, j: nat) returns (raised: Option<Error>)
    requires Fits(b, g)
    requires i < 9 && j < 9 && CollapsedBelow(b, g, 9 * i + j)
    requires NoStopBelow(g, 9 * i + j)
    modifies b
    ensures raised.None? ==> CollapsedBelow(b, g, 9 * i + j + 1) && NoStopBelow(g, 9 * i + j + 1)
    ensures raised.Some? ==> Run(Contents(b), Raised(raised.value)) == CompleteSpec(g)
  {
    ghost var n := 9 * i + j;
    StopsAt(g, i, j);
    if i >= b.Length0 || j >= b.Length1 {
      CompleteRaisesAt(g, i, j);
      CollapsedContents(b, g, n);
      return Some(IndexError);
    }
    var empty := CompleteCell(b, g, i, j);
    if empty {
      CompleteRaisesAt(g, i, j);
      CollapsedContents(b, g, n);
      return Some(UnsolvableSudoku);
    }
    NoStopExtend(g, n);
    return None;
  }

  /** Row i of the walk of `_complete`, on a board that holds g with the
      first 9i steps done: either the row is done, or the walk raises and the
      board is what `_complete` leaves behind. */
  method CompleteRow(b: array2<Cell>, ghost g: Grid, i: nat) returns (raised: Option<Error>)
    requires Fits(b, g)
    requires i < 9 && CollapsedBelow(b, g, 9 * i)
    requires NoStopBelow(g, 9 * i)
    modifies b
    ensures raised.None? ==> CollapsedBelow(b, g, 9 * i + 9) && NoStopBelow(g, 9 * i + 9)
    ensures raised.Some? ==> Run(Contents(b), Raised(raised.value)) == CompleteSpec(g)
  {
    var j := 0;
    while j < 9
      invariant 0 <= j <= 9
      invariant NoStopBelow(g, 9 * i + j)
      invariant CollapsedBelow(b, g, 9 * i + j)
    {
      raised := CompleteStep(b, g, i, j);
      if raised.Some? {
        return;
      }
      j := j + 1;
    }
    return None;
  }

  /** `_complete(sudoku)` in place: the walk over rows and columns 0..8, a
      one-element list replaced by its value, a missing row or column raising
      IndexError and an empty list raising UnsolvableSudoku. */
  method Complete(b: array2<Cell>) returns (st: Status)
    modifies b
    ensures Run(Contents(b), st) == CompleteSpec(old(Contents(b)))
  {
    ghost var g := Contents(b);
    var i := 0;
    while i < 9
      invariant 0 <= i <= 9
      invariant NoStopBelow(g, 9 * i)
      invariant CollapsedBelow(b, g, 9 * i)
    {
      var raised := CompleteRow(b, g, i);
      if raised.Some? {
        return Raised(raised.value);
      }
      i := i + 1;
    }
    FirstStopIs(g, 0, 81);
    CollapsedContents(b, g, 81);
    return Ok;
  }

  // ---------------------------------------------------------------- base_routine

  /** One round of `base_routine` (lines 112-118): the six passes, then
      `_complete`. */
  method Round(b: array2<Cell>, layout: Layout) returns (st: Status)
    requires b.Length0 == 9 && b.Length1 == 9
    modifies b
    ensures Run(Contents(b), st) == PassSpec(old(Contents(b)), layout)
  {
    ghost var g := Contents(b);
    FilterRows(b);
    FilterCols(b);
    FilterBlocks(b, layout);
    CheckRows(b);
    CheckCols(b);
    CheckBlocks(b, layout);
    assert Contents(b) == Propagate(g, layout);
    st := Complete(b);
  }

  /** `base_routine(sudoku)` in place: `_check_equal` holds the copy taken at
      the start of each round, and the loop ends when a round leaves the board
      equal to it; an exception from `_complete` ends it early. */
  method BaseRoutine(b: array2<Cell>, layout: Layout) returns (st: Status)
    requires b.Length0 == 9 && b.Length1 == 9
    modifies b
    ensures Run(Contents(b), st) == BaseRoutineSpec(old(Contents(b)), layout)
  {
    ghost var result := BaseRoutineSpec(Contents(b), layout);
    var checkEqual: Option<Grid> := None;
    while checkEqual != Some(Contents(b))
      invariant checkEqual.None? ==> BaseRoutineSpec(Contents(b), layout) == result
      invariant checkEqual.Some? ==>
        Is9x9(checkEqual.value) &&
        PassSpec(checkEqual.value, layout) == Run(Contents(b), Ok) &&
        BaseRoutineSpec(checkEqual.value, layout) == result
      decreases if checkEqual.None? then Potential(Contents(b)) + 1 else Potential(checkEqual.value)
    {
      if checkEqual.Some? {
        BaseRoutineStep(checkEqual.value, layout);
      }
      checkEqual := Some(Contents(b));
      st := Round(b, layout);
      if st.Raised? {
        BaseRoutineRaisedRound(checkEqual.value, layout);
        return;
      }
    }
    BaseRoutineStableRound(Contents(b), layout);
    return Ok;
  }

  // ---------------------------------------------------------------- _solve and solve

  /** `_solve(sudoku)` as written: `base_routine`, then, if the board is not
      solved, the guesses of `yield_possibility`; the `raise` after that loop
      is reached whether or not a guess came back, so only a board that
      `base_routine` solves by itself is returned, and it is the argument. */
  method SolveAsWritten(b: array2<Cell>) returns (r: Outcome)
    requires b.Length0 == 9 && b.Length1 == 9
    modifies b
    ensures Contents(b) == BaseRoutineSpec(old(Contents(b)), AsWritten).grid
    ensures r.Solved? <==> SolvesAsWritten(old(Contents(b)), AsWritten)
    ensures r.Solved? ==> r.board == b
    ensures r.Failed? ==> r.error == UnsolvableSudoku
    decreases Potential(Contents(b)), 1
  {
    ghost var g := Contents(b);
    var st := BaseRoutine(b, AsWritten);
    if st.Raised? {
      BaseRoutineRaises(g, AsWritten);
      return Failed(st.error);
    }
    if IsSolved(Contents(b)) {
      return Solved(b);
    }
    BaseRoutineNarrows(g, AsWritten);
    PotentialNarrows(Contents(b), g);
    TryGuessesAsWritten(b);
    return Failed(UnsolvableSudoku);
  }

  /** Lines 131-136 of `_solve`: each copy from `yield_possibility` is solved
      in turn, an `UnsolvableSudoku` from it passed over, and the loop left at
      the first copy that comes back; the board itself is not changed. */
  method TryGuessesAsWritten(b: array2<Cell>)
    requires b.Length0 == 9 && b.Length1 == 9 && !IsSolved(Contents(b))
    decreases Potential(Contents(b)), 0
  {
    ghost var h := Contents(b);
    UnsolvedHasOpen(h);
    var i, boards := YieldPossibility(b);
    ghost var guesses := Guesses(h, i / 9, i % 9);
    GuessesSmaller(h, i / 9, i % 9);
    var k := 0;
    while k < |boards|
      invariant 0 <= k <= |boards|
      invariant forall l :: k <= l < |boards| ==> Contents(boards[l]) == guesses[l]
    {
      var cameBack := TryGuessAsWritten(boards[k]);
      if cameBack {
        break;
      }
      k := k + 1;
    }
  }

  /** `try: sudoku = SudokuSolver._solve(_sudoku)` with its
      `except UnsolvableSudoku: pass`: whether the call came back normally. */
  method TryGuessAsWritten(c: array2<Cell>) returns (cameBack: bool)
    requires c.Length0 == 9 && c.Length1 == 9
    modifies c
    ensures cameBack ==> IsSolved(Contents(c))
    decreases Potential(Contents(c)), 2
  {
    var sub := SolveAsWritten(c);
    cameBack := sub.Solved?;
  }

  /** `_solve(sudoku)` as its structure intends: `base_routine`, then, if the
      board is not solved, the first guess whose own `_solve` comes back is the
      answer, and `UnsolvableSudoku` is raised only when every guess fails. */
  method SolveIntended(b: array2<Cell>, layout: Layout) returns (r: Outcome)
    requires b.Length0 == 9 && b.Length1 == 9
    modifies b
    ensures Contents(b) == BaseRoutineSpec(old(Contents(b)), layout).grid
    ensures r.Failed? ==> r.error == UnsolvableSudoku
    ensures r.Solved? <==> SearchIntended(old(Contents(b)), layout).Some?
    ensures r.Solved? ==> r.board.Length0 == 9 && r.board.Length1 == 9 && (r.board == b || fresh(r.board))
    ensures r.Solved? ==> Contents(r.board) == SearchIntended(old(Contents(b)), layout).value
    ensures SolvesAsWritten(old(Contents(b)), layout) ==> r == Solved(b)
    decreases Potential(Contents(b)), 3
  {
    ghost var g := Contents(b);
    SearchIntendedCases(g, layout);
    var st := BaseRoutine(b, layout);
    if st.Raised? {
      BaseRoutineRaises(g, layout);
      return Failed(st.error);
    }
    BaseRoutineNarrows(g, layout);
    if IsSolved(Contents(b)) {
      return Solved(b);
    }
    PotentialNarrows(Contents(b), g);
    ghost var gs, outs := GuessSearchParts(Contents(b), layout);
    r := TryGuessesIntended(b, layout, gs, outs);
  }

  /** `for _sudoku in yield_possibility(sudoku)` with the first solved board
      returned, and `UnsolvableSudoku` raised when no board is solved; the
      board itself is not changed. */
  method TryGuessesIntended(b: array2<Cell>, layout: Layout, ghost gs: seq<Grid>, ghost outs: seq<Option<Grid>>)
    returns (r: Outcome)
    requires b.Length0 == 9 && b.Length1 == 9 && !IsSolved(Contents(b)) && gs == NextGuesses(Contents(b))
    requires forall l :: 0 <= l < |gs| ==> Is9x9(gs[l]) && Potential(gs[l]) < Potential(Contents(b))
    requires OutcomesOf(gs, outs, layout)
    ensures r.Failed? ==> r.error == UnsolvableSudoku
    ensures r.Solved? <==> FirstSome(outs).Some?
    ensures r.Solved? ==> r.board.Length0 == 9 && r.board.Length1 == 9 && fresh(r.board)
    ensures r.Solved? ==> Contents(r.board) == FirstSome(outs).value
    decreases Potential(Contents(b)), 2
  {
    ghost var h := Contents(b);
    UnsolvedHasOpen(h);
    var i, boards := YieldPossibility(b);
    NextGuessesAt(h, i);
    r := TryEachGuess(boards, h, gs, outs, layout);
  }

  /** The `for` loop itself, over fresh 9x9 boards holding the guesses in order:
      the first board whose `_solve` comes back gives the result. */
  method TryEachGuess(boards: seq<array2<Cell>>, ghost h: Grid, ghost gs: seq<Grid>, ghost outs: seq<Option<Grid>>,
                      layout: Layout) returns (r: Outcome)
    requires |boards| == |gs| && forall k, l :: 0 <= k < l < |boards| ==> boards[k] != boards[l]
    requires forall l :: 0 <= l < |boards| ==>
      boards[l].Length0 == 9 && boards[l].Length1 == 9 && Contents(boards[l]) == gs[l]
    requires forall l :: 0 <= l < |gs| ==> Is9x9(gs[l]) && Potential(gs[l]) < Potential(h)
    requires OutcomesOf(gs, outs, layout)
    modifies set l | 0 <= l < |boards| :: boards[l]
    ensures r.Failed? ==> r.error == UnsolvableSudoku
    ensures r.Solved? <==> FirstSome(outs).Some?
    ensures r.Solved? ==> r.board.Length0 == 9 && r.board.Length1 == 9 && (r.board in boards || fresh(r.board))
    ensures r.Solved? ==> Contents(r.board) == FirstSome(outs).value
    decreases Potential(h), 1
  {
    var k := 0;
    while k < |boards|
      invariant 0 <= k <= |boards| == |outs|
      invariant forall l :: k <= l < |boards| ==> Contents(boards[l]) == gs[l]
      invariant forall l :: 0 <= l < k ==> outs[l].None?
    {
      var sub := TryGuessNext(boards[k], h, gs, outs, k, layout);
      if sub.Solved? {
        FirstSomeAt(outs, k);
        return sub;
      }
      k := k + 1;
    }
    return Failed(UnsolvableSudoku);
  }

  /** One turn of that loop: `_solve` on the board holding guess k, whose
      search gives outs[k]. */
  method TryGuessNext(c: array2<Cell>, ghost h: Grid, ghost gs: seq<Grid>, ghost outs: seq<Option<Grid>>, k: nat,
                      layout: Layout) returns (sub: Outcome)
    requires k < |gs| == |outs| && forall l :: 0 <= l < |gs| ==> Is9x9(gs[l]) && Potential(gs[l]) < Potential(h)
    requires OutcomesOf(gs, outs, layout)
    requires c.Length0 == 9 && c.Length1 == 9 && Contents(c) == gs[k]
    modifies c
    ensures sub.Failed? ==> sub.error == UnsolvableSudoku && outs[k].None?
    ensures sub.Solved? ==> outs[k].Some? && Contents(sub.board) == outs[k].value
    ensures sub.Solved? ==> sub.board.Length0 == 9 && sub.board.Length1 == 9 && (sub.board == c || fresh(sub.board))
    decreases Potential(h), 0
  {
    assert outs[k] == SearchIntended(gs[k], layout);
    sub := TryGuessIntended(c, layout);
  }

  /** `try: return SudokuSolver._solve(_sudoku)` with its
      `except UnsolvableSudoku: pass`. */
  method TryGuessIntended(c: array2<Cell>, layout: Layout) returns (r: Outcome)
    requires c.Length0 == 9 && c.Length1 == 9
    modifies c
    ensures r.Failed? ==> r.error == UnsolvableSudoku
    ensures r.Solved? <==> SearchIntended(old(Contents(c)), layout).Some?
    ensures r.Solved? ==> r.board.Length0 == 9 && r.board.Length1 == 9 && (r.board == c || fresh(r.board))
    ensures r.Solved? ==> Contents(r.board) == SearchIntended(old(Contents(c)), layout).value
    decreases Potential(Contents(c)), 4
  {
    r := SolveIntended(c, layout);
  }

  /** The board `_tolists` gives, held in a fresh array. */
  method NewBoard(g: Grid) returns (b: array2<Cell>)
    requires Is9x9(g)
    ensures fresh(b) && b.Length0 == 9 && b.Length1 == 9 && Contents(b) == g
  {
    b := new Cell[9, 9]((i, j) requires 0 <= i < 9 && 0 <= j < 9 => g[i][j]);
    forall i | 0 <= i < 9 ensures Contents(b)[i] == g[i] {
    }
  }

  /** `SudokuSolver().solve(sudoku)`: the format check, `_tolists`, then
      `_solve` as written. */
  method Solve(input: seq<seq<PyValue>>) returns (r: Outcome)
    ensures AssertCorrectFormat(input).Some? ==> r == Failed(IncorrectSudokuFormat(AssertCorrectFormat(input).value))
    ensures AssertCorrectFormat(input).None? ==>
      Is9x9(ToLists(input)) &&
      (r.Solved? <==> SolvesAsWritten(ToLists(input), AsWritten)) &&
      (r.Solved? ==> fresh(r.board) && Contents(r.board) == BaseRoutineSpec(ToLists(input), AsWritten).grid) &&
      (r.Failed? ==> r.error == UnsolvableSudoku)
  {
    var reason := AssertCorrectFormat(input);
    if reason.Some? {
      return Failed(IncorrectSudokuFormat(reason.value));
    }
    ToListsMeaning(input);
    var b := NewBoard(ToLists(input));
    r := SolveAsWritten(b);
  }

  /** `solve` with both corrections: blocks taken as the nine 3x3 squares and
      the search returning the first guess that succeeds. A solution keeps
      every given and fills every None with a digit 1..9. */
  method SolveCorrected(input: seq<seq<PyValue>>) returns (r: Outcome)
    ensures AssertCorrectFormat(input).Some? ==> r == Failed(IncorrectSudokuFormat(AssertCorrectFormat(input).value))
    ensures AssertCorrectFormat(input).None? ==>
      Is9x9(ToLists(input)) &&
      (r.Solved? <==> SearchIntended(ToLists(input), Intended).Some?) &&
      (r.Solved? ==> Contents(r.board) == SearchIntended(ToLists(input), Intended).value) &&
      (r.Failed? ==> r.error == UnsolvableSudoku)
    ensures r.Solved? ==> fresh(r.board) && r.board.Length0 == 9 && r.board.Length1 == 9 && IsSolved(Contents(r.board))
    ensures r.Solved? ==> forall i, j :: 0 <= i < 9 && 0 <= j < 9 ==>
      (input[i][j].PyInt? ==> Contents(r.board)[i][j] == Fixed(input[i][j].i)) &&
      (input[i][j].PyNone? ==> Contents(r.board)[i][j].Fixed? && 1 <= Contents(r.board)[i][j].v <= 9)
  {
    var reason := AssertCorrectFormat(input);
    if reason.Some? {
      return Failed(IncorrectSudokuFormat(reason.value));
    }
    ToListsMeaning(input);
    var b := NewBoard(ToLists(input));
    r := SolveIntended(b, Intended);
    if r.Solved? {
      SearchIntendedSound(ToLists(input), Intended);
      SolutionKeepsGivens(input, Contents(r.board));
    }
  }
}
