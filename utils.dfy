/** The helpers of sudokusolver/utils.py: the input-format check, `first`,
    `flatten`, and the branching step of the search, `yield_possibility`. */
module Utils {
  import opened Board

  /** A Python value as it may appear in the solver's input. */
  datatype PyValue = PyInt(i: int) | PyNone | PyOther

  /** The shape `assert_correct_format` accepts: 9 rows of 9 elements, each an
      int (any int) or None. */
  predicate CorrectFormat(g: seq<seq<PyValue>>)
  {
    |g| == 9 &&
    (forall r :: 0 <= r < |g| ==> |g[r]| == 9) &&
    (forall r, c :: 0 <= r < |g| && 0 <= c < |g[r]| ==> g[r][c] != PyOther)
  }

  /** Some element of the row is neither an int nor None. */
  predicate RowHasOther(row: seq<PyValue>)
  {
    exists c :: 0 <= c < |row| && row[c] == PyOther
  }

  /** The per-row part of `assert_correct_format`: rows are checked in order,
      first the length of a row, then its elements. */
  function RowsFormatReason(g: seq<seq<PyValue>>): (r: Option<FormatReason>)
    ensures r.None? <==> (forall k :: 0 <= k < |g| ==> |g[k]| == 9 && !RowHasOther(g[k]))
    ensures r != Some(RowCount)
  {
    if g == [] then None
    else if |g[0]| != 9 then Some(RowLength)
    else if RowHasOther(g[0]) then Some(ElementType)
    else
      var rest := RowsFormatReason(g[1..]);
      assert forall k :: 1 <= k < |g| ==> g[k] == g[1..][k - 1];
      rest
  }

  /** `assert_correct_format`: None when the input is accepted, otherwise the
      reason it is rejected. The row count is checked before anything else. */
  function AssertCorrectFormat(g: seq<seq<PyValue>>): (r: Option<FormatReason>)
    ensures r.None? <==> CorrectFormat(g)
    ensures r == Some(RowCount) <==> |g| != 9
  {
    if |g| != 9 then Some(RowCount) else RowsFormatReason(g)
  }

  /** Any int is accepted, including 0 and 10: the check is a type check only. */
  lemma AnyIntAccepted(g: seq<seq<PyValue>>, r: nat, c: nat, x: int)
    requires CorrectFormat(g) && r < 9 && c < 9
    ensures AssertCorrectFormat(g[r := g[r][c := PyInt(x)]]).None?
  {
    var h := g[r := g[r][c := PyInt(x)]];
    assert forall k, l :: 0 <= k < |h| && 0 <= l < |h[k]| ==> h[k][l] != PyOther by {
      forall k, l | 0 <= k < |h| && 0 <= l < |h[k]|
        ensures h[k][l] != PyOther
      {
        if k != r || l != c {
          assert h[k][l] == g[k][l];
        }
      }
    }
  }

  /** `first(iterable, condition)`: the earliest element satisfying the
      condition; None stands for the `StopIteration` raised when there is none. */
  function First<T>(s: seq<T>, cond: T -> bool): (r: Option<T>)
    ensures r.None? <==> forall k :: 0 <= k < |s| ==> !cond(s[k])
    ensures r.Some? ==> exists k :: 0 <= k < |s| && s[k] == r.value && cond(s[k]) &&
                                  forall l :: 0 <= l < k ==> !cond(s[l])
  {
    if s == [] then None
    else if cond(s[0]) then Some(s[0])
    else
      var r := First(s[1..], cond);
      assert forall k :: 1 <= k < |s| ==> s[k] == s[1..][k - 1];
      if r.Some? then
        ghost var k :| 0 <= k < |s[1..]| && s[1..][k] == r.value && cond(s[1..][k]) &&
                       forall l :: 0 <= l < k ==> !cond(s[1..][l]);
        assert s[k + 1] == r.value;
        r
      else r
  }

  /** `flatten(ls)`: the sublists concatenated in order. */
  function Flatten<T>(ls: seq<seq<T>>): seq<T>
  {
    if ls == [] then [] else ls[0] + Flatten(ls[1..])
  }

  /** Total length of the sublists. */
  function SumLengths<T>(ls: seq<seq<T>>): nat
  {
    if ls == [] then 0 else |ls[0]| + SumLengths(ls[1..])
  }

  lemma {:induction false} FlattenLength<T>(ls: seq<seq<T>>)
    ensures |Flatten(ls)| == SumLengths(ls)
  {
    if ls != [] {
      FlattenLength(ls[1..]);
    }
  }

  lemma {:induction false} FlattenAppend<T>(a: seq<seq<T>>, b: seq<seq<T>>)
    ensures Flatten(a + b) == Flatten(a) + Flatten(b)
  {
    if a != [] {
      assert (a + b)[0] == a[0] && (a + b)[1..] == a[1..] + b;
      FlattenAppend(a[1..], b);
    } else {
      assert a + b == b;
    }
  }

  lemma {:induction false} FlattenLength9<T>(ls: seq<seq<T>>)
    requires forall k :: 0 <= k < |ls| ==> |ls[k]| == 9
    ensures |Flatten(ls)| == 9 * |ls|
  {
    if ls != [] {
      FlattenLength9(ls[1..]);
    }
  }

  /** With rows of nine elements, flat index 9r + c is row r, column c: the
      `i // 9`, `i % 9` of `yield_possibility`. */
  lemma {:induction false} FlattenRows9<T>(ls: seq<seq<T>>, r: nat, c: nat)
    requires forall k :: 0 <= k < |ls| ==> |ls[k]| == 9
    requires r < |ls| && c < 9
    ensures |Flatten(ls)| == 9 * |ls|
    ensures Flatten(ls)[9 * r + c] == ls[r][c]
  {
    FlattenLength9(ls);
    if r > 0 {
      FlattenRows9(ls[1..], r - 1, c);
    }
  }

  /** Flat index k of a 9x9 grid is the cell (k / 9, k % 9). */
  lemma FlatIndex<T>(g: seq<seq<T>>, k: nat)
    requires |g| == 9 && (forall r :: 0 <= r < 9 ==> |g[r]| == 9) && k < 81
    ensures |Flatten(g)| == 81 && Flatten(g)[k] == g[k / 9][k % 9]
  {
    var r, c := k / 9, k % 9;
    assert 9 * r + c == k;
    FlattenRows9(g, r, c);
  }

  /** `_sudoku = copy.deepcopy(sudoku)` followed by `_sudoku[r][c] = x`. */
  method CopyWith(b: array2<Cell>, r: nat, c: nat, x: Cell) returns (copy: array2<Cell>)
    requires r < b.Length0 && c < b.Length1
    ensures fresh(copy) && copy.Length0 == b.Length0 && copy.Length1 == b.Length1
    ensures Contents(copy) == SetCell(Contents(b), r, c, x)
  {
    copy := new Cell[b.Length0, b.Length1]((i, j) requires 0 <= i < b.Length0 && 0 <= j < b.Length1 reads b => b[i, j]);
    copy[r, c] := x;
    ghost var g := Contents(b);
    forall i | 0 <= i < b.Length0
      ensures Contents(copy)[i] == SetCell(g, r, c, x)[i]
    {
      forall j | 0 <= j < b.Length1
        ensures Contents(copy)[i][j] == SetCell(g, r, c, x)[i][j]
      {
      }
    }
  }

  /** Flat index t of a 9x9 grid (row t // 9, column t % 9) holds a list. */
  predicate OpenAt(g: Grid, t: nat)
    requires Is9x9(g) && t < 81
  {
    g[t / 9][t % 9].Open?
  }

  /** The first flat index from k on whose cell holds a list: where the
      `for i, item in enumerate(flattened)` loop of `yield_possibility` breaks
      when it starts at k. */
  function FirstOpen(g: Grid, k: nat): (i: nat)
    requires Is9x9(g) && k < 81 && exists t :: k <= t < 81 && OpenAt(g, t)
    ensures k <= i < 81 && OpenAt(g, i)
    ensures forall t :: k <= t < i ==> !OpenAt(g, t)
    decreases 81 - k
  {
    if OpenAt(g, k) then k else FirstOpen(g, k + 1)
  }

  /** An open index with nothing open before it is the first one. */
  lemma FirstOpenIs(g: Grid, i: nat)
    requires Is9x9(g) && i < 81 && OpenAt(g, i)
    requires forall t :: 0 <= t < i ==> !OpenAt(g, t)
    ensures FirstOpen(g, 0) == i
  {
  }

  /** The first open element of the flattened board is the first open cell. */
  lemma FlatFirstOpen(g: Grid, i: nat)
    requires Is9x9(g) && i < 81 && |Flatten(g)| == 81
    requires Flatten(g)[i].Open? && forall k :: 0 <= k < i ==> Flatten(g)[k].Fixed?
    ensures OpenAt(g, i) && i == FirstOpen(g, 0)
  {
    forall k | 0 <= k <= i
      ensures Flatten(g)[k] == g[k / 9][k % 9]
    {
      FlatIndex(g, k);
    }
    FirstOpenIs(g, i);
  }

  /** The boards `yield_possibility` makes for the cell at row r, column c:
      one per candidate, in list order, with the cell set to it. */
  function Guesses(g: Grid, r: nat, c: nat): (gs: seq<Grid>)
    requires r < |g| && c < |g[r]| && g[r][c].Open?
    ensures |gs| == |g[r][c].cands|
  {
    seq(|g[r][c].cands|, l requires 0 <= l < |g[r][c].cands| => SetCell(g, r, c, Fixed(g[r][c].cands[l])))
  }

  /** The loop of `yield_possibility` over `possibilities`: one deep copy of
      the board per candidate of the cell at row r, column c, with the cell set
      to that candidate. */
  method MakeGuesses(b: array2<Cell>, r: nat, c: nat) returns (boards: seq<array2<Cell>>)
    requires r < b.Length0 && c < b.Length1 && b[r, c].Open?
    ensures |boards| == |b[r, c].cands|
    ensures forall k :: 0 <= k < |boards| ==> fresh(boards[k])
    ensures forall k, l :: 0 <= k < l < |boards| ==> boards[k] != boards[l]
    ensures forall k :: 0 <= k < |boards| ==> boards[k].Length0 == b.Length0 && boards[k].Length1 == b.Length1
    ensures forall k :: 0 <= k < |boards| ==> Contents(boards[k]) == Guesses(Contents(b), r, c)[k]
  {
    ghost var g := Contents(b);
    var possibilities := b[r, c].cands;
    boards := [];
    var j := 0;
    while j < |possibilities|
      invariant j <= |possibilities| && |boards| == j
      invariant forall k :: 0 <= k < j ==> fresh(boards[k])
      invariant forall k, l :: 0 <= k < l < j ==> boards[k] != boards[l]
      invariant forall k :: 0 <= k < j ==> boards[k].Length0 == b.Length0 && boards[k].Length1 == b.Length1
      invariant forall k :: 0 <= k < j ==> Contents(boards[k]) == Guesses(g, r, c)[k]
    {
      var copy := CopyWith(b, r, c, Fixed(possibilities[j]));
      ghost var before := boards;
      boards := boards + [copy];
      assert boards[j] == copy && forall k :: 0 <= k < j ==> boards[k] == before[k];
      j := j + 1;
    }
  }

  /** The search at the head of `yield_possibility`: walk the flattened board
      to its first list, whose flat index i gives row i / 9 and column i % 9. */
  method FindOpen(b: array2<Cell>) returns (i: nat)
    requires b.Length0 == 9 && b.Length1 == 9
    requires exists t :: 0 <= t < 81 && OpenAt(Contents(b), t)
    ensures Is9x9(Contents(b)) && i < 81 && OpenAt(Contents(b), i) && i == FirstOpen(Contents(b), 0)
  {
    ghost var g := Contents(b);
    var flattened := Flatten(Contents(b));
    ghost var t0 :| 0 <= t0 < 81 && OpenAt(g, t0);
    FlatIndex(g, t0);
    assert flattened[t0].Open?;
    i := 0;
    while !flattened[i].Open?
      invariant i < 81 && |flattened| == 81
      invariant forall k :: 0 <= k < i ==> flattened[k].Fixed?
      invariant exists k :: i <= k < 81 && flattened[k].Open?
      decreases 81 - i
    {
      i := i + 1;
    }
    FlatFirstOpen(g, i);
  }

  /** `yield_possibility`: find the first open cell in row-major order (flat
      index i) and make, for each of its candidates in list order, a deep copy of
      the board with that cell set to the candidate. The board itself is not
      changed. The source needs an open cell to exist: otherwise its local
      `possibilities` is never bound. */
  method YieldPossibility(b: array2<Cell>) returns (i: nat, boards: seq<array2<Cell>>)
    requires b.Length0 == 9 && b.Length1 == 9
    requires exists t :: 0 <= t < 81 && OpenAt(Contents(b), t)
    ensures i < 81 && b[i / 9, i % 9].Open?
    ensures Is9x9(Contents(b)) && OpenAt(Contents(b), i) && i == FirstOpen(Contents(b), 0)
    ensures |boards| == |b[i / 9, i % 9].cands|
    ensures forall k :: 0 <= k < |boards| ==> fresh(boards[k])
    ensures forall k, l :: 0 <= k < l < |boards| ==> boards[k] != boards[l]
    ensures forall k :: 0 <= k < |boards| ==> boards[k].Length0 == 9 && boards[k].Length1 == 9
    ensures forall k :: 0 <= k < |boards| ==> Contents(boards[k]) == Guesses(Contents(b), i / 9, i % 9)[k]
  {
    i := FindOpen(b);
    assert Contents(b)[i / 9][i % 9] == b[i / 9, i % 9];
    boards := MakeGuesses(b, i / 9, i % 9);
  }
}
