/** The two per-unit rules of the propagator, as functions of the unit's cells:
    `_filter` (elimination, sudokusolver/sudokusolver.py:43-52) and `_check`
    (hidden single, sudokusolver/sudokusolver.py:73-82). A unit is any list of
    cells: a row, a column tuple of `zip(*sudoku)`, or a block. */
module Units {
  import opened Board
  import opened Utils

  /** No value occurs twice in the list. */
  predicate NoDup(s: seq<int>)
  {
    forall i, j :: 0 <= i < j < |s| ==> s[i] != s[j]
  }

  /** Every candidate list of the unit is free of repeats (true of the lists
      `_tolists` makes, and kept by both rules). */
  predicate AllNoDup(u: seq<Cell>)
  {
    forall k :: 0 <= k < |u| && u[k].Open? ==> NoDup(u[k].cands)
  }

  // ================================================================ _filter

  /** `ints = [a for a in ls if isinstance(a, int)]`, in unit order, repeats kept. */
  function IntsOf(u: seq<Cell>): (r: seq<int>)
    ensures forall x :: x in r <==> exists k :: 0 <= k < |u| && u[k] == Fixed(x)
  {
    if u == [] then []
    else
      var rest := IntsOf(u[1..]);
      assert forall k :: 1 <= k < |u| ==> u[k] == u[1..][k - 1];
      (if u[0].Fixed? then [u[0].v] else []) + rest
  }

  /** `element.remove(x)`: drop the FIRST occurrence of x; the `ValueError`
      raised when x is absent is caught and ignored, leaving the list as it was. */
  function RemoveFirst(cs: seq<int>, x: int): (r: seq<int>)
    ensures x !in cs ==> r == cs
    ensures x in cs ==> |r| == |cs| - 1 && multiset(r) == multiset(cs) - multiset{x}
  {
    if cs == [] then []
    else if cs[0] == x then
      assert cs == [cs[0]] + cs[1..];
      cs[1..]
    else
      var rest := RemoveFirst(cs[1..], x);
      assert cs == [cs[0]] + cs[1..];
      [cs[0]] + rest
  }

  /** `for _int in ints: element.remove(_int)`, in the order of `ints`. */
  function RemoveEach(cs: seq<int>, ints: seq<int>): (r: seq<int>)
    ensures multiset(r) <= multiset(cs)
    ensures r == cs || |r| < |cs|
  {
    if ints == [] then cs
    else RemoveFirst(RemoveEach(cs, ints[..|ints| - 1]), ints[|ints| - 1])
  }

  /** What `_filter` does to one cell of a unit whose int cells are `ints`. */
  function FilterCell(c: Cell, ints: seq<int>): Cell
  {
    match c
    case Fixed(_) => c
    case Open(cs) => Open(RemoveEach(cs, ints))
  }

  /** `_filter(ls)`: the unit's cells afterwards, position by position. */
  function FilterUnit(u: seq<Cell>): (r: seq<Cell>)
    ensures |r| == |u|
  {
    seq(|u|, k requires 0 <= k < |u| => FilterCell(u[k], IntsOf(u)))
  }

  /** The elements of cs that are not in ints, in their order in cs: the
      reference meaning of elimination. */
  function Keep(cs: seq<int>, ints: seq<int>): (r: seq<int>)
    ensures forall y :: y in r <==> y in cs && y !in ints
    ensures |r| <= |cs|
  {
    if cs == [] then []
    else
      var rest := Keep(cs[1..], ints);
      assert forall y :: y in cs <==> y == cs[0] || y in cs[1..];
      (if cs[0] in ints then [] else [cs[0]]) + rest
  }

  lemma {:induction false} KeepNoDup(cs: seq<int>, ints: seq<int>)
    requires NoDup(cs)
    ensures NoDup(Keep(cs, ints))
  {
    if cs != [] {
      KeepNoDup(cs[1..], ints);
      assert cs[0] !in cs[1..] by {
        assert forall j :: 0 < j < |cs| ==> cs[j] == cs[1..][j - 1];
      }
    }
  }

  lemma {:induction false} RemoveFirstKeep(cs: seq<int>, x: int)
    requires NoDup(cs)
    ensures RemoveFirst(cs, x) == Keep(cs, [x])
  {
    if cs != [] {
      assert cs[0] !in cs[1..] by {
        assert forall j :: 0 < j < |cs| ==> cs[j] == cs[1..][j - 1];
      }
      if cs[0] == x {
        assert Keep(cs[1..], [x]) == cs[1..] by { KeepAllOutside(cs[1..], [x]); }
      } else {
        RemoveFirstKeep(cs[1..], x);
      }
    }
  }

  /** Nothing of cs is in ints, so nothing is dropped. */
  lemma {:induction false} KeepAllOutside(cs: seq<int>, ints: seq<int>)
    requires forall y :: y in cs ==> y !in ints
    ensures Keep(cs, ints) == cs
  {
    if cs != [] {
      assert forall y :: y in cs[1..] ==> y in cs;
      KeepAllOutside(cs[1..], ints);
      var y := cs[0];
      assert y in cs;
      assert y !in ints;
      assert Keep(cs, ints) == [cs[0]] + Keep(cs[1..], ints);
      assert cs == [cs[0]] + cs[1..];
    }
  }

  lemma {:induction false} KeepTwice(cs: seq<int>, a: seq<int>, b: seq<int>)
    ensures Keep(Keep(cs, a), b) == Keep(cs, a + b)
  {
    if cs != [] {
      var x, tail := cs[0], cs[1..];
      KeepTwice(tail, a, b);
      var k1 := Keep(tail, a);
      assert Keep(cs, a + b) == (if x in a + b then [] else [x]) + Keep(tail, a + b);
      if x in a {
        assert x in a + b;
        assert Keep(cs, a) == k1;
      } else {
        assert Keep(cs, a) == [x] + k1;
        assert ([x] + k1)[0] == x && ([x] + k1)[1..] == k1;
        assert Keep([x] + k1, b) == (if x in b then [] else [x]) + Keep(k1, b);
        assert x in a + b <==> x in b;
      }
    }
  }

  /** On a list without repeats, removing each int once removes exactly the
      candidates equal to some int, keeping the order of the rest. */
  lemma {:induction false} RemoveEachKeep(cs: seq<int>, ints: seq<int>)
    requires NoDup(cs)
    ensures RemoveEach(cs, ints) == Keep(cs, ints)
  {
    if ints == [] {
      KeepAllOutside(cs, ints);
    } else {
      var front, x := ints[..|ints| - 1], ints[|ints| - 1];
      assert front + [x] == ints;
      KeepNoDup(cs, front);
      calc {
        RemoveEach(cs, ints);
        RemoveFirst(RemoveEach(cs, front), x);
        { RemoveEachKeep(cs, front); }
        RemoveFirst(Keep(cs, front), x);
        { RemoveFirstKeep(Keep(cs, front), x); }
        Keep(Keep(cs, front), [x]);
        { KeepTwice(cs, front, [x]); }
        Keep(cs, ints);
      }
    }
  }

  /** `_filter` on a unit whose lists have no repeats: every int cell is
      untouched, and every list keeps, in order, exactly its candidates that
      equal no int cell of the unit. */
  lemma FilterUnitMeaning(u: seq<Cell>)
    requires AllNoDup(u)
    ensures forall k :: 0 <= k < |u| ==>
      FilterUnit(u)[k] == if u[k].Open? then Open(Keep(u[k].cands, IntsOf(u))) else u[k]
  {
    forall k | 0 <= k < |u| && u[k].Open?
      ensures FilterUnit(u)[k] == Open(Keep(u[k].cands, IntsOf(u)))
    {
      RemoveEachKeep(u[k].cands, IntsOf(u));
    }
  }

  /** After `_filter` of a unit whose lists have no repeats, no list of the
      unit holds the value of an int cell of the unit (`FilterRepeatSurvives`
      shows why the lists must be free of repeats). */
  lemma FilterUnitEliminates(u: seq<Cell>)
    requires AllNoDup(u)
    ensures forall k, l :: 0 <= k < |u| && 0 <= l < |u| && FilterUnit(u)[k].Open? && u[l].Fixed? ==>
      u[l].v !in FilterUnit(u)[k].cands
  {
    FilterUnitMeaning(u);
  }

  /** `_filter` of an int v followed by a list removes v from the list once. */
  lemma FilterPair(v: int, cs: seq<int>)
    ensures FilterUnit([Fixed(v), Open(cs)]) == [Fixed(v), Open(RemoveFirst(cs, v))]
  {
    var u := [Fixed(v), Open(cs)];
    assert u[1..][1..] == [];
    assert IntsOf(u[1..]) == [];
    assert IntsOf(u) == [v];
    assert RemoveEach(cs, [v]) == RemoveFirst(cs, v) by {
      assert [v][..0] == [];
    }
  }

  /** With a repeated candidate, `list.remove` drops only its first copy: the
      value of an int cell survives in a list of its unit, and a second
      `_filter` removes it again. */
  lemma FilterRepeatSurvives(v: int)
    ensures FilterUnit([Fixed(v), Open([v, v])]) == [Fixed(v), Open([v])]
    ensures FilterUnit([Fixed(v), Open([v, v, v])]) == [Fixed(v), Open([v, v])]
    ensures FilterUnit(FilterUnit([Fixed(v), Open([v, v, v])])) == [Fixed(v), Open([v])]
  {
    FilterPair(v, [v, v]);
    FilterPair(v, [v, v, v]);
    assert RemoveFirst([v, v], v) == [v];
    assert RemoveFirst([v, v, v], v) == [v, v];
  }

  /** `_filter` on any unit: int cells stay, lists stay lists and only lose
      elements (each cell narrows). */
  lemma FilterUnitNarrows(u: seq<Cell>)
    ensures forall k :: 0 <= k < |u| ==> Narrows(FilterUnit(u)[k], u[k])
    ensures forall k :: 0 <= k < |u| ==> FilterUnit(u)[k].Open? == u[k].Open?
    ensures forall k :: 0 <= k < |u| && u[k].Fixed? ==> FilterUnit(u)[k] == u[k]
  {
    forall k | 0 <= k < |u| && u[k].Open?
      ensures Narrows(FilterUnit(u)[k], u[k])
    {
      var cs := u[k].cands;
      var r := RemoveEach(cs, IntsOf(u));
      forall x | x in r ensures x in cs {
        assert x in multiset(r);
      }
    }
  }

  /** `_filter` keeps lists free of repeats. */
  lemma FilterUnitNoDup(u: seq<Cell>)
    requires AllNoDup(u)
    ensures AllNoDup(FilterUnit(u))
  {
    FilterUnitMeaning(u);
    forall k | 0 <= k < |u| && u[k].Open?
      ensures NoDup(FilterUnit(u)[k].cands)
    {
      KeepNoDup(u[k].cands, IntsOf(u));
    }
  }

  /** On a unit whose lists have no repeats, a second `_filter` of the same
      unit changes nothing, so for `_filter` the
      three copies of each diagonal block that `_yield_blocks` yields act as one.
      `_check` has no such property (`Passes.CheckTwiceDiffers`). */
  lemma FilterUnitIdempotent(u: seq<Cell>)
    requires AllNoDup(u)
    ensures FilterUnit(FilterUnit(u)) == FilterUnit(u)
  {
    var f := FilterUnit(u);
    FilterUnitMeaning(u);
    FilterUnitNoDup(u);
    FilterUnitMeaning(f);
    FilterUnitNarrows(u);
    assert IntsOf(f) == IntsOf(u) by {
      assert forall k :: 0 <= k < |u| ==> f[k].Fixed? == u[k].Fixed? && (u[k].Fixed? ==> f[k] == u[k]);
      IntsOfSameFixed(u, f);
    }
    forall k | 0 <= k < |u| && u[k].Open?
      ensures FilterUnit(f)[k] == f[k]
    {
      var ints := IntsOf(u);
      KeepTwice(u[k].cands, ints, ints);
      assert Keep(u[k].cands, ints + ints) == Keep(u[k].cands, ints) by {
        KeepSameMembers(u[k].cands, ints + ints, ints);
      }
    }
  }

  lemma {:induction false} IntsOfSameFixed(u: seq<Cell>, w: seq<Cell>)
    requires |u| == |w|
    requires forall k :: 0 <= k < |u| ==> w[k].Fixed? == u[k].Fixed? && (u[k].Fixed? ==> w[k] == u[k])
    ensures IntsOf(w) == IntsOf(u)
  {
    if u != [] {
      IntsOfSameFixed(u[1..], w[1..]);
    }
  }

  /** Keep depends only on which values are excluded. */
  lemma {:induction false} KeepSameMembers(cs: seq<int>, a: seq<int>, b: seq<int>)
    requires forall y :: y in a <==> y in b
    ensures Keep(cs, a) == Keep(cs, b)
  {
    if cs != [] {
      KeepSameMembers(cs[1..], a, b);
    }
  }

  // ================================================================ _check

  /** `lists = [element for element in ls if isinstance(element, list)]`. */
  function ListsOf(u: seq<Cell>): seq<seq<int>>
  {
    if u == [] then [] else (if u[0].Open? then [u[0].cands] else []) + ListsOf(u[1..])
  }

  /** The unit indices of the list cells, in unit order: the cells the loop
      `for element in lists` visits. */
  function OpenIndices(u: seq<Cell>): (r: seq<nat>)
    ensures forall m :: 0 <= m < |r| ==> r[m] < |u|
    ensures forall t :: 0 <= t < |u| ==> (t in r <==> u[t].Open?)
    ensures forall m, n :: 0 <= m < n < |r| ==> r[m] < r[n]
  {
    if u == [] then []
    else
      var n := |u| - 1;
      var rest := OpenIndices(u[..n]);
      assert forall t :: 0 <= t < n ==> u[..n][t] == u[t];
      rest + (if u[n].Open? then [n] else [])
  }

  /** How often x occurs in s: `Counter(flattened)[x]`. */
  function Count(s: seq<int>, x: int): (r: nat)
    ensures r > 0 <==> x in s
  {
    if s == [] then 0 else (if s[0] == x then 1 else 0) + Count(s[1..], x)
  }

  /** The elements of s that occur exactly once in whole, in the order of s. */
  function UniquesOf(s: seq<int>, whole: seq<int>): (r: seq<int>)
    ensures forall x :: x in r <==> x in s && Count(whole, x) == 1
  {
    if s == [] then []
    else
      var rest := UniquesOf(s[1..], whole);
      assert forall y :: y in s <==> y == s[0] || y in s[1..];
      (if Count(whole, s[0]) == 1 then [s[0]] else []) + rest
  }

  /** `unique = {k: v for k, v in Counter(flattened).items() if v == 1}`: the
      digits that occur exactly once, in order of first appearance (the
      insertion order of the `Counter`). */
  function Uniques(flat: seq<int>): seq<int>
  {
    UniquesOf(flat, flat)
  }

  /** One pass of `for element in lists: if value in element: element.clear();
      element.append(value)` on one cell. */
  function ApplyValueCell(c: Cell, v: int): Cell
  {
    if c.Open? && v in c.cands then Open([v]) else c
  }

  /** The same pass on every cell of the unit. */
  function ApplyValue(w: seq<Cell>, v: int): (r: seq<Cell>)
    ensures |r| == |w|
  {
    seq(|w|, t requires 0 <= t < |w| => ApplyValueCell(w[t], v))
  }

  /** `for value in unique.keys(): ...`, the values taken in order. */
  function FoldValues(u: seq<Cell>, vs: seq<int>): (r: seq<Cell>)
    ensures |r| == |u|
  {
    if vs == [] then u else ApplyValue(FoldValues(u, vs[..|vs| - 1]), vs[|vs| - 1])
  }

  /** `_check(ls)`: the unit's cells afterwards. */
  function CheckUnit(u: seq<Cell>): (r: seq<Cell>)
    ensures |r| == |u|
  {
    FoldValues(u, Uniques(Flatten(ListsOf(u))))
  }

  /** The first candidate of cs that occurs exactly once in flat. */
  function FirstUnique(cs: seq<int>, flat: seq<int>): (r: Option<int>)
  {
    if cs == [] then None
    else if Count(flat, cs[0]) == 1 then Some(cs[0])
    else FirstUnique(cs[1..], flat)
  }

  /** The reference meaning of the hidden-single rule for one cell of a unit
      whose list cells flatten to flat: a list holding a digit that occurs
      nowhere else becomes the singleton of the first such digit it holds;
      every other cell stays as it is. */
  function CheckedCell(c: Cell, flat: seq<int>): Cell
  {
    if c.Fixed? then c
    else match FirstUnique(c.cands, flat)
      case Some(x) => Open([x])
      case None => c
  }

  // ---------------------------------------------------------------- the proof of CheckUnitMeaning

  /** The fold of the values on a single cell. */
  function CellFold(c: Cell, vs: seq<int>): Cell
  {
    if vs == [] then c else ApplyValueCell(CellFold(c, vs[..|vs| - 1]), vs[|vs| - 1])
  }

  /** The first element of vs that is in cs. */
  function FirstIn(vs: seq<int>, cs: seq<int>): (r: Option<int>)
    ensures r.Some? ==> r.value in vs && r.value in cs
    ensures r.None? ==> forall v :: v in vs ==> v !in cs
  {
    if vs == [] then None
    else if vs[0] in cs then Some(vs[0])
    else
      var rest := FirstIn(vs[1..], cs);
      assert forall v :: v in vs ==> v == vs[0] || v in vs[1..];
      rest
  }

  lemma {:induction false} FoldValuesAt(u: seq<Cell>, vs: seq<int>, k: nat)
    requires k < |u|
    ensures FoldValues(u, vs)[k] == CellFold(u[k], vs)
  {
    if vs != [] {
      FoldValuesAt(u, vs[..|vs| - 1], k);
    }
  }

  lemma {:induction false} CellFoldFixed(v: int, vs: seq<int>)
    ensures CellFold(Fixed(v), vs) == Fixed(v)
  {
    if vs != [] {
      CellFoldFixed(v, vs[..|vs| - 1]);
    }
  }

  lemma {:induction false} CountAppend(a: seq<int>, b: seq<int>, x: int)
    ensures Count(a + b, x) == Count(a, x) + Count(b, x)
  {
    if a != [] {
      assert (a + b)[0] == a[0] && (a + b)[1..] == a[1..] + b;
      CountAppend(a[1..], b, x);
    } else {
      assert a + b == b;
    }
  }

  lemma {:induction false} FirstInSnoc(vs: seq<int>, x: int, cs: seq<int>)
    ensures FirstIn(vs + [x], cs) == if FirstIn(vs, cs).Some? then FirstIn(vs, cs)
                                    else if x in cs then Some(x) else None
  {
    if vs == [] {
      assert vs + [x] == [x];
      assert [x][1..] == [];
    } else {
      assert (vs + [x])[0] == vs[0] && (vs + [x])[1..] == vs[1..] + [x];
      FirstInSnoc(vs[1..], x, cs);
    }
  }

  lemma {:induction false} FirstInSkip(a: seq<int>, b: seq<int>, cs: seq<int>)
    requires forall v :: v in a ==> v !in cs
    ensures FirstIn(a + b, cs) == FirstIn(b, cs)
  {
    if a != [] {
      assert (a + b)[0] == a[0] && (a + b)[1..] == a[1..] + b;
      FirstInSkip(a[1..], b, cs);
    } else {
      assert a + b == b;
    }
  }

  /** Folding values without repeats over an open cell: the first value that
      the cell holds wins, and none later can change the singleton it becomes. */
  lemma {:induction false} CellFoldOpen(cs: seq<int>, vs: seq<int>)
    requires forall x :: Count(vs, x) <= 1
    ensures CellFold(Open(cs), vs) == match FirstIn(vs, cs)
      case Some(y) => Open([y])
      case None => Open(cs)
  {
    if vs != [] {
      var front, x := vs[..|vs| - 1], vs[|vs| - 1];
      assert front + [x] == vs;
      forall y ensures Count(front, y) <= 1 {
        CountAppend(front, [x], y);
      }
      CellFoldOpen(cs, front);
      FirstInSnoc(front, x, cs);
      var f := FirstIn(front, cs);
      if f.Some? {
        CountAppend(front, [x], f.value);
        assert x != f.value;
      }
    }
  }

  lemma {:induction false} UniquesAppend(a: seq<int>, b: seq<int>, whole: seq<int>)
    ensures UniquesOf(a + b, whole) == UniquesOf(a, whole) + UniquesOf(b, whole)
  {
    if a != [] {
      assert (a + b)[0] == a[0] && (a + b)[1..] == a[1..] + b;
      UniquesAppend(a[1..], b, whole);
    } else {
      assert a + b == b;
    }
  }

  lemma {:induction false} UniquesCount(s: seq<int>, whole: seq<int>, x: int)
    ensures Count(UniquesOf(s, whole), x) <= Count(s, x)
  {
    if s != [] {
      UniquesCount(s[1..], whole, x);
      var h := if Count(whole, s[0]) == 1 then [s[0]] else [];
      CountAppend(h, UniquesOf(s[1..], whole), x);
      if h != [] { assert h[1..] == []; }
    }
  }

  lemma {:induction false} FirstUniqueHead(cs: seq<int>, flat: seq<int>)
    ensures FirstUnique(cs, flat) == if UniquesOf(cs, flat) == [] then None else Some(UniquesOf(cs, flat)[0])
  {
    if cs != [] && Count(flat, cs[0]) != 1 {
      FirstUniqueHead(cs[1..], flat);
    }
  }

  lemma {:induction false} ListsOfAppend(a: seq<Cell>, b: seq<Cell>)
    ensures ListsOf(a + b) == ListsOf(a) + ListsOf(b)
  {
    if a != [] {
      assert (a + b)[0] == a[0] && (a + b)[1..] == a[1..] + b;
      ListsOfAppend(a[1..], b);
    } else {
      assert a + b == b;
    }
  }

  lemma ListsOfSingle(c: Cell)
    ensures c.Open? ==> ListsOf([c]) == [c.cands]
    ensures c.Open? ==> Flatten([c.cands]) == c.cands
  {
    assert [c][1..] == [];
    if c.Open? {
      assert [c.cands][1..] == [];
    }
  }

  /** The flattened lists of a unit around its k-th cell, when that cell is a list. */
  lemma FlatAround(u: seq<Cell>, k: nat)
    requires k < |u| && u[k].Open?
    ensures Flatten(ListsOf(u)) == Flatten(ListsOf(u[..k])) + u[k].cands + Flatten(ListsOf(u[k + 1..]))
  {
    var a, c, b := u[..k], u[k], u[k + 1..];
    SplitAround(u, k);
    ListsOfAppend(a, [c] + b);
    ListsOfAppend([c], b);
    ListsOfSingle(c);
    var la, lb := ListsOf(a), ListsOf(b);
    FlattenAppend(la, [c.cands] + lb);
    FlattenAppend([c.cands], lb);
    AppendAssoc(Flatten(la), c.cands, Flatten(lb));
  }

  /** A sequence is its prefix, its k-th element and its suffix. */
  lemma SplitAround<T>(u: seq<T>, k: nat)
    requires k < |u|
    ensures u == u[..k] + ([u[k]] + u[k + 1..])
  {
    assert u[..k] + ([u[k]] + u[k + 1..]) == u[..k] + u[k..];
  }

  lemma AppendAssoc<T>(a: seq<T>, b: seq<T>, c: seq<T>)
    ensures a + (b + c) == a + b + c
  {
    assert |a + (b + c)| == |a + b + c|;
    forall i | 0 <= i < |a + b + c| ensures (a + (b + c))[i] == (a + b + c)[i] {
      if i >= |a| + |b| {
        assert (a + (b + c))[i] == (b + c)[i - |a|] == c[i - |a| - |b|];
      }
    }
  }

  /** The digits that occur exactly once in p + cs + q and lie in p or q are
      not candidates of cs. */
  lemma UniquesOutside(p: seq<int>, cs: seq<int>, q: seq<int>, v: int)
    requires v in UniquesOf(p, p + cs + q) || v in UniquesOf(q, p + cs + q)
    ensures v !in cs
  {
    CountAppend(p + cs, q, v);
    CountAppend(p, cs, v);
  }

  lemma UniquesSplit(p: seq<int>, cs: seq<int>, q: seq<int>)
    ensures Uniques(p + cs + q) ==
      UniquesOf(p, p + cs + q) + UniquesOf(cs, p + cs + q) + UniquesOf(q, p + cs + q)
  {
    var flat := p + cs + q;
    UniquesAppend(p + cs, q, flat);
    UniquesAppend(p, cs, flat);
  }

  /** The first element of up + (uc + uq) in cs, when neither up nor uq meets
      cs and every element of uc is in cs. */
  lemma FirstInMiddle(up: seq<int>, uc: seq<int>, uq: seq<int>, cs: seq<int>)
    requires forall v :: v in up ==> v !in cs
    requires forall v :: v in uq ==> v !in cs
    requires forall v :: v in uc ==> v in cs
    ensures FirstIn(up + uc + uq, cs) == if uc == [] then None else Some(uc[0])
  {
    assert up + uc + uq == up + (uc + uq);
    FirstInSkip(up, uc + uq, cs);
    if uc == [] {
      FirstInSkip(uq, [], cs);
      assert uc + uq == uq + [];
    } else {
      assert (uc + uq)[0] == uc[0];
    }
  }

  /** No digit unique in p + cs + q that comes from p or q is a candidate of cs. */
  lemma UniquesAroundOutside(p: seq<int>, cs: seq<int>, q: seq<int>)
    ensures forall v :: v in UniquesOf(p, p + cs + q) ==> v !in cs
    ensures forall v :: v in UniquesOf(q, p + cs + q) ==> v !in cs
  {
    forall v | v in UniquesOf(p, p + cs + q) || v in UniquesOf(q, p + cs + q)
      ensures v !in cs
    {
      UniquesOutside(p, cs, q, v);
    }
  }

  /** Among the unique digits of p + cs + q, in order, the first that is a
      candidate of cs is the first of those that come from cs. */
  lemma FirstInUniques(p: seq<int>, cs: seq<int>, q: seq<int>)
    ensures var uc := UniquesOf(cs, p + cs + q);
      FirstIn(Uniques(p + cs + q), cs) == if uc == [] then None else Some(uc[0])
  {
    var flat := p + cs + q;
    var up, uc, uq := UniquesOf(p, flat), UniquesOf(cs, flat), UniquesOf(q, flat);
    UniquesSplit(p, cs, q);
    UniquesAroundOutside(p, cs, q);
    FirstInMiddle(up, uc, uq, cs);
  }

  /** Among the unique digits of p + cs + q, in order, the first that is a
      candidate of cs is the first unique digit of cs. */
  lemma FirstUniqueAround(p: seq<int>, cs: seq<int>, q: seq<int>)
    ensures FirstIn(Uniques(p + cs + q), cs) == FirstUnique(cs, p + cs + q)
  {
    FirstInUniques(p, cs, q);
    FirstUniqueHead(cs, p + cs + q);
  }

  /** The open-cell case of CheckUnitMeaning. */
  lemma CheckOpenCell(u: seq<Cell>, k: nat)
    requires k < |u| && u[k].Open?
    ensures FirstIn(Uniques(Flatten(ListsOf(u))), u[k].cands) == FirstUnique(u[k].cands, Flatten(ListsOf(u)))
  {
    FlatAround(u, k);
    FirstUniqueAround(Flatten(ListsOf(u[..k])), u[k].cands, Flatten(ListsOf(u[k + 1..])));
  }

  /** `_check` on any unit, cell by cell: an int cell is untouched; a list that
      holds digits occurring exactly once among all the unit's lists becomes
      the singleton of the first of them in its own order (the first one met in
      flattened order); any other list is untouched. */
  lemma CheckUnitMeaning(u: seq<Cell>)
    ensures forall k :: 0 <= k < |u| ==> CheckUnit(u)[k] == CheckedCell(u[k], Flatten(ListsOf(u)))
  {
    var flat := Flatten(ListsOf(u));
    var vs := Uniques(flat);
    forall x ensures Count(vs, x) <= 1 {
      UniquesCount(flat, flat, x);
    }
    forall k | 0 <= k < |u|
      ensures CheckUnit(u)[k] == CheckedCell(u[k], flat)
    {
      FoldValuesAt(u, vs, k);
      match u[k]
      case Fixed(v) =>
        CellFoldFixed(v, vs);
      case Open(cs) =>
        CellFoldOpen(cs, vs);
        CheckOpenCell(u, k);
    }
  }

  /** `_check` on any unit: every cell narrows (a list becomes a singleton of
      one of its own digits, or stays), lists stay lists, ints stay. */
  lemma CheckUnitNarrows(u: seq<Cell>)
    ensures forall k :: 0 <= k < |u| ==> Narrows(CheckUnit(u)[k], u[k])
    ensures forall k :: 0 <= k < |u| ==> CheckUnit(u)[k].Open? == u[k].Open?
    ensures forall k :: 0 <= k < |u| && u[k].Fixed? ==> CheckUnit(u)[k] == u[k]
  {
    CheckUnitMeaning(u);
    var flat := Flatten(ListsOf(u));
    forall k | 0 <= k < |u| && u[k].Open?
      ensures Narrows(CheckUnit(u)[k], u[k])
    {
      FirstUniqueIn(u[k].cands, flat);
      var cs := u[k].cands;
      if FirstUnique(cs, flat).Some? {
        SingletonOrLonger(cs, FirstUnique(cs, flat).value);
      }
    }
  }

  lemma SingletonOrLonger(cs: seq<int>, v: int)
    requires v in cs
    ensures cs == [v] || |cs| >= 2
  {
    if |cs| == 1 {
      assert cs == [cs[0]];
    }
  }

  /** A unit whose cells are ints except for at most one list [v, v], and none
      of whose ints is v when that list is there. */
  predicate OneDoubleList(u: seq<Cell>, v: int)
  {
    (forall k :: 0 <= k < |u| ==> u[k].Fixed? || u[k] == Open([v, v])) &&
    (forall k, l :: 0 <= k < l < |u| ==> u[k].Fixed? || u[l].Fixed?) &&
    (forall k, l :: 0 <= k < |u| && 0 <= l < |u| && u[k].Open? && u[l].Fixed? ==> u[l].v != v)
  }

  lemma {:induction false} ListsOfFixed(u: seq<Cell>)
    requires forall k :: 0 <= k < |u| ==> u[k].Fixed?
    ensures ListsOf(u) == []
  {
    if u != [] {
      ListsOfFixed(u[1..]);
    }
  }

  lemma {:induction false} RemoveEachAbsent(cs: seq<int>, ints: seq<int>)
    requires forall x :: x in ints ==> x !in cs
    ensures RemoveEach(cs, ints) == cs
  {
    if ints != [] {
      RemoveEachAbsent(cs, ints[..|ints| - 1]);
      assert ints[|ints| - 1] in ints;
    }
  }

  /** `_filter` leaves such a unit alone: the list [v, v] meets no int v. */
  lemma OneDoubleListFilter(u: seq<Cell>, v: int)
    requires OneDoubleList(u, v)
    ensures FilterUnit(u) == u
  {
    if k :| 0 <= k < |u| && u[k].Open? {
      assert v !in IntsOf(u);
      RemoveEachAbsent([v, v], IntsOf(u));
    }
    assert forall l :: 0 <= l < |u| ==> FilterUnit(u)[l] == u[l];
  }

  /** `_check` leaves such a unit alone: v occurs twice among the unit's lists,
      so no digit is unique. */
  lemma OneDoubleListCheck(u: seq<Cell>, v: int)
    requires OneDoubleList(u, v)
    ensures CheckUnit(u) == u
  {
    if k :| 0 <= k < |u| && u[k].Open? {
      FlatAround(u, k);
      ListsOfFixed(u[..k]);
      ListsOfFixed(u[k + 1..]);
      assert Flatten(ListsOf(u)) == [v, v];
      var vs := Uniques([v, v]);
      assert vs == [] by {
        if vs != [] {
          assert vs[0] in vs;
          CountUpToThree([v, v], vs[0]);
        }
      }
    } else {
      ListsOfFixed(u);
    }
  }

  /** Occurrences in a list of at most three elements. */
  lemma CountUpToThree(s: seq<int>, x: int)
    requires |s| <= 3
    ensures Count(s, x) == (if |s| > 0 && s[0] == x then 1 else 0) + (if |s| > 1 && s[1] == x then 1 else 0)
                         + (if |s| > 2 && s[2] == x then 1 else 0)
  {
    if s != [] {
      if |s| > 1 {
        assert s[1..][1..] == s[2..];
      }
    }
  }

  /** A unit whose ints are all other than a and b and whose lists are all
      [a, b], either none of them or lists at its first two places (a row,
      column or block of the 2x2 corner of lists). */
  predicate PairUnit(u: seq<Cell>, a: int, b: int)
  {
    |u| >= 2 &&
    (forall k :: 0 <= k < |u| ==> u[k] == Open([a, b]) || (u[k].Fixed? && u[k].v != a && u[k].v != b)) &&
    (forall k :: 0 <= k < |u| && u[k].Open? ==> u[0].Open? && u[1].Open?)
  }

  /** `_filter` leaves such a unit alone: no int is a or b. */
  lemma PairUnitFilter(u: seq<Cell>, a: int, b: int)
    requires PairUnit(u, a, b)
    ensures FilterUnit(u) == u
  {
    RemoveEachAbsent([a, b], IntsOf(u));
    assert forall l :: 0 <= l < |u| ==> FilterUnit(u)[l] == u[l];
  }

  /** Neither of two candidates that each occur at least twice is unique. */
  lemma FirstUniqueNone(a: int, b: int, flat: seq<int>)
    requires Count(flat, a) >= 2 && Count(flat, b) >= 2
    ensures FirstUnique([a, b], flat) == None
  {
    assert [a, b][1..] == [b] && [b][1..] == [];
    assert FirstUnique([a, b], flat) == FirstUnique([b], flat);
    assert FirstUnique([b], flat) == FirstUnique([], flat);
  }

  /** Occurrences of a candidate of [a, b] in two copies of [a, b] followed by rest. */
  lemma TwoPairsCount(a: int, b: int, rest: seq<int>, x: int)
    requires x == a || x == b
    ensures Count([a, b] + ([a, b] + rest), x) >= 2
  {
    CountAppend([a, b], [a, b] + rest, x);
    CountAppend([a, b], rest, x);
    CountUpToThree([a, b], x);
  }

  /** `_check` leaves such a unit alone: a and b each occur at least twice
      among its lists, so neither is unique. */
  lemma PairUnitCheck(u: seq<Cell>, a: int, b: int)
    requires PairUnit(u, a, b)
    ensures CheckUnit(u) == u
  {
    CheckUnitMeaning(u);
    var flat := Flatten(ListsOf(u));
    if u[0].Open? {
      FlatAround(u, 0);
      FlatAround(u[1..], 0);
      assert u[..0] == [] && u[1..][..0] == [] && u[1..][1..] == u[2..];
      var rest := Flatten(ListsOf(u[2..]));
      assert flat == [a, b] + ([a, b] + rest);
      TwoPairsCount(a, b, rest, a);
      TwoPairsCount(a, b, rest, b);
      FirstUniqueNone(a, b, flat);
    }
    forall l | 0 <= l < |u| ensures CheckUnit(u)[l] == u[l] {
      assert u[l].Open? ==> u[l] == Open([a, b]) && u[0].Open?;
    }
  }

  /** `_check` leaves alone a unit whose lists are all [b]: each becomes the
      singleton of its first unique candidate, b, or stays. */
  lemma SingletonListsCheck(u: seq<Cell>, b: int)
    requires forall k :: 0 <= k < |u| && u[k].Open? ==> u[k] == Open([b])
    ensures CheckUnit(u) == u
  {
    CheckUnitMeaning(u);
    assert [b][1..] == [];
    forall l | 0 <= l < |u| ensures CheckUnit(u)[l] == u[l] {
      if u[l].Open? {
        assert FirstUnique([b], Flatten(ListsOf(u))) in {None, Some(b)};
      }
    }
  }

  /** The unit holds the int a. */
  predicate HasInt(u: seq<Cell>, a: int)
  {
    exists l :: 0 <= l < |u| && u[l] == Fixed(a)
  }

  lemma KeepPair(a: int, b: int, ints: seq<int>)
    ensures Keep([b], ints) == if b in ints then [] else [b]
    ensures Keep([a, b], ints) == (if a in ints then [] else [a]) + Keep([b], ints)
  {
    assert [b][1..] == [] && [a, b][1..] == [b];
  }

  /** An int other than b, or one of the lists [a, b] and [b]. */
  predicate CellAB(c: Cell, a: int, b: int)
  {
    (c.Fixed? && c.v != b) || c == Open([a, b]) || c == Open([b])
  }

  /** `_filter` of a unit of such cells: when the unit holds the int a, every
      list becomes [b]; otherwise nothing changes. */
  lemma FilterAB(u: seq<Cell>, a: int, b: int)
    requires a != b
    requires forall k :: 0 <= k < |u| ==> CellAB(u[k], a, b)
    ensures AllNoDup(u)
    ensures forall k :: 0 <= k < |u| ==>
      FilterUnit(u)[k] == if u[k].Fixed? || !HasInt(u, a) then u[k] else Open([b])
  {
    assert AllNoDup(u) by {
      forall k | 0 <= k < |u| && u[k].Open? ensures NoDup(u[k].cands) {
        assert CellAB(u[k], a, b);
      }
    }
    FilterUnitMeaning(u);
    var ints := IntsOf(u);
    KeepPair(a, b, ints);
    assert b !in ints;
    assert a in ints <==> HasInt(u, a);
    forall k | 0 <= k < |u|
      ensures FilterUnit(u)[k] == if u[k].Fixed? || !HasInt(u, a) then u[k] else Open([b])
    {
      assert CellAB(u[k], a, b);
    }
  }

  /** The first `_check` pass over lists [a, b] and [a, b, c]: only c is unique. */
  lemma CheckThreeFirst(a: int, b: int, c: int)
    requires a != b && a != c && b != c
    ensures FirstUnique([a, b], [a, b] + [a, b, c]) == None
    ensures FirstUnique([a, b, c], [a, b] + [a, b, c]) == Some(c)
  {
    var flat := [a, b] + [a, b, c];
    CountAppend([a, b], [a, b, c], a); CountUpToThree([a, b], a); CountUpToThree([a, b, c], a);
    CountAppend([a, b], [a, b, c], b); CountUpToThree([a, b], b); CountUpToThree([a, b, c], b);
    CountAppend([a, b], [a, b, c], c); CountUpToThree([a, b], c); CountUpToThree([a, b, c], c);
    assert [a, b][1..] == [b] && [b][1..] == [];
    assert [a, b, c][1..] == [b, c] && [b, c][1..] == [c] && [c][1..] == [];
    assert FirstUnique([b], flat) == None;
    assert FirstUnique([c], flat) == Some(c);
    assert FirstUnique([b, c], flat) == Some(c);
  }

  /** On lists [p, q] and [r] with r not in [p, q], p occurs once. */
  lemma CheckThreeLater(p: int, q: int, r: int)
    requires p != q && p != r
    ensures FirstUnique([p, q], [p, q] + [r]) == Some(p)
    ensures FirstUnique([p], [p] + [r]) == Some(p)
  {
    CountAppend([p, q], [r], p); CountUpToThree([p, q], p); CountUpToThree([r], p);
    CountAppend([p], [r], p); CountUpToThree([p], p);
  }

  /** `_check` on a unit of two lists a and b: each list is checked against a + b. */
  lemma CheckTwoLists(a: seq<int>, b: seq<int>)
    ensures CheckUnit([Open(a), Open(b)]) == [CheckedCell(Open(a), a + b), CheckedCell(Open(b), a + b)]
  {
    var u := [Open(a), Open(b)];
    CheckUnitMeaning(u);
    assert ListsOf(u[1..]) == [b] + ListsOf(u[2..]);
    assert ListsOf(u) == [a, b];
    assert Flatten([a, b]) == a + b by {
      assert Flatten([a, b][1..]) == b + Flatten([a, b][2..]);
    }
  }

  lemma {:induction false} FirstUniqueIn(cs: seq<int>, flat: seq<int>)
    ensures FirstUnique(cs, flat).Some? ==> FirstUnique(cs, flat).value in cs &&
                                            Count(flat, FirstUnique(cs, flat).value) == 1
  {
    if cs != [] && Count(flat, cs[0]) != 1 {
      FirstUniqueIn(cs[1..], flat);
    }
  }

  /** `_check` keeps lists free of repeats. */
  lemma CheckUnitNoDup(u: seq<Cell>)
    requires AllNoDup(u)
    ensures AllNoDup(CheckUnit(u))
  {
    CheckUnitMeaning(u);
  }
}
