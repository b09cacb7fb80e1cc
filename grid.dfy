/**
 * The dense row-major grid of src/grid.rs, its addresses, the orthogonal
 * neighbourhood of a position, the row-major "crumbs" enumeration and the
 * random cell pickers (whose random draws are parameters).
 */
module Grids {
  import opened Wrappers
  import opened DivMod

  /** A cell coordinate that is resolved against a grid on demand. */
  datatype Address = Address(column: nat, line: nat)

  /** The two addresses are one orthogonal step apart. */
  predicate Adjacent(a: Address, b: Address) {
    (a.line == b.line && (a.column + 1 == b.column || b.column + 1 == a.column)) ||
    (a.column == b.column && (a.line + 1 == b.line || b.line + 1 == a.line))
  }

  /** Position of `b` in the order top, left, bottom, right around `a`. */
  function NeighbourRank(a: Address, b: Address): nat {
    if b.line + 1 == a.line then 0
    else if b.column + 1 == a.column then 1
    else if b.line == a.line + 1 then 2
    else 3
  }

  /** The ranks around `a` strictly increase along `r`: no repeats, in rank order. */
  predicate RankSorted(a: Address, r: seq<Address>) {
    forall i, j :: 0 <= i < j < |r| ==> NeighbourRank(a, r[i]) < NeighbourRank(a, r[j])
  }

  /** Two rank-sorted lists, the first wholly below the second, append to a rank-sorted list. */
  lemma RankSortedAppend(a: Address, s: seq<Address>, t: seq<Address>)
    requires RankSorted(a, s) && RankSorted(a, t)
    requires forall i, j :: 0 <= i < |s| && 0 <= j < |t| ==> NeighbourRank(a, s[i]) < NeighbourRank(a, t[j])
    ensures RankSorted(a, s + t)
  {
    forall i, j | 0 <= i < j < |s + t|
      ensures NeighbourRank(a, (s + t)[i]) < NeighbourRank(a, (s + t)[j])
    {
      if j < |s| {
        assert (s + t)[i] == s[i] && (s + t)[j] == s[j];
      } else if i < |s| {
        assert (s + t)[i] == s[i] && (s + t)[j] == t[j - |s|];
      } else {
        assert (s + t)[i] == t[i - |s|] && (s + t)[j] == t[j - |s|];
      }
    }
  }

  /**
   * Four lists of at most one neighbour each, of ranks 0, 1, 2 and 3 around
   * `a`, append to a rank-sorted list.
   */
  lemma QuartersSorted(a: Address, top: seq<Address>, left: seq<Address>, bottom: seq<Address>, right: seq<Address>)
    requires |top| <= 1 && |left| <= 1 && |bottom| <= 1 && |right| <= 1
    requires forall i :: 0 <= i < |top| ==> NeighbourRank(a, top[i]) == 0
    requires forall i :: 0 <= i < |left| ==> NeighbourRank(a, left[i]) == 1
    requires forall i :: 0 <= i < |bottom| ==> NeighbourRank(a, bottom[i]) == 2
    requires forall i :: 0 <= i < |right| ==> NeighbourRank(a, right[i]) == 3
    ensures RankSorted(a, top + left + bottom + right)
  {
    RankSortedAppend(a, top, left);
    var tl := top + left;
    assert forall i :: 0 <= i < |tl| ==> NeighbourRank(a, tl[i]) <= 1;
    RankSortedAppend(a, tl, bottom);
    var tlb := tl + bottom;
    assert forall i :: 0 <= i < |tlb| ==> NeighbourRank(a, tlb[i]) <= 2;
    RankSortedAppend(a, tlb, right);
  }

  class Grid<T> {
    const columns: nat
    const lines: nat
    const cells: array<T>

    /** The buffer holds exactly one slot per coordinate. */
    ghost predicate Valid() {
      cells.Length == columns * lines
    }

    /** `Grid::new`: every cell holds the default value. */
    constructor (columns: nat, lines: nat, default: T)
      ensures Valid() && fresh(cells)
      ensures this.columns == columns && this.lines == lines
      ensures forall i :: 0 <= i < cells.Length ==> cells[i] == default
    {
      this.columns := columns;
      this.lines := lines;
      cells := new T[columns * lines](_ => default);
    }

    function CellCount(): (n: nat)
      ensures Valid() ==> n == cells.Length
    {
      lines * columns
    }

    /** `contains`: the coordinates name a cell, whose index is then below the cell count. */
    function Contains(x: nat, y: nat): (r: bool)
      ensures r ==> Localize(x, y) < CellCount()
    {
      if y < lines && x < columns then RowMajorBound(x, y, columns, lines); true else false
    }

    /** `localize`: the row-major index, whose quotient and remainder by the width give back the line and the column. */
    function Localize(x: nat, y: nat): (i: nat)
      ensures x < columns ==> i / columns == y && i % columns == x
    {
      if x < columns then DivModOfRowMajor(y, x, columns); y * columns + x else y * columns + x
    }

    /** Inverse of `Localize` on the cell indices. */
    function Pin(index: nat): (p: (nat, nat))
      requires columns > 0
      ensures index < CellCount() ==> Contains(p.0, p.1) && Localize(p.0, p.1) == index
    {
      DivModSplit(index, columns);
      var y := index / columns;
      if index < CellCount() then
        RowMajorSplit(index, columns, lines);
        (index - y * columns, y)
      else
        (index - y * columns, y)
    }

    /** `pin` inverts `localize` for in-bounds coordinates. */
    lemma PinInvertsLocalize(x: nat, y: nat)
      requires Contains(x, y)
      ensures Pin(Localize(x, y)) == (x, y)
    {
      DivModOfRowMajor(y, x, columns);
    }

    function At(x: nat, y: nat): (r: Option<T>)
      reads cells
      requires Valid()
      ensures r.None? <==> !Contains(x, y)
      ensures r.Some? ==> Localize(x, y) < cells.Length && r.value == cells[Localize(x, y)]
    {
      if !Contains(x, y) then None
      else
        Some(cells[Localize(x, y)])
    }

    /** Reading the pinned coordinates of slot `i` yields slot `i`. */
    lemma AtPinned(i: nat)
      requires Valid() && i < CellCount()
      ensures columns > 0 && At(Pin(i).0, Pin(i).1) == Some(cells[i])
    {
      RowMajorSplit(i, columns, lines);
    }

    /** `at_mut` followed by a write: the addressed slot alone changes. */
    method AtMut(x: nat, y: nat, v: T) returns (found: bool)
      requires Valid()
      modifies cells
      ensures found <==> Contains(x, y)
      ensures found ==> Localize(x, y) < cells.Length && cells[..] == old(cells[..])[Localize(x, y) := v]
      ensures !found ==> cells[..] == old(cells[..])
    {
      found := Contains(x, y);
      if found {
        cells[Localize(x, y)] := v;
      }
    }

    /** `cell` (and `Address::from`): the position, when the grid contains it. */
    function Cell(x: nat, y: nat): (r: Option<Address>)
      ensures r.Some? <==> Contains(x, y)
      ensures r.Some? ==> r.value == Address(x, y)
    {
      if Contains(x, y) then Some(Address(x, y)) else None
    }

    /** `center`: the cell at half the width and half the height, when the grid has one. */
    function Center(): (r: Option<Address>)
      ensures r.Some? <==> columns > 0 && lines > 0
      ensures r.Some? ==> r.value == Address(columns / 2, lines / 2)
      ensures r.Some? ==> r.value.column * 2 <= columns && r.value.line * 2 <= lines
    {
      Cell(columns / 2, lines / 2)
    }

    /** The in-bounds orthogonal neighbours, in the order top, left, bottom, right. */
    function NeighbourList(x: nat, y: nat): (r: seq<Address>)
      ensures |r| <= 4
      ensures forall a :: a in r <==> Contains(a.column, a.line) && Adjacent(Address(x, y), a)
      ensures RankSorted(Address(x, y), r)
    {
      var top, left, bottom, right := TopOf(x, y), LeftOf(x, y), BottomOf(x, y), RightOf(x, y);
      QuartersSorted(Address(x, y), top, left, bottom, right);
      var r := top + left + bottom + right;
      assert forall a :: a in r <==> a in top || a in left || a in bottom || a in right;
      r
    }

    /** The neighbour above `(x, y)`, if in the grid. */
    function TopOf(x: nat, y: nat): (r: seq<Address>)
      ensures |r| <= 1
      ensures forall a :: a in r <==> Contains(a.column, a.line) && a.column == x && a.line + 1 == y
      ensures forall i :: 0 <= i < |r| ==> NeighbourRank(Address(x, y), r[i]) == 0
    {
      if y >= 1 && Contains(x, y - 1) then [Address(x, y - 1)] else []
    }

    /** The neighbour left of `(x, y)`, if in the grid. */
    function LeftOf(x: nat, y: nat): (r: seq<Address>)
      ensures |r| <= 1
      ensures forall a :: a in r <==> Contains(a.column, a.line) && a.column + 1 == x && a.line == y
      ensures forall i :: 0 <= i < |r| ==> NeighbourRank(Address(x, y), r[i]) == 1
    {
      if x >= 1 && Contains(x - 1, y) then [Address(x - 1, y)] else []
    }

    /** The neighbour below `(x, y)`, if in the grid. */
    function BottomOf(x: nat, y: nat): (r: seq<Address>)
      ensures |r| <= 1
      ensures forall a :: a in r <==> Contains(a.column, a.line) && a.column == x && a.line == y + 1
      ensures forall i :: 0 <= i < |r| ==> NeighbourRank(Address(x, y), r[i]) == 2
    {
      if Contains(x, y + 1) then [Address(x, y + 1)] else []
    }

    /** The neighbour right of `(x, y)`, if in the grid. */
    function RightOf(x: nat, y: nat): (r: seq<Address>)
      ensures |r| <= 1
      ensures forall a :: a in r <==> Contains(a.column, a.line) && a.column == x + 1 && a.line == y
      ensures forall i :: 0 <= i < |r| ==> NeighbourRank(Address(x, y), r[i]) == 3
    {
      if Contains(x + 1, y) then [Address(x + 1, y)] else []
    }

    /** `anywhere_rand`, the random index being `pick`. */
    function AnywhereRand(pick: nat): (r: Address)
      requires pick < CellCount()
      ensures Contains(r.column, r.line) && Localize(r.column, r.line) == pick
    {
      var p := Pin(pick);
      Address(p.0, p.1)
    }

    predicate Matches(s: seq<T>, func: (nat, nat, T) -> bool, pick: nat)
      requires |s| == CellCount() && pick < |s|
    {
      var p := Pin(pick);
      func(p.0, p.1, s[pick])
    }

    function FirstMatchFrom(s: seq<T>, func: (nat, nat, T) -> bool, picks: seq<nat>, k: nat): Option<Address>
      requires |s| == CellCount() && |s| < |picks|
      requires forall j :: 0 <= j < |picks| ==> picks[j] < |s|
      decreases |s| - k
    {
      if k >= |s| then None
      else if Matches(s, func, picks[k]) then Some(AnywhereRand(picks[k]))
      else FirstMatchFrom(s, func, picks, k + 1)
    }

    /**
     * What `anywhere_rand_match` returns on a grid holding `s` when its random
     * draws are `picks`: the first of the first `|s|` draws that matches.
     */
    function RandMatch(s: seq<T>, func: (nat, nat, T) -> bool, picks: seq<nat>): (r: Option<Address>)
      requires |s| == CellCount() && |s| < |picks|
      requires forall j :: 0 <= j < |picks| ==> picks[j] < |s|
    {
      FirstMatchFrom(s, func, picks, 0)
    }

    lemma {:induction false} FirstMatchFromSpec(s: seq<T>, func: (nat, nat, T) -> bool, picks: seq<nat>, k: nat)
      requires |s| == CellCount() && |s| < |picks|
      requires forall j :: 0 <= j < |picks| ==> picks[j] < |s|
      ensures var r := FirstMatchFrom(s, func, picks, k);
              r.Some? ==> exists j :: k <= j < |s| && Matches(s, func, picks[j]) && r.value == AnywhereRand(picks[j])
      ensures FirstMatchFrom(s, func, picks, k).None? ==>
                forall j :: k <= j < |s| ==> !Matches(s, func, picks[j])
      decreases |s| - k
    {
      if k < |s| && !Matches(s, func, picks[k]) {
        FirstMatchFromSpec(s, func, picks, k + 1);
      }
    }

    /**
     * A result of `anywhere_rand_match` is in the grid and satisfies `func`; there
     * is one exactly when one of the first `|s|` draws satisfies it.
     */
    lemma RandMatchSpec(s: seq<T>, func: (nat, nat, T) -> bool, picks: seq<nat>)
      requires |s| == CellCount() && |s| < |picks|
      requires forall j :: 0 <= j < |picks| ==> picks[j] < |s|
      ensures var r := RandMatch(s, func, picks);
              r.Some? <==> exists j :: 0 <= j < |s| && Matches(s, func, picks[j])
      ensures var r := RandMatch(s, func, picks);
              r.Some? ==> Contains(r.value.column, r.value.line) &&
                          Localize(r.value.column, r.value.line) < |s| &&
                          func(r.value.column, r.value.line, s[Localize(r.value.column, r.value.line)])
    {
      FirstMatchFromSpec(s, func, picks, 0);
      var r := FirstMatchFrom(s, func, picks, 0);
      if r.Some? {
        var j :| 0 <= j < |s| && Matches(s, func, picks[j]) && r.value == AnywhereRand(picks[j]);
        var p := Pin(picks[j]);
        assert r.value == Address(p.0, p.1);
        assert Localize(p.0, p.1) == picks[j];
      }
    }

    /**
     * `anywhere_rand_match`: one initial draw, then at most `cell_count` retries
     * while the candidate does not match; the draws are `picks`.
     */
    method AnywhereRandMatch(func: (nat, nat, T) -> bool, picks: seq<nat>) returns (r: Option<Address>)
      requires Valid() && CellCount() > 0 && CellCount() < |picks|
      requires forall j :: 0 <= j < |picks| ==> picks[j] < CellCount()
      ensures r == RandMatch(cells[..], func, picks)
    {
      var index := picks[0];
      var candidate := AnywhereRand(index);
      var security := CellCount();
      var used := 0;  // how many draws of `picks` have been consumed after the first
      while security > 0 && !func(candidate.column, candidate.line, cells[index])
        invariant 0 <= security <= CellCount() && used == CellCount() - security
        invariant index == picks[used] && candidate == AnywhereRand(index)
        invariant RandMatch(cells[..], func, picks) == FirstMatchFrom(cells[..], func, picks, used)
      {
        used := used + 1;
        index := picks[used];
        candidate := AnywhereRand(index);
        security := security - 1;
      }
      if security == 0 {
        r := None;
      } else {
        r := Some(candidate);
      }
    }
  }

  /** The `Crumbs` iterator: row-major addresses of a `columns x lines` grid. */
  class Crumbs {
    var i: nat
    const columns: nat
    const lines: nat
    const max: nat

    ghost predicate Valid() {
      max == columns * lines
    }

    /** `Grid::crumbs`. */
    constructor (columns: nat, lines: nat)
      ensures Valid() && i == 0
      ensures this.columns == columns && this.lines == lines
    {
      i := 0;
      this.columns := columns;
      this.lines := lines;
      max := columns * lines;
    }

    method Next() returns (r: Option<Address>)
      requires Valid()
      modifies this
      ensures old(i) >= max ==> r == None && i == old(i)
      ensures old(i) < max ==> i == old(i) + 1 && columns > 0 &&
                               r == Some(Address(old(i) % columns, old(i) / columns))
    {
      if i >= max {
        r := None;
      } else {
        RowMajorSplit(i, columns, lines);
        var y := i / columns;
        var x := i - y * columns;
        i := i + 1;
        r := Some(Address(x, y));
      }
    }
  }

  /**
   * Running `crumbs()` to exhaustion (what every `for addr in grid.crumbs()`
   * does): `cell_count` addresses, the k-th being `(k % columns, k / columns)`.
   */
  method CollectCrumbs<T>(g: Grid<T>) returns (s: seq<Address>)
    ensures |s| == g.CellCount()
    ensures forall k :: 0 <= k < |s| ==> s[k] == Address(k % g.columns, k / g.columns)
  {
    var crumbs := new Crumbs(g.columns, g.lines);
    s := [];
    var r := crumbs.Next();
    while r.Some?
      invariant crumbs.Valid() && crumbs.columns == g.columns && crumbs.lines == g.lines
      invariant crumbs.i <= crumbs.max
      invariant r.Some? ==> crumbs.i == |s| + 1 && r.value == Address(|s| % g.columns, |s| / g.columns)
      invariant r.None? ==> |s| == crumbs.max
      invariant forall k :: 0 <= k < |s| ==> s[k] == Address(k % g.columns, k / g.columns)
      decreases crumbs.max - crumbs.i, r.Some?
    {
      s := s + [r.value];
      r := crumbs.Next();
    }
  }
}
