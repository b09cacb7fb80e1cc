/**
 * The growable-vector grid of src/grid/base.rs (with the `Way` enum of
 * src/grid/mod.rs). Its cells are a row-major vector indexed by
 * `column + columns * line`; the constructors fill it with push loops, and
 * the `*_mut` accessors are writes of a value into one slot.
 */
module GridBase {
  import opened Wrappers
  import opened DivMod

  /** The four orthogonal directions. */
  datatype Way = Up | Down | Left | Right

  /** The vector `[create(0), ..., create(count - 1)]`, built one push at a time. */
  method PushAll<T>(count: nat, create: nat -> T) returns (v: seq<T>)
    ensures |v| == count
    ensures forall i :: 0 <= i < count ==> v[i] == create(i)
  {
    v := [];
    for i := 0 to count
      invariant |v| == i
      invariant forall j :: 0 <= j < i ==> v[j] == create(j)
    {
      v := v + [create(i)];
    }
  }

  class Grid<T> {
    const columns: nat
    const lines: nat
    var cells: seq<T>

    /** The vector holds exactly one slot per coordinate. */
    ghost predicate Valid()
      reads this
    {
      |cells| == columns * lines
    }

    /** `Grid::new`: every cell is `T::default()`, passed in as `default`. */
    constructor New(columns: nat, lines: nat, default: T)
      ensures Valid()
      ensures this.columns == columns && this.lines == lines
      ensures forall i :: 0 <= i < |cells| ==> cells[i] == default
    {
      this.columns := columns;
      this.lines := lines;
      var v := PushAll(columns * lines, _ => default);
      cells := v;
    }

    /** `Grid::new_from_copy`: every cell is a clone of `model`. */
    constructor NewFromCopy(columns: nat, lines: nat, model: T)
      ensures Valid()
      ensures this.columns == columns && this.lines == lines
      ensures forall i :: 0 <= i < |cells| ==> cells[i] == model
    {
      this.columns := columns;
      this.lines := lines;
      var v := PushAll(columns * lines, _ => model);
      cells := v;
    }

    /** `Grid::new_by`: every cell is a result of the side-effect-free `create`. */
    constructor NewBy(columns: nat, lines: nat, create: () -> T)
      ensures Valid()
      ensures this.columns == columns && this.lines == lines
      ensures forall i :: 0 <= i < |cells| ==> cells[i] == create()
    {
      this.columns := columns;
      this.lines := lines;
      var v := PushAll(columns * lines, _ => create());
      cells := v;
    }

    /**
     * `Grid::new_init_with`: `create` is a stateful closure, so its
     * successive results are given as `create(0), create(1), ...`.
     */
    constructor NewInitWith(columns: nat, lines: nat, create: nat -> T)
      ensures Valid()
      ensures this.columns == columns && this.lines == lines
      ensures forall i :: 0 <= i < |cells| ==> cells[i] == create(i)
    {
      this.columns := columns;
      this.lines := lines;
      var v := PushAll(columns * lines, create);
      cells := v;
    }

    /** `_storage_pos`: the vector index of a coordinate, when it is in range. */
    function StoragePos(column: nat, line: nat): (r: Option<nat>)
      ensures r.Some? <==> column < columns && line < lines
      ensures r.Some? ==> r.value < columns * lines && r.value % columns == column && r.value / columns == line
    {
      if column < columns && line < lines then
        RowMajorBound(column, line, columns, lines);
        DivModOfRowMajor(line, column, columns);
        Some(column + columns * line)
      else
        None
    }

    /** Two distinct coordinates in range never share a storage position. */
    lemma StoragePosInjective(c1: nat, l1: nat, c2: nat, l2: nat)
      requires StoragePos(c1, l1).Some? && StoragePos(c2, l2).Some?
      requires (c1, l1) != (c2, l2)
      ensures StoragePos(c1, l1) != StoragePos(c2, l2)
    {
    }

    /** Every storage position of the grid is the position of some coordinate. */
    lemma StoragePosCovers(spos: nat)
      requires spos < columns * lines
      ensures columns > 0 && StoragePos(spos % columns, spos / columns) == Some(spos)
    {
      RowMajorSplit(spos, columns, lines);
    }

    /** `try_at`. */
    function TryAt(column: nat, line: nat): (r: Option<T>)
      reads this
      requires Valid()
      ensures r.None? <==> StoragePos(column, line).None?
      ensures r.Some? ==> r.value == cells[StoragePos(column, line).value]
    {
      match StoragePos(column, line)
      case None => None
      case Some(spos) => Some(cells[spos])
    }

    /** `at`, which panics out of range: the range is a precondition. */
    function At(column: nat, line: nat): (r: T)
      reads this
      requires Valid() && column < columns && line < lines
      ensures TryAt(column, line) == Some(r)
    {
      cells[StoragePos(column, line).value]
    }

    /** `try_at_loc` on the location's storage position `spos`. */
    function TryAtLoc(spos: nat): (r: Option<T>)
      reads this
      ensures r.None? <==> spos >= |cells|
      ensures r.Some? ==> r.value == cells[spos]
    {
      if spos < |cells| then Some(cells[spos]) else None
    }

    /** `at_loc`, which panics past the end of the vector. */
    function AtLoc(spos: nat): (r: T)
      reads this
      requires spos < |cells|
      ensures TryAtLoc(spos) == Some(r)
    {
      cells[spos]
    }

    /** A storage position reads the cell of the coordinate it stands for. */
    lemma TryAtLocAgrees(column: nat, line: nat)
      requires Valid() && StoragePos(column, line).Some?
      ensures TryAtLoc(StoragePos(column, line).value) == TryAt(column, line)
    {
    }

    /** `try_at_mut(column, line).map(|c| *c = v)`: found iff in range. */
    method TryAtMut(column: nat, line: nat, v: T) returns (found: bool)
      requires Valid()
      modifies this
      ensures Valid()
      ensures found <==> column < columns && line < lines
      ensures found ==> TryAt(column, line) == Some(v)
      ensures found ==> cells == old(cells)[StoragePos(column, line).value := v]
      ensures !found ==> cells == old(cells)
    {
      var spos := StoragePos(column, line);
      found := spos.Some?;
      if found {
        cells := cells[spos.value := v];
      }
    }

    /** `*at_mut(column, line) = v`, which panics out of range. */
    method AtMut(column: nat, line: nat, v: T)
      requires Valid() && column < columns && line < lines
      modifies this
      ensures Valid()
      ensures At(column, line) == v
      ensures cells == old(cells)[StoragePos(column, line).value := v]
    {
      var found := TryAtMut(column, line, v);
    }

    /** `try_direct_at_mut(spos).map(|c| *c = v)`. */
    method TryDirectAtMut(spos: nat, v: T) returns (found: bool)
      modifies this
      ensures |cells| == |old(cells)|
      ensures found <==> spos < |cells|
      ensures found ==> cells == old(cells)[spos := v]
      ensures !found ==> cells == old(cells)
    {
      found := spos < |cells|;
      if found {
        cells := cells[spos := v];
      }
    }

    /** `*direct_at_mut(spos) = v`, which panics past the end of the vector. */
    method DirectAtMut(spos: nat, v: T)
      requires spos < |cells|
      modifies this
      ensures cells == old(cells)[spos := v]
    {
      var found := TryDirectAtMut(spos, v);
    }
  }

  /**
   * Writing `v` at one coordinate is what `try_at` then reads there, and
   * every other coordinate reads as before.
   */
  lemma {:induction false} WriteThenRead<T>(g: Grid<T>, s: seq<T>, column: nat, line: nat, v: T, c: nat, l: nat)
    requires |s| == g.columns * g.lines && g.StoragePos(column, line).Some?
    ensures var t := s[g.StoragePos(column, line).value := v];
            match g.StoragePos(c, l)
            case None => true
            case Some(p) => t[p] == (if (c, l) == (column, line) then v else s[p])
  {
    match g.StoragePos(c, l)
    case None =>
    case Some(p) =>
      if (c, l) != (column, line) {
        g.StoragePosInjective(c, l, column, line);
      }
  }
}
