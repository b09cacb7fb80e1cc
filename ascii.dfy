/**
 * The plain-text renderer of src/display/ascii.rs. A `LineBuilder` receives
 * one gate flag per cell and writes each run of equal flags as repeated
 * 3-character patterns; `draw` renders a maze as a border row, then per
 * line a row of vertical (Left) gates and a row of horizontal (Down) gates,
 * the last of which is a border again.
 */
module Ascii {
  import opened Wrappers
  import opened GridBase
  import Location
  import opened OrthoMazes

  datatype SymbolSet = LightWeight | Dashed

  datatype LineBuilderFactory = LineBuilderFactory(
    openedHoriGate: string, closedHoriGate: string,
    openedVertGate: string, closedVertGate: string,
    join: string, vert: string)

  /** Every gate pattern takes three characters and both end markers one. */
  predicate WellFormed(f: LineBuilderFactory) {
    |f.openedHoriGate| == 3 && |f.closedHoriGate| == 3 &&
    |f.openedVertGate| == 3 && |f.closedVertGate| == 3 &&
    |f.join| == 1 && |f.vert| == 1
  }

  /**
   * `LineBuilderFactory::new`: horizontal gates are a join followed by two
   * gate characters, vertical gates a gate character followed by two spaces.
   */
  function NewFactory(horiClose: char, horiOpen: char, vertClose: char, vertOpen: char, join: char, space: char):
    (f: LineBuilderFactory)
    ensures WellFormed(f)
    ensures f.openedHoriGate[0] == f.closedHoriGate[0] == f.join[0] == join
    ensures f.openedVertGate[1..] == f.closedVertGate[1..] == [space, space]
    ensures f.openedHoriGate == f.closedHoriGate <==> horiOpen == horiClose
    ensures f.openedVertGate == f.closedVertGate <==> vertOpen == vertClose
  {
    LineBuilderFactory(
      [join, horiOpen, horiOpen], [join, horiClose, horiClose],
      [vertOpen, space, space], [vertClose, space, space],
      [join], [vertClose])
  }

  /** `PlainAscii::factory`. */
  function Factory(symbols: SymbolSet): (f: LineBuilderFactory)
    ensures WellFormed(f)
    ensures f.openedHoriGate != f.closedHoriGate && f.openedVertGate != f.closedVertGate
  {
    match symbols
    case LightWeight => NewFactory('-', ' ', '|', ' ', '+', ' ')
    case Dashed => NewFactory('=', '-', '‖', '¦', '#', ' ')
  }

  /** `n` copies of the flag `b`. */
  function Run(b: bool, n: nat): (r: seq<bool>)
    ensures |r| == n && forall k :: 0 <= k < n ==> r[k] == b
  {
    if n == 0 then [] else Run(b, n - 1) + [b]
  }

  /** One pattern per flag: `whenOpen` for an open gate, `whenClosed` otherwise. */
  function Render(whenOpen: string, whenClosed: string, bs: seq<bool>): string
    decreases |bs|
  {
    if |bs| == 0 then ""
    else Render(whenOpen, whenClosed, bs[..|bs| - 1]) + (if bs[|bs| - 1] then whenOpen else whenClosed)
  }

  /** With 3-character patterns, `n` flags render to `3 * n` characters. */
  lemma {:induction false} RenderLength(whenOpen: string, whenClosed: string, bs: seq<bool>)
    requires |whenOpen| == 3 && |whenClosed| == 3
    ensures |Render(whenOpen, whenClosed, bs)| == 3 * |bs|
    decreases |bs|
  {
    if |bs| > 0 {
      RenderLength(whenOpen, whenClosed, bs[..|bs| - 1]);
    }
  }

  /** With 3-character patterns, cell `k` renders at `3 * k`. */
  lemma {:induction false} RenderAt(whenOpen: string, whenClosed: string, bs: seq<bool>, k: nat)
    requires |whenOpen| == 3 && |whenClosed| == 3 && k < |bs|
    ensures |Render(whenOpen, whenClosed, bs)| == 3 * |bs|
    ensures Render(whenOpen, whenClosed, bs)[3 * k..3 * k + 3] == (if bs[k] then whenOpen else whenClosed)
    decreases |bs|
  {
    var init := bs[..|bs| - 1];
    var a := Render(whenOpen, whenClosed, init);
    var p := if bs[|bs| - 1] then whenOpen else whenClosed;
    assert Render(whenOpen, whenClosed, bs) == a + p;
    RenderLength(whenOpen, whenClosed, init);
    SliceOfAppend(a, p, 3 * k, 3 * k + 3);
    if k < |init| {
      RenderAt(whenOpen, whenClosed, init, k);
    }
  }

  /** With 3-character patterns, `n` flags render to `3 * n` characters, cell `k` at `3 * k`. */
  lemma RenderLayout(whenOpen: string, whenClosed: string, bs: seq<bool>)
    requires |whenOpen| == 3 && |whenClosed| == 3
    ensures |Render(whenOpen, whenClosed, bs)| == 3 * |bs|
    ensures forall k :: 0 <= k < |bs| ==>
              Render(whenOpen, whenClosed, bs)[3 * k..3 * k + 3] == (if bs[k] then whenOpen else whenClosed)
  {
    RenderLength(whenOpen, whenClosed, bs);
    forall k | 0 <= k < |bs|
      ensures Render(whenOpen, whenClosed, bs)[3 * k..3 * k + 3] == (if bs[k] then whenOpen else whenClosed)
    {
      RenderAt(whenOpen, whenClosed, bs, k);
    }
  }

  /** A slice of `a + p` lies in `a` or in `p`, wherever it starts. */
  lemma SliceOfAppend(a: string, p: string, i: nat, j: nat)
    requires (j <= |a| || i == |a|) && i <= j <= |a| + |p|
    ensures j <= |a| ==> (a + p)[i..j] == a[i..j]
    ensures i == |a| ==> (a + p)[i..j] == p[..j - i]
  {
  }

  /** `pattern.repeat(n)`. */
  function Repeat(pattern: string, n: nat): string {
    if n == 0 then "" else Repeat(pattern, n - 1) + pattern
  }

  /** Repeating a pattern is rendering that many closed gates. */
  lemma {:induction false} RepeatIsRender(whenOpen: string, whenClosed: string, n: nat)
    ensures Repeat(whenClosed, n) == Render(whenOpen, whenClosed, Run(false, n))
  {
    if n > 0 {
      RepeatIsRender(whenOpen, whenClosed, n - 1);
      assert Run(false, n)[..n - 1] == Run(false, n - 1);
    }
  }

  /** `horizontal_border`: the rendering of a line of closed horizontal gates, then a join. */
  function HorizontalBorder(f: LineBuilderFactory, length: nat): (r: string)
    ensures r == Render(f.openedHoriGate, f.closedHoriGate, Run(false, length)) + f.join
    ensures WellFormed(f) ==> |r| == 3 * length + 1
  {
    RepeatIsRender(f.openedHoriGate, f.closedHoriGate, length);
    var r := Repeat(f.closedHoriGate, length) + f.join;
    assert WellFormed(f) ==> |r| == 3 * length + 1 by {
      if WellFormed(f) { RenderLayout(f.openedHoriGate, f.closedHoriGate, Run(false, length)); }
    }
    r
  }

  class LineBuilder {
    var line: string
    const nbCells: nat
    var startIndex: nat
    var gateOpenedLastTime: Option<bool>
    const openedGate: string
    const closedGate: string
    const endGate: string
    /** The flags already written out into `line`. */
    ghost var written: seq<bool>

    ghost predicate Valid()
      reads this
    {
      line == Render(openedGate, closedGate, written)
    }

    /** `LineBuilder::new`: nothing written and no pending run. */
    constructor (count: nat, openedGate: string, closedGate: string, endGate: string)
      ensures Valid() && written == [] && startIndex == 0 && gateOpenedLastTime.None?
      ensures nbCells == count && this.openedGate == openedGate && this.closedGate == closedGate
      ensures this.endGate == endGate
    {
      line := "";
      nbCells := count;
      startIndex := 0;
      gateOpenedLastTime := None;
      this.openedGate := openedGate;
      this.closedGate := closedGate;
      this.endGate := endGate;
      written := [];
    }

    /** Appends `times` copies of the pattern of `b`: the run from `startIndex` on. */
    method PushRun(b: bool, times: nat)
      requires Valid()
      modifies this
      ensures Valid() && written == old(written) + Run(b, times)
      ensures startIndex == old(startIndex) && gateOpenedLastTime == old(gateOpenedLastTime)
    {
      var pattern := if b then openedGate else closedGate;
      for i := 0 to times
        invariant Valid() && written == old(written) + Run(b, i)
        invariant startIndex == old(startIndex) && gateOpenedLastTime == old(gateOpenedLastTime)
      {
        assert (written + [b])[..|written|] == written;
        line := line + pattern;
        written := written + [b];
      }
    }

    /**
     * `update(index, gate_is_opened)`: a changed flag writes out the pending
     * run, which reaches up to `index`; `index - start_index` underflows when
     * the index goes back, hence the precondition.
     */
    method Update(index: nat, gateIsOpened: bool)
      requires Valid()
      requires gateOpenedLastTime.Some? && gateOpenedLastTime != Some(gateIsOpened) ==> index >= startIndex
      modifies this
      ensures Valid() && gateOpenedLastTime == Some(gateIsOpened)
      ensures old(gateOpenedLastTime).None? ==> startIndex == index && written == old(written)
      ensures old(gateOpenedLastTime) == Some(gateIsOpened) ==> startIndex == old(startIndex) && written == old(written)
      ensures old(gateOpenedLastTime).Some? && old(gateOpenedLastTime) != Some(gateIsOpened) ==>
                startIndex == index &&
                written == old(written) + Run(old(gateOpenedLastTime).value, index - old(startIndex))
    {
      if gateOpenedLastTime.None? {
        startIndex := index;
        gateOpenedLastTime := Some(gateIsOpened);
      } else if gateOpenedLastTime != Some(gateIsOpened) {
        var times := index - startIndex;
        PushRun(gateOpenedLastTime.value, times);
        startIndex := index;
        gateOpenedLastTime := Some(gateIsOpened);
      }
    }

    /**
     * `done`: writes out the pending run up to `nb_cells` and the end
     * marker. It unwraps the pending flag, so at least one update must have
     * happened, and `nb_cells - start_index` must not underflow.
     */
    method Done() returns (s: string)
      requires Valid() && gateOpenedLastTime.Some? && startIndex <= nbCells
      modifies this
      ensures s == Render(openedGate, closedGate, old(written) + Run(old(gateOpenedLastTime).value, nbCells - old(startIndex))) + endGate
    {
      var times := nbCells - startIndex;
      PushRun(gateOpenedLastTime.value, times);
      line := line + endGate;
      s := line;
    }
  }

  /**
   * The builder has received the flags `gs`, the k-th at index k: what is
   * written plus the pending run is `gs`.
   */
  ghost predicate Fed(b: LineBuilder, gs: seq<bool>)
    reads b
  {
    b.Valid() &&
    (|gs| == 0 ==> b.gateOpenedLastTime.None? && b.written == []) &&
    (|gs| > 0 ==>
       b.gateOpenedLastTime == Some(gs[|gs| - 1]) && b.startIndex < |gs| &&
       b.written + Run(gs[|gs| - 1], |gs| - b.startIndex) == gs)
  }

  /** A run extended by one flag, in the two ways `update` can extend it. */
  lemma FedStep(written: seq<bool>, start: nat, gs: seq<bool>, g: bool)
    requires |gs| > 0 && start < |gs| && written + Run(gs[|gs| - 1], |gs| - start) == gs
    ensures g == gs[|gs| - 1] ==> written + Run(g, |gs| + 1 - start) == gs + [g]
    ensures g != gs[|gs| - 1] ==> (written + Run(gs[|gs| - 1], |gs| - start)) + Run(g, 1) == gs + [g]
  {
    assert Run(g, 1) == [g];
  }

  /** `update(index, g)` with the next index, `|gs|`, keeps the builder fed. */
  method FeedNext(b: LineBuilder, index: nat, ghost gs: seq<bool>, g: bool)
    requires Fed(b, gs) && index == |gs|
    modifies b
    ensures Fed(b, gs + [g])
  {
    if |gs| > 0 {
      FedStep(b.written, b.startIndex, gs, g);
    }
    b.Update(index, g);
    if |gs| == 0 {
      assert Run(g, 1) == [g];
    }
  }

  /** `done` on a builder fed with one flag per cell renders exactly those flags. */
  method Finish(b: LineBuilder, ghost gs: seq<bool>) returns (s: string)
    requires Fed(b, gs) && |gs| == b.nbCells > 0
    modifies b
    ensures s == Render(b.openedGate, b.closedGate, gs) + b.endGate
  {
    s := b.Done();
  }

  /**
   * Feeding `update(i, gs[i])` for i = 0 .. n - 1 and then calling `done`
   * yields the concatenation of one pattern per flag and the end marker:
   * `3 * n + 1` characters for 3-character patterns and a 1-character end.
   */
  method BuildLine(b: LineBuilder, gs: seq<bool>) returns (s: string)
    requires Fed(b, []) && b.nbCells == |gs| > 0
    modifies b
    ensures s == Render(b.openedGate, b.closedGate, gs) + b.endGate
    ensures |b.openedGate| == 3 && |b.closedGate| == 3 && |b.endGate| == 1 ==> |s| == 3 * |gs| + 1
  {
    for i := 0 to |gs|
      invariant Fed(b, gs[..i])
    {
      assert gs[..i + 1] == gs[..i] + [gs[i]];
      FeedNext(b, i, gs[..i], gs[i]);
    }
    assert gs[..|gs|] == gs;
    s := Finish(b, gs);
    if |b.openedGate| == 3 && |b.closedGate| == 3 {
      RenderLayout(b.openedGate, b.closedGate, gs);
    }
  }

  /** `horizontal(length)`: a builder of horizontal gates ending with a join. */
  method Horizontal(f: LineBuilderFactory, length: nat) returns (b: LineBuilder)
    ensures fresh(b) && Fed(b, []) && b.nbCells == length
    ensures b.openedGate == f.openedHoriGate && b.closedGate == f.closedHoriGate && b.endGate == f.join
  {
    b := new LineBuilder(length, f.openedHoriGate, f.closedHoriGate, f.join);
  }

  /** `vertical(length)`: a builder of vertical gates ending with a closed wall. */
  method Vertical(f: LineBuilderFactory, length: nat) returns (b: LineBuilder)
    ensures fresh(b) && Fed(b, []) && b.nbCells == length
    ensures b.openedGate == f.openedVertGate && b.closedGate == f.closedVertGate && b.endGate == f.vert
  {
    b := new LineBuilder(length, f.openedVertGate, f.closedVertGate, f.vert);
  }

  /** Whether each of the first `n` cells of line `y` allows `way`: entry `x` is whether `gates_at` of cell `(x, y)` allows it. */
  function RowGates(m: OrthoMaze, y: nat, way: Way, n: nat): (r: seq<bool>)
    reads m.grid
    requires m.grid.Valid() && m.grid.columns > 0 && n <= m.grid.columns
    ensures |r| == n
    ensures forall x :: 0 <= x < n ==> r[x] == Allows(m, x, y, way)
  {
    if n == 0 then [] else RowGates(m, y, way, n - 1) + [Allows(m, n - 1, y, way)]
  }

  /** The rows `draw` produces for maze `m` with factory `f`. */
  ghost predicate Drawing(rows: seq<string>, m: OrthoMaze, f: LineBuilderFactory)
    reads m.grid
    requires m.grid.Valid()
  {
    var (columns, lines) := (m.grid.columns, m.grid.lines);
    |rows| == 2 * lines + 1 &&
    rows[0] == HorizontalBorder(f, columns) &&
    rows[2 * lines] == HorizontalBorder(f, columns) &&
    (lines > 0 ==> columns > 0) &&
    forall y :: 0 <= y < lines ==> RowsOf(rows, m, f, y)
  }

  /**
   * The two rows of line `y`: its Left gates rendered as vertical gates,
   * then its Down gates rendered as horizontal gates, or the border after
   * the last line.
   */
  ghost function LineRows(m: OrthoMaze, f: LineBuilderFactory, y: nat): (string, string)
    reads m.grid
    requires m.grid.Valid() && m.grid.columns > 0
  {
    var (columns, lines) := (m.grid.columns, m.grid.lines);
    (Render(f.openedVertGate, f.closedVertGate, RowGates(m, y, Left, columns)) + f.vert,
     if y + 1 < lines then Render(f.openedHoriGate, f.closedHoriGate, RowGates(m, y, Down, columns)) + f.join
     else HorizontalBorder(f, columns))
  }

  /** Rows `2y + 1` and `2y + 2` are the rows of line `y`. */
  ghost predicate RowsOf(rows: seq<string>, m: OrthoMaze, f: LineBuilderFactory, y: nat)
    reads m.grid
    requires m.grid.Valid()
  {
    m.grid.columns > 0 && 2 * y + 2 < |rows| &&
    (rows[2 * y + 1], rows[2 * y + 2]) == LineRows(m, f, y)
  }

  /**
   * The inner loop of `draw` over line `y`: both builders are fed with
   * every cell of the line, the horizontal one with its Down gate and the
   * vertical one with its Left gate.
   */
  method FeedRow(f: LineBuilderFactory, m: OrthoMaze, y: nat) returns (hori: LineBuilder, vert: LineBuilder)
    requires m.grid.Valid() && m.grid.columns > 0
    ensures fresh(hori) && fresh(vert) && hori != vert
    ensures Fed(hori, RowGates(m, y, Down, m.grid.columns)) && Fed(vert, RowGates(m, y, Left, m.grid.columns))
    ensures hori.nbCells == m.grid.columns && hori.openedGate == f.openedHoriGate
    ensures hori.closedGate == f.closedHoriGate && hori.endGate == f.join
    ensures vert.nbCells == m.grid.columns && vert.openedGate == f.openedVertGate
    ensures vert.closedGate == f.closedVertGate && vert.endGate == f.vert
  {
    var columns := m.grid.columns;
    hori := Horizontal(f, columns);
    vert := Vertical(f, columns);
    for x := 0 to columns
      invariant hori != vert
      invariant Fed(hori, RowGates(m, y, Down, x)) && Fed(vert, RowGates(m, y, Left, x))
    {
      var loc := Location.FromCoordinates(x, y, m.grid);
      var gates := m.GatesAt(loc);
      GatesAtAllows(m, x, y, Down);
      GatesAtAllows(m, x, y, Left);
      ghost var downs, lefts := RowGates(m, y, Down, x), RowGates(m, y, Left, x);
      FeedNext(hori, x, downs, CanMove(gates, Down));
      FeedNext(vert, x, lefts, CanMove(gates, Left));
      assert RowGates(m, y, Down, x + 1) == downs + [CanMove(gates, Down)];
      assert RowGates(m, y, Left, x + 1) == lefts + [CanMove(gates, Left)];
    }
  }

  /** Rows already drawn stay drawn when more rows are pushed. */
  lemma RowsOfExtend(rows: seq<string>, extra: seq<string>, m: OrthoMaze, f: LineBuilderFactory, y: nat)
    requires m.grid.Valid() && RowsOf(rows, m, f, y)
    ensures RowsOf(rows + extra, m, f, y)
  {
    assert (rows + extra)[2 * y + 1] == rows[2 * y + 1] && (rows + extra)[2 * y + 2] == rows[2 * y + 2];
  }

  /**
   * The two rows `draw` pushes for line `y`: the vertical row, then the
   * horizontal row, or the border after the last line.
   */
  method DrawLine(f: LineBuilderFactory, m: OrthoMaze, y: nat) returns (vs: string, hs: string)
    requires m.grid.Valid() && m.grid.columns > 0
    ensures (vs, hs) == LineRows(m, f, y)
  {
    var hori, vert := FeedRow(f, m, y);
    vs := VerticalRow(f, m, y, vert);
    hs := HorizontalRow(f, m, y, hori);
  }

  /** The vertical row of line `y`, from the builder fed with its Left gates. */
  method VerticalRow(f: LineBuilderFactory, m: OrthoMaze, y: nat, vert: LineBuilder) returns (vs: string)
    requires m.grid.Valid() && m.grid.columns > 0
    requires Fed(vert, RowGates(m, y, Left, m.grid.columns)) && vert.nbCells == m.grid.columns
    requires vert.openedGate == f.openedVertGate && vert.closedGate == f.closedVertGate && vert.endGate == f.vert
    modifies vert
    ensures vs == Render(f.openedVertGate, f.closedVertGate, old(RowGates(m, y, Left, m.grid.columns))) + f.vert
  {
    vs := Finish(vert, RowGates(m, y, Left, m.grid.columns));
  }

  /** The horizontal row of line `y`: the builder fed with its Down gates, or the border after the last line. */
  method HorizontalRow(f: LineBuilderFactory, m: OrthoMaze, y: nat, hori: LineBuilder) returns (hs: string)
    requires m.grid.Valid() && m.grid.columns > 0
    requires Fed(hori, RowGates(m, y, Down, m.grid.columns)) && hori.nbCells == m.grid.columns
    requires hori.openedGate == f.openedHoriGate && hori.closedGate == f.closedHoriGate && hori.endGate == f.join
    modifies hori
    ensures hs == old(LineRows(m, f, y).1)
  {
    if y + 1 < m.grid.lines {
      hs := Finish(hori, RowGates(m, y, Down, m.grid.columns));
    } else {
      hs := HorizontalBorder(f, m.grid.columns);
    }
  }

  /**
   * `PlainAscii::draw`: `2 * lines + 1` rows, bordered above and below, the
   * vertical rows showing each cell's Left gate and the horizontal rows its
   * Down gate. A line's builders unwrap their pending flag, so a maze with
   * lines must have columns.
   */
  method Draw(symbols: SymbolSet, m: OrthoMaze) returns (r: Result<seq<string>, ()>)
    requires m.grid.Valid() && (m.grid.columns > 0 || m.grid.lines == 0)
    ensures r.Ok? && Drawing(r.value, m, Factory(symbols))
  {
    var columns, lines := m.grid.columns, m.grid.lines;
    var f := Factory(symbols);
    var result := [HorizontalBorder(f, columns)];
    for y := 0 to lines
      invariant |result| == 2 * y + 1 && result[0] == HorizontalBorder(f, columns)
      invariant AllRowsOf(result, m, f, y)
    {
      var vs, hs := DrawLine(f, m, y);
      DrawStep(result, vs, hs, m, f, y);
      result := result + [vs, hs];
    }
    DrawingOf(result, m, f);
    r := Ok(result);
  }

  /** Rows that start with a border and hold every line's rows are a drawing. */
  lemma DrawingOf(rows: seq<string>, m: OrthoMaze, f: LineBuilderFactory)
    requires m.grid.Valid() && (m.grid.columns > 0 || m.grid.lines == 0)
    requires |rows| == 2 * m.grid.lines + 1 && rows[0] == HorizontalBorder(f, m.grid.columns)
    requires AllRowsOf(rows, m, f, m.grid.lines)
    ensures Drawing(rows, m, f)
  {
    if m.grid.lines > 0 {
      assert RowsOf(rows, m, f, m.grid.lines - 1);
    }
  }

  /** The rows of line `y`, appended after the rows of the lines above it. */
  lemma RowsOfNew(rows: seq<string>, vs: string, hs: string, m: OrthoMaze, f: LineBuilderFactory, y: nat)
    requires m.grid.Valid() && m.grid.columns > 0 && |rows| == 2 * y + 1
    requires (vs, hs) == LineRows(m, f, y)
    ensures RowsOf(rows + [vs, hs], m, f, y)
  {
    var next := rows + [vs, hs];
    assert next[2 * y + 1] == vs;
    assert next[2 * y + 2] == hs;
  }

  /** The rows of each of the first `n` lines. */
  ghost predicate AllRowsOf(rows: seq<string>, m: OrthoMaze, f: LineBuilderFactory, n: nat)
    reads m.grid
    requires m.grid.Valid()
  {
    forall j :: 0 <= j < n ==> RowsOf(rows, m, f, j)
  }

  /** Appending rows keeps the rows of the first `n` lines. */
  lemma AllRowsOfExtend(rows: seq<string>, extra: seq<string>, m: OrthoMaze, f: LineBuilderFactory, n: nat)
    requires m.grid.Valid() && AllRowsOf(rows, m, f, n)
    ensures AllRowsOf(rows + extra, m, f, n)
  {
    forall j | 0 <= j < n ensures RowsOf(rows + extra, m, f, j) {
      RowsOfExtend(rows, extra, m, f, j);
    }
  }

  /** The rows of the first `n` lines and those of line `n` are the rows of the first `n + 1`. */
  lemma AllRowsOfNext(rows: seq<string>, m: OrthoMaze, f: LineBuilderFactory, n: nat)
    requires m.grid.Valid() && AllRowsOf(rows, m, f, n) && RowsOf(rows, m, f, n)
    ensures AllRowsOf(rows, m, f, n + 1)
  {
  }

  /** Appending the rows of line `y` to the rows of the lines above it. */
  lemma DrawStep(rows: seq<string>, vs: string, hs: string, m: OrthoMaze, f: LineBuilderFactory, y: nat)
    requires m.grid.Valid() && m.grid.columns > 0 && |rows| == 2 * y + 1
    requires AllRowsOf(rows, m, f, y) && (vs, hs) == LineRows(m, f, y)
    ensures AllRowsOf(rows + [vs, hs], m, f, y + 1) && (rows + [vs, hs])[0] == rows[0]
  {
    RowsOfNew(rows, vs, hs, m, f, y);
    AllRowsOfExtend(rows, [vs, hs], m, f, y);
    AllRowsOfNext(rows + [vs, hs], m, f, y);
  }

  /** Cell `x` of a rendered row followed by an end marker. */
  lemma RowCell(whenOpen: string, whenClosed: string, bs: seq<bool>, end: string, x: nat)
    requires |whenOpen| == 3 && |whenClosed| == 3 && x < |bs|
    ensures |Render(whenOpen, whenClosed, bs) + end| == 3 * |bs| + |end|
    ensures (Render(whenOpen, whenClosed, bs) + end)[3 * x..3 * x + 3] == if bs[x] then whenOpen else whenClosed
  {
    RenderAt(whenOpen, whenClosed, bs, x);
    SliceOfAppend(Render(whenOpen, whenClosed, bs), end, 3 * x, 3 * x + 3);
  }

  /**
   * In a drawing, the three characters of cell `(x, y)` in the vertical row
   * of line `y` show its Left gate, and those in the horizontal row below it
   * show its Down gate, except below the last line, which is a border.
   */
  lemma DrawnCell(rows: seq<string>, m: OrthoMaze, f: LineBuilderFactory, x: nat, y: nat)
    requires m.grid.Valid() && WellFormed(f) && Drawing(rows, m, f)
    requires x < m.grid.columns && y < m.grid.lines
    ensures 2 * y + 2 < |rows| && |rows[2 * y + 1]| == |rows[2 * y + 2]| == 3 * m.grid.columns + 1
    ensures rows[2 * y + 1][3 * x..3 * x + 3] ==
            if CanMove(m.GatesAt(At(m, x, y)), Left) then f.openedVertGate else f.closedVertGate
    ensures y + 1 < m.grid.lines ==>
              rows[2 * y + 2][3 * x..3 * x + 3] ==
              if CanMove(m.GatesAt(At(m, x, y)), Down) then f.openedHoriGate else f.closedHoriGate
    ensures y + 1 == m.grid.lines ==> rows[2 * y + 2][3 * x..3 * x + 3] == f.closedHoriGate
  {
    var columns := m.grid.columns;
    assert RowsOf(rows, m, f, y);
    var lefts := RowGates(m, y, Left, columns);
    RowCell(f.openedVertGate, f.closedVertGate, lefts, f.vert, x);
    GatesAtAllows(m, x, y, Left);
    if y + 1 < m.grid.lines {
      var downs := RowGates(m, y, Down, columns);
      RowCell(f.openedHoriGate, f.closedHoriGate, downs, f.join, x);
      GatesAtAllows(m, x, y, Down);
    } else {
      RowCell(f.openedHoriGate, f.closedHoriGate, Run(false, columns), f.join, x);
    }
  }
}
