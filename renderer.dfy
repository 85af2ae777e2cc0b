/**
 * The frame buffer and the differential terminal renderer.
 *
 * `draw` writes ANSI escape strings; here each escape is an abstract command, and the output is
 * the command sequence. A virtual terminal (`Step`, `Replay`) gives the commands their meaning,
 * so the lemmas can say what the screen shows after a frame is drawn.
 */
module Renderers {
  import opened Constants

  /** A cell-sized buffer of background colours, `height` rows of `width` cells. */
  class FrameBuffer {
    const width: nat
    const height: nat
    const cells: array2<Cell>

    predicate Valid()
    {
      cells.Length0 == height && cells.Length1 == width
    }

    /** The buffer's contents as a value: row `y`, column `x` is `cells[y, x]`. */
    ghost function Rows(): (g: seq<seq<Cell>>)
      requires Valid()
      reads cells
      ensures |g| == height
      ensures forall y :: 0 <= y < height ==> |g[y]| == width
      ensures forall y, x :: 0 <= y < height && 0 <= x < width ==> g[y][x] == cells[y, x]
    {
      seq(height, y requires 0 <= y < height reads cells =>
        seq(width, x requires 0 <= x < width reads cells => cells[y, x]))
    }

    /** A new buffer: every cell has no colour. */
    constructor(width: nat, height: nat)
      ensures this.width == width && this.height == height && Valid()
      ensures fresh(cells)
      ensures forall y, x :: 0 <= y < height && 0 <= x < width ==> cells[y, x] == Empty
    {
      this.width := width;
      this.height := height;
      cells := new Cell[height, width]((y, x) => Empty);
    }

    /** `fill`: every cell gets background `bg`. */
    method Fill(bg: Cell)
      requires Valid()
      modifies cells
      ensures forall y, x :: 0 <= y < height && 0 <= x < width ==> cells[y, x] == bg
    {
      var y := 0;
      while y < height
        invariant 0 <= y <= height
        invariant forall y', x' :: 0 <= y' < y && 0 <= x' < width ==> cells[y', x'] == bg
      {
        var x := 0;
        while x < width
          invariant 0 <= x <= width
          invariant forall y', x' :: 0 <= y' < y && 0 <= x' < width ==> cells[y', x'] == bg
          invariant forall x' :: 0 <= x' < x ==> cells[y, x'] == bg
        {
          cells[y, x] := bg;
          x := x + 1;
        }
        y := y + 1;
      }
    }

    /** `clone`: a new buffer of the same size and contents, sharing no storage with this one. */
    method Clone() returns (fb: FrameBuffer)
      requires Valid()
      ensures fresh(fb) && fresh(fb.cells)
      ensures fb.Valid() && fb.width == width && fb.height == height
      ensures forall y, x :: 0 <= y < height && 0 <= x < width ==> fb.cells[y, x] == cells[y, x]
    {
      fb := new FrameBuffer(width, height);
      var y := 0;
      while y < height
        invariant 0 <= y <= height
        invariant forall y', x' :: 0 <= y' < y && 0 <= x' < width ==> fb.cells[y', x'] == cells[y', x']
      {
        var x := 0;
        while x < width
          invariant 0 <= x <= width
          invariant forall y', x' :: 0 <= y' < y && 0 <= x' < width ==> fb.cells[y', x'] == cells[y', x']
          invariant forall x' :: 0 <= x' < x ==> fb.cells[y, x'] == cells[y, x']
        {
          fb.cells[y, x] := cells[y, x];
          x := x + 1;
        }
        y := y + 1;
      }
    }
  }

  /** `createPlayfieldBuffer`: an empty buffer the size of the board. */
  method CreatePlayfieldBuffer() returns (fb: FrameBuffer)
    ensures fresh(fb) && fb.Valid()
    ensures fb.width == BoardWidth && fb.height == BoardHeight
    ensures forall y, x :: 0 <= y < BoardHeight && 0 <= x < BoardWidth ==> fb.cells[y, x] == Empty
  {
    fb := new FrameBuffer(BoardWidth, BoardHeight);
  }

  // ---------------------------------------------------------------------------------------
  // The command stream

  /**
   * An abstract terminal command: `color.reset()`, `cursor.moveTo(row, col)`, `color.bg(c)`
   * (`Empty` is the default background) and one drawn cell, `CELL_PIXELS`.
   */
  datatype Cmd = Reset | MoveTo(row: int, col: int) | Bg(bg: Cell) | Glyph

  /** The commands for cell `i` of `cells`: a colour change only if it differs from the cell before. */
  function CellCmds(cells: seq<Cell>, i: nat): seq<Cmd>
    requires i < |cells|
  {
    var before := if i == 0 then Empty else cells[i - 1];
    (if cells[i] != before then [Bg(cells[i])] else []) + [Glyph]
  }

  /** The commands for the first `n` cells of `cells`. */
  function CellsCmds(cells: seq<Cell>, n: nat): seq<Cmd>
    requires n <= |cells|
  {
    if n == 0 then [] else CellsCmds(cells, n - 1) + CellCmds(cells, n - 1)
  }

  /** The cells of a row or a run, painted from a reset colour state. */
  function RowCells(cells: seq<Cell>): seq<Cmd>
  {
    CellsCmds(cells, |cells|)
  }

  /** Move to terminal position (`row`, `col`), paint `cells`, reset the colour. */
  function Segment(row: int, col: int, cells: seq<Cell>): seq<Cmd>
  {
    [MoveTo(row, col)] + RowCells(cells) + [Reset]
  }

  /** Row `y` of a full repaint, written at the left edge of the playfield. */
  function FullRow(r0: int, c0: int, y: int, cells: seq<Cell>): seq<Cmd>
  {
    Segment(r0 + y, c0, cells)
  }

  /** All rows of `g`, top to bottom. */
  function FullRows(r0: int, c0: int, g: seq<seq<Cell>>): seq<Cmd>
    decreases |g|
  {
    if |g| == 0 then []
    else FullRows(r0, c0, g[..|g| - 1]) + FullRow(r0, c0, |g| - 1, g[|g| - 1])
  }

  /** What `draw` writes without a previous frame. */
  function FullFrame(r0: int, c0: int, g: seq<seq<Cell>>): seq<Cmd>
  {
    [Reset] + FullRows(r0, c0, g)
  }

  /** The end of the run of changed cells that starts at `x`. */
  function RunEnd(p: seq<Cell>, c: seq<Cell>, x: nat): (e: nat)
    requires x <= |c| <= |p|
    ensures x <= e <= |c|
    ensures forall i :: x <= i < e ==> p[i] != c[i]
    ensures e < |c| ==> p[e] == c[e]
    decreases |c| - x
  {
    if x == |c| || p[x] == c[x] then x else RunEnd(p, c, x + 1)
  }

  /** The diff commands for cells `x..` of terminal row `r`: one segment per maximal changed run. */
  function DiffRowFrom(r: int, c0: int, p: seq<Cell>, c: seq<Cell>, x: nat): seq<Cmd>
    requires x <= |c| <= |p|
    decreases |c| - x
  {
    if x == |c| then []
    else if p[x] == c[x] then DiffRowFrom(r, c0, p, c, x + 1)
    else
      var e := RunEnd(p, c, x);
      Segment(r, c0 + x * CellWidth, c[x..e]) + DiffRowFrom(r, c0, p, c, e)
  }

  /** Row `y` of the previous frame, or no cells if the previous frame has no such row. */
  function PrevRow(p: seq<seq<Cell>>, y: nat): seq<Cell>
  {
    if y < |p| then p[y] else []
  }

  /** Every cell the diff compares exists in the previous frame. */
  predicate Covers(p: seq<seq<Cell>>, c: seq<seq<Cell>>)
  {
    forall y :: 0 <= y < |c| && |c[y]| > 0 ==> y < |p| && |c[y]| <= |p[y]|
  }

  /** The diff commands for every row of `c`, top to bottom. */
  function DiffRows(r0: int, c0: int, p: seq<seq<Cell>>, c: seq<seq<Cell>>): seq<Cmd>
    requires Covers(p, c)
    decreases |c|
  {
    if |c| == 0 then []
    else
      CoversPrefix(p, c, |c| - 1);
      DiffRows(r0, c0, p, c[..|c| - 1]) + DiffRowFrom(r0 + |c| - 1, c0, PrevRow(p, |c| - 1), c[|c| - 1], 0)
  }

  /** The repaint of the bottom row (`current.height - 1`) that ends every diff frame. */
  function LastRow(r0: int, c0: int, c: seq<seq<Cell>>): seq<Cmd>
  {
    FullRow(r0, c0, |c| - 1, if |c| == 0 then [] else c[|c| - 1])
  }

  /** What `draw` writes given a previous frame `p`. */
  function DiffFrame(r0: int, c0: int, p: seq<seq<Cell>>, c: seq<seq<Cell>>): seq<Cmd>
    requires Covers(p, c)
  {
    [Reset] + DiffRows(r0, c0, p, c) + LastRow(r0, c0, c)
  }

  lemma CoversPrefix(p: seq<seq<Cell>>, c: seq<seq<Cell>>, n: nat)
    requires Covers(p, c) && n <= |c|
    ensures Covers(p, c[..n])
  {
    forall y | 0 <= y < n && |c[..n][y]| > 0
      ensures y < |p| && |c[..n][y]| <= |p[y]|
    {
      assert c[..n][y] == c[y];
    }
  }

  /** The previous frame covers the current one when `draw` can compare them without failing. */
  predicate Comparable(width: nat, height: nat, prevWidth: nat, prevHeight: nat)
  {
    (height > 0 || width == 0) && (width == 0 || (height <= prevHeight && width <= prevWidth))
  }

  /** The renderer: where on the terminal the playfield's top-left cell is drawn. */
  class Renderer {
    var originRow: int
    var originCol: int

    constructor(originRow: int, originCol: int)
      ensures this.originRow == originRow && this.originCol == originCol
    {
      this.originRow := originRow;
      this.originCol := originCol;
    }

    /** `setOrigin`: only the origin changes. */
    method SetOrigin(row: int, col: int)
      modifies this
      ensures originRow == row && originCol == col
    {
      originRow := row;
      originCol := col;
    }

    /**
     * `draw`: a full repaint without a previous frame, otherwise the changed runs of every row
     * followed by a repaint of the bottom row. The commands are returned instead of written.
     */
    method Draw(current: FrameBuffer, previous: FrameBuffer?) returns (out: seq<Cmd>)
      requires current.Valid()
      requires previous != null ==>
        previous.Valid() && Comparable(current.width, current.height, previous.width, previous.height)
      ensures previous == null ==> out == FullFrame(originRow, originCol, current.Rows())
      ensures previous != null ==> out == DiffFrame(originRow, originCol, previous.Rows(), current.Rows())
    {
      if previous == null {
        out := FullDraw(current, originRow, originCol, current.Rows());
      } else {
        out := DiffDraw(current, previous, originRow, originCol, previous.Rows(), current.Rows());
      }
    }
  }

  /** `g` is the contents of `fb`. */
  predicate Holds(fb: FrameBuffer, g: seq<seq<Cell>>)
    reads fb.cells
  {
    fb.Valid() && |g| == fb.height &&
    (forall y :: 0 <= y < fb.height ==> |g[y]| == fb.width) &&
    (forall y, x :: 0 <= y < fb.height && 0 <= x < fb.width ==> g[y][x] == fb.cells[y, x])
  }

  /** The full repaint of `draw` (no previous frame): every row at the playfield's left edge. */
  method FullDraw(current: FrameBuffer, r0: int, c0: int, ghost g: seq<seq<Cell>>) returns (out: seq<Cmd>)
    requires Holds(current, g)
    ensures out == FullFrame(r0, c0, g)
  {
    var rows: seq<Cmd> := [];
    var y := 0;
    while y < current.height
      invariant 0 <= y <= current.height
      invariant rows == FullRows(r0, c0, g[..y])
    {
      var rowCmds := PaintCells(current, y, 0, current.width, g[y]);
      FullRowsStep(r0, c0, g, y);
      rows := rows + ([MoveTo(r0 + y, c0)] + rowCmds + [Reset]);
      y := y + 1;
    }
    assert g[..current.height] == g;
    out := [Reset] + rows;
  }

  /** The differential pass of `draw`: changed runs row by row, then the bottom row again. */
  method DiffDraw(current: FrameBuffer, previous: FrameBuffer, r0: int, c0: int,
                  ghost p: seq<seq<Cell>>, ghost g: seq<seq<Cell>>) returns (out: seq<Cmd>)
    requires Holds(current, g) && Holds(previous, p)
    requires Comparable(current.width, current.height, previous.width, previous.height)
    ensures Covers(p, g)
    ensures out == DiffFrame(r0, c0, p, g)
  {
    var rows := DiffAllRows(current, previous, r0, c0, p, g);
    var lastCmds: seq<Cmd> := [];
    if current.height > 0 {
      lastCmds := PaintCells(current, current.height - 1, 0, current.width, g[current.height - 1]);
      assert g[current.height - 1][0..current.width] == g[current.height - 1];
    }
    out := [Reset] + rows + ([MoveTo(r0 + current.height - 1, c0)] + lastCmds + [Reset]);
  }

  /** The changed runs of every row, top to bottom. */
  method DiffAllRows(current: FrameBuffer, previous: FrameBuffer, r0: int, c0: int,
                     ghost p: seq<seq<Cell>>, ghost g: seq<seq<Cell>>) returns (out: seq<Cmd>)
    requires Holds(current, g) && Holds(previous, p)
    requires Comparable(current.width, current.height, previous.width, previous.height)
    ensures Covers(p, g)
    ensures out == DiffRows(r0, c0, p, g)
  {
    assert Covers(p, g);
    out := [];
    var y := 0;
    while y < current.height
      invariant 0 <= y <= current.height
      invariant Covers(p, g[..y])
      invariant out == DiffRows(r0, c0, p, g[..y])
    {
      out := DiffRow(current, previous, y, r0, c0, out, PrevRow(p, y), g[y]);
      DiffRowsStep(r0, c0, p, g, y);
      y := y + 1;
    }
    assert g[..current.height] == g;
  }

  lemma FullRowsStep(r0: int, c0: int, g: seq<seq<Cell>>, y: nat)
    requires y < |g|
    ensures FullRows(r0, c0, g[..y + 1]) == FullRows(r0, c0, g[..y]) + ([MoveTo(r0 + y, c0)] + RowCells(g[y][0..|g[y]|]) + [Reset])
  {
    assert g[..y + 1][..y] == g[..y];
    assert g[y][0..|g[y]|] == g[y];
  }

  lemma DiffRowsStep(r0: int, c0: int, p: seq<seq<Cell>>, g: seq<seq<Cell>>, y: nat)
    requires y < |g| && Covers(p, g)
    ensures Covers(p, g[..y]) && Covers(p, g[..y + 1])
    ensures DiffRows(r0, c0, p, g[..y + 1]) == DiffRows(r0, c0, p, g[..y]) + DiffRowFrom(r0 + y, c0, PrevRow(p, y), g[y], 0)
  {
    CoversPrefix(p, g, y);
    CoversPrefix(p, g, y + 1);
    assert g[..y + 1][..y] == g[..y];
    assert g[..y + 1][y] == g[y];
  }

  /** The diff pass over row `y`, appended to `out`; `p` and `c` are that row of each frame. */
  method DiffRow(current: FrameBuffer, previous: FrameBuffer, y: nat, r0: int, c0: int, out0: seq<Cmd>,
                 ghost p: seq<Cell>, ghost c: seq<Cell>)
    returns (out: seq<Cmd>)
    requires current.Valid() && previous.Valid() && y < current.height
    requires |c| == current.width <= |p|
    requires current.width > 0 ==> y < previous.height && current.width <= previous.width
    requires forall x :: 0 <= x < current.width ==> current.cells[y, x] == c[x] && previous.cells[y, x] == p[x]
    ensures out == out0 + DiffRowFrom(r0 + y, c0, p, c, 0)
  {
    out := out0;
    var x := 0;
    while x < current.width
      invariant 0 <= x <= current.width
      invariant out + DiffRowFrom(r0 + y, c0, p, c, x) == out0 + DiffRowFrom(r0 + y, c0, p, c, 0)
    {
      if previous.cells[y, x] == current.cells[y, x] {
        DiffSkip(r0 + y, c0, p, c, x);
        x := x + 1;
      } else {
        var start := x;
        while x < current.width && previous.cells[y, x] != current.cells[y, x]
          invariant start <= x <= current.width
          invariant RunEnd(p, c, x) == RunEnd(p, c, start)
        {
          x := x + 1;
        }
        var seg := PaintCells(current, y, start, x, c);
        DiffRun(r0 + y, c0, p, c, start);
        var head := [MoveTo(r0 + y, c0 + start * CellWidth)] + seg + [Reset];
        ghost var rest := DiffRowFrom(r0 + y, c0, p, c, x);
        assert (out + head) + rest == out + (head + rest);
        out := out + head;
      }
    }
  }

  lemma DiffSkip(r: int, c0: int, p: seq<Cell>, c: seq<Cell>, x: nat)
    requires x < |c| <= |p| && p[x] == c[x]
    ensures DiffRowFrom(r, c0, p, c, x) == DiffRowFrom(r, c0, p, c, x + 1)
  {
  }

  lemma DiffRun(r: int, c0: int, p: seq<Cell>, c: seq<Cell>, x: nat)
    requires x < |c| <= |p| && p[x] != c[x]
    ensures var e := RunEnd(p, c, x);
      DiffRowFrom(r, c0, p, c, x) == Segment(r, c0 + x * CellWidth, c[x..e]) + DiffRowFrom(r, c0, p, c, e)
  {
  }

  /** The colour changes and glyphs `draw` writes for cells `lo..hi-1` of row `y`, which holds `row`. */
  method PaintCells(fb: FrameBuffer, y: nat, lo: nat, hi: nat, ghost row: seq<Cell>) returns (s: seq<Cmd>)
    requires fb.Valid() && y < fb.height && lo <= hi <= fb.width == |row|
    requires forall x :: lo <= x < hi ==> fb.cells[y, x] == row[x]
    ensures s == RowCells(row[lo..hi])
  {
    ghost var seg := row[lo..hi];
    s := [];
    var lastBg := Empty;
    var x := lo;
    while x < hi
      invariant lo <= x <= hi
      invariant s == CellsCmds(seg, x - lo)
      invariant lastBg == if x == lo then Empty else seg[x - lo - 1]
    {
      var bg := fb.cells[y, x];
      assert bg == seg[x - lo];
      if bg != lastBg {
        s := s + [Bg(bg)];
        lastBg := bg;
      }
      s := s + [Glyph];
      x := x + 1;
    }
  }

  // ---------------------------------------------------------------------------------------
  // A virtual terminal

  /** A terminal character position. */
  datatype Spot = Spot(row: int, col: int)

  /**
   * A terminal: the cursor, the current background, and for every position where a cell was
   * drawn, the background it was drawn with.
   */
  datatype Terminal = Terminal(row: int, col: int, pen: Cell, screen: map<Spot, Cell>)

  /** One command: a reset restores the default background; a glyph paints a cell and advances. */
  function Step(t: Terminal, cmd: Cmd): Terminal
  {
    match cmd
    case Reset => t.(pen := Empty)
    case MoveTo(r, c) => t.(row := r, col := c)
    case Bg(b) => t.(pen := b)
    case Glyph => t.(screen := t.screen[Spot(t.row, t.col) := t.pen], col := t.col + CellWidth)
  }

  function Replay(t: Terminal, cmds: seq<Cmd>): Terminal
    decreases |cmds|
  {
    if |cmds| == 0 then t else Step(Replay(t, cmds[..|cmds| - 1]), cmds[|cmds| - 1])
  }

  /** The terminal position of cell `x` of row `y` for a frame drawn at (`r0`, `c0`). */
  function CellSpot(r0: int, c0: int, y: int, x: int): Spot
  {
    Spot(r0 + y, c0 + x * CellWidth)
  }

  predicate Has(m: map<Spot, Cell>, s: Spot, v: Cell)
  {
    s in m && m[s] == v
  }

  /** Position `s` is the same in both screens. */
  predicate Keeps(m1: map<Spot, Cell>, m2: map<Spot, Cell>, s: Spot)
  {
    (s in m1 <==> s in m2) && (s in m1 ==> m1[s] == m2[s])
  }

  /** The screens differ at most on row `r`, columns `lo..hi-1`. */
  ghost predicate AgreeOff(m1: map<Spot, Cell>, m2: map<Spot, Cell>, r: int, lo: int, hi: int)
  {
    forall s: Spot :: !(s.row == r && lo <= s.col < hi) ==> Keeps(m1, m2, s)
  }

  /** The screens differ at most on rows `lo..hi-1`. */
  ghost predicate RowsOnly(m1: map<Spot, Cell>, m2: map<Spot, Cell>, lo: int, hi: int)
  {
    forall s: Spot :: !(lo <= s.row < hi) ==> Keeps(m1, m2, s)
  }

  /** Terminal row `r` shows `cells` from column `c0` on. */
  predicate ShowsRow(m: map<Spot, Cell>, r: int, c0: int, cells: seq<Cell>)
  {
    forall x :: 0 <= x < |cells| ==> Has(m, CellSpot(r, c0, 0, x), cells[x])
  }

  /** The screen shows frame `g` at origin (`r0`, `c0`). */
  predicate Shows(m: map<Spot, Cell>, r0: int, c0: int, g: seq<seq<Cell>>)
  {
    forall y :: 0 <= y < |g| ==> ShowsRow(m, r0 + y, c0, g[y])
  }

  lemma {:induction false} ReplayAppend(t: Terminal, a: seq<Cmd>, b: seq<Cmd>)
    ensures Replay(t, a + b) == Replay(Replay(t, a), b)
    decreases |b|
  {
    if |b| == 0 {
      assert a + b == a;
    } else {
      ReplayAppend(t, a, b[..|b| - 1]);
      assert (a + b)[..|a + b| - 1] == a + b[..|b| - 1];
    }
  }

  lemma ReplayOne(t: Terminal, cmd: Cmd)
    ensures Replay(t, [cmd]) == Step(t, cmd)
  {
    assert [cmd][..0] == [];
  }

  /** One cell, drawn with the previous cell's colour (or the reset colour) as the pen. */
  lemma CellReplay(m: Terminal, cells: seq<Cell>, i: nat)
    requires i < |cells| && m.pen == (if i == 0 then Empty else cells[i - 1])
    ensures Replay(m, CellCmds(cells, i)) ==
      Terminal(m.row, m.col + CellWidth, cells[i], m.screen[Spot(m.row, m.col) := cells[i]])
  {
    if cells[i] != m.pen {
      assert CellCmds(cells, i) == [Bg(cells[i])] + [Glyph];
      ReplayAppend(m, [Bg(cells[i])], [Glyph]);
      ReplayOne(m, Bg(cells[i]));
      ReplayOne(Step(m, Bg(cells[i])), Glyph);
    } else {
      assert CellCmds(cells, i) == [Glyph];
      ReplayOne(m, Glyph);
    }
  }

  /** The first `n` cells of a row, painted from the cursor on with a reset pen. */
  lemma {:induction false} CellsReplay(t: Terminal, cells: seq<Cell>, n: nat)
    requires n <= |cells| && t.pen == Empty
    ensures var u := Replay(t, CellsCmds(cells, n));
      u.row == t.row && u.col == t.col + n * CellWidth &&
      u.pen == (if n == 0 then Empty else cells[n - 1]) &&
      (forall x :: 0 <= x < n ==> Has(u.screen, CellSpot(t.row, t.col, 0, x), cells[x])) &&
      AgreeOff(t.screen, u.screen, t.row, t.col, t.col + n * CellWidth)
    decreases n
  {
    if n > 0 {
      var k := n - 1;
      CellsReplay(t, cells, k);
      var m := Replay(t, CellsCmds(cells, k));
      ReplayAppend(t, CellsCmds(cells, k), CellCmds(cells, k));
      CellReplay(m, cells, k);
      ColumnsAdvance(t.col, k);
      assert CellsCmds(cells, n) == CellsCmds(cells, k) + CellCmds(cells, k);
      var u := Replay(m, CellCmds(cells, k));
      assert u.col == t.col + k * CellWidth + CellWidth;
      CellsStep(m.screen, u.screen, t.row, t.col, cells, k);
      AgreeOffGrow(t.screen, m.screen, u.screen, t.row, t.col, t.col + k * CellWidth, CellSpot(t.row, t.col, 0, k).col, t.col + n * CellWidth, cells[k]);
    }
  }

  lemma ColumnsAdvance(col: int, k: nat)
    ensures col + k * CellWidth + CellWidth == col + (k + 1) * CellWidth
    ensures CellSpot(0, col, 0, k).col == col + k * CellWidth
    ensures forall x :: 0 <= x < k ==> CellSpot(0, col, 0, x).col < col + k * CellWidth
  {
  }

  /** Painting cell `k` keeps cells `0..k-1` and adds cell `k`. */
  lemma CellsStep(ms: map<Spot, Cell>, us: map<Spot, Cell>, r: int, col: int, cells: seq<Cell>, k: nat)
    requires k < |cells| && us == ms[CellSpot(r, col, 0, k) := cells[k]]
    requires forall x :: 0 <= x < k ==> Has(ms, CellSpot(r, col, 0, x), cells[x])
    requires forall x :: 0 <= x < k ==> CellSpot(0, col, 0, x).col < CellSpot(0, col, 0, k).col
    ensures forall x :: 0 <= x < k + 1 ==> Has(us, CellSpot(r, col, 0, x), cells[x])
  {
    forall x | 0 <= x < k + 1
      ensures Has(us, CellSpot(r, col, 0, x), cells[x])
    {
      if x < k {
        assert CellSpot(r, col, 0, x) != CellSpot(r, col, 0, k);
      }
    }
  }

  /** An update inside the range widens what may differ by no more than the range. */
  lemma AgreeOffGrow(m1: map<Spot, Cell>, m2: map<Spot, Cell>, m3: map<Spot, Cell>,
                     r: int, lo: int, mid: int, c: int, hi: int, v: Cell)
    requires AgreeOff(m1, m2, r, lo, mid) && mid <= hi && lo <= c < hi
    requires m3 == m2[Spot(r, c) := v]
    ensures AgreeOff(m1, m3, r, lo, hi)
  {
    forall s: Spot | !(s.row == r && lo <= s.col < hi)
      ensures Keeps(m1, m3, s)
    {
      assert Keeps(m1, m2, s);
    }
  }

  /** A segment paints its cells left to right from `col` and touches nothing else. */
  lemma SegmentReplay(t: Terminal, r: int, col: int, cells: seq<Cell>) returns (u: Terminal)
    requires t.pen == Empty
    ensures u == Replay(t, Segment(r, col, cells))
    ensures u.pen == Empty && ShowsRow(u.screen, r, col, cells)
    ensures AgreeOff(t.screen, u.screen, r, col, col + |cells| * CellWidth)
  {
    var t1 := Step(t, MoveTo(r, col));
    ReplayOne(t, MoveTo(r, col));
    ReplayAppend(t, [MoveTo(r, col)], RowCells(cells));
    ReplayAppend(t, [MoveTo(r, col)] + RowCells(cells), [Reset]);
    CellsReplay(t1, cells, |cells|);
    ReplayOne(Replay(t1, RowCells(cells)), Reset);
    u := Replay(t, Segment(r, col, cells));
  }

  /** A row shown on the screen stays shown while another row is painted. */
  lemma OtherRowKept(m1: map<Spot, Cell>, m2: map<Spot, Cell>, r: int, lo: int, hi: int,
                     r': int, c0: int, cells: seq<Cell>)
    requires AgreeOff(m1, m2, r, lo, hi) && r' != r && ShowsRow(m1, r', c0, cells)
    ensures ShowsRow(m2, r', c0, cells)
  {
    forall x | 0 <= x < |cells|
      ensures Has(m2, CellSpot(r', c0, 0, x), cells[x])
    {
      assert Keeps(m1, m2, CellSpot(r', c0, 0, x));
    }
  }

  lemma {:induction false} FullRowsReplay(t: Terminal, r0: int, c0: int, g: seq<seq<Cell>>)
    requires t.pen == Empty
    ensures var u := Replay(t, FullRows(r0, c0, g));
      u.pen == Empty && Shows(u.screen, r0, c0, g)
    decreases |g|
  {
    if |g| > 0 {
      var n := |g| - 1;
      var rows, row := FullRows(r0, c0, g[..n]), FullRow(r0, c0, n, g[n]);
      FullRowsReplay(t, r0, c0, g[..n]);
      ReplayAppend(t, rows, row);
      var m := Replay(t, rows);
      var u := SegmentReplay(m, r0 + n, c0, g[n]);
      ShowsExtend(m.screen, u.screen, r0, c0, g, n, c0 + |g[n]| * CellWidth);
    }
  }

  /** Rows above the last stay shown while the last row, `n`, is painted. */
  lemma ShowsExtend(m1: map<Spot, Cell>, m2: map<Spot, Cell>, r0: int, c0: int, g: seq<seq<Cell>>, n: nat, hi: int)
    requires |g| == n + 1 && Shows(m1, r0, c0, g[..n])
    requires AgreeOff(m1, m2, r0 + n, c0, hi) && ShowsRow(m2, r0 + n, c0, g[n])
    ensures Shows(m2, r0, c0, g)
  {
    forall y | 0 <= y < |g|
      ensures ShowsRow(m2, r0 + y, c0, g[y])
    {
      if y < n {
        assert g[..n][y] == g[y];
        OtherRowKept(m1, m2, r0 + n, c0, hi, r0 + y, c0, g[y]);
      }
    }
  }

  /** A full repaint shows the frame, whatever the terminal showed before. */
  lemma FullFrameShows(t: Terminal, r0: int, c0: int, g: seq<seq<Cell>>)
    ensures Shows(Replay(t, FullFrame(r0, c0, g)).screen, r0, c0, g)
  {
    ReplayOne(t, Reset);
    ReplayAppend(t, [Reset], FullRows(r0, c0, g));
    FullRowsReplay(Step(t, Reset), r0, c0, g);
  }

  /** Cell position `s` shows `after` if the cell changed, and is left as it was otherwise. */
  predicate Updated(m1: map<Spot, Cell>, m2: map<Spot, Cell>, s: Spot, before: Cell, after: Cell)
  {
    (before != after ==> Has(m2, s, after)) && (before == after ==> Keeps(m1, m2, s))
  }

  lemma ColArith(c0: int, a: int, b: int)
    ensures c0 + a * CellWidth + (b - a) * CellWidth == c0 + b * CellWidth
    ensures a < b ==> c0 + a * CellWidth < c0 + b * CellWidth
    ensures a <= b ==> c0 + a * CellWidth <= c0 + b * CellWidth
  {
  }

  lemma AgreeOffWider(m1: map<Spot, Cell>, m2: map<Spot, Cell>, r: int, lo: int, hi: int, lo2: int, hi2: int)
    requires AgreeOff(m1, m2, r, lo, hi) && lo2 <= lo && hi <= hi2
    ensures AgreeOff(m1, m2, r, lo2, hi2)
  {
    forall s: Spot | !(s.row == r && lo2 <= s.col < hi2)
      ensures Keeps(m1, m2, s)
    {
      assert !(s.row == r && lo <= s.col < hi);
    }
  }

  /**
   * The diff of one terminal row from cell `x` on: changed cells show the new colour, unchanged
   * cells keep what the screen had, and nothing outside the remaining cells of the row is touched.
   */
  lemma {:induction false} DiffRowReplay(t: Terminal, r: int, c0: int, p: seq<Cell>, c: seq<Cell>, x: nat)
    requires x <= |c| <= |p| && t.pen == Empty
    ensures var u := Replay(t, DiffRowFrom(r, c0, p, c, x));
      u.pen == Empty &&
      (forall i :: x <= i < |c| ==> Updated(t.screen, u.screen, CellSpot(r, c0, 0, i), p[i], c[i])) &&
      AgreeOff(t.screen, u.screen, r, c0 + x * CellWidth, c0 + |c| * CellWidth)
    decreases |c| - x, 1
  {
    if x == |c| {
    } else if p[x] == c[x] {
      DiffSkip(r, c0, p, c, x);
      DiffRowReplay(t, r, c0, p, c, x + 1);
      var u := Replay(t, DiffRowFrom(r, c0, p, c, x + 1));
      ColArith(c0, x, x + 1);
      assert Keeps(t.screen, u.screen, CellSpot(r, c0, 0, x));
      AgreeOffWider(t.screen, u.screen, r, c0 + (x + 1) * CellWidth, c0 + |c| * CellWidth,
                    c0 + x * CellWidth, c0 + |c| * CellWidth);
    } else {
      RunCase(t, r, c0, p, c, x);
    }
  }

  /** The run case of `DiffRowReplay`: the changed run at `x` is painted, then the row goes on. */
  lemma {:induction false} RunCase(t: Terminal, r: int, c0: int, p: seq<Cell>, c: seq<Cell>, x: nat)
    requires x < |c| <= |p| && t.pen == Empty && p[x] != c[x]
    ensures var u := Replay(t, DiffRowFrom(r, c0, p, c, x));
      u.pen == Empty &&
      (forall i :: x <= i < |c| ==> Updated(t.screen, u.screen, CellSpot(r, c0, 0, i), p[i], c[i])) &&
      AgreeOff(t.screen, u.screen, r, c0 + x * CellWidth, c0 + |c| * CellWidth)
    decreases |c| - x, 0
  {
    var e := RunEnd(p, c, x);
    DiffRun(r, c0, p, c, x);
    var seg, rest := Segment(r, c0 + x * CellWidth, c[x..e]), DiffRowFrom(r, c0, p, c, e);
    ReplayAppend(t, seg, rest);
    var m := SegmentReplay(t, r, c0 + x * CellWidth, c[x..e]);
    DiffRowReplay(m, r, c0, p, c, e);
    RunThenRest(t.screen, m.screen, Replay(m, rest).screen, r, c0, p, c, x, e);
  }

  /** A changed run `x..e-1` painted, then the rest of the row from `e` on. */
  lemma RunThenRest(ms: map<Spot, Cell>, mm: map<Spot, Cell>, mu: map<Spot, Cell>, r: int, c0: int,
                    p: seq<Cell>, c: seq<Cell>, x: nat, e: nat)
    requires x < e <= |c| <= |p|
    requires forall i :: x <= i < e ==> p[i] != c[i]
    requires ShowsRow(mm, r, c0 + x * CellWidth, c[x..e])
    requires AgreeOff(ms, mm, r, c0 + x * CellWidth, c0 + x * CellWidth + |c[x..e]| * CellWidth)
    requires forall i :: e <= i < |c| ==> Updated(mm, mu, CellSpot(r, c0, 0, i), p[i], c[i])
    requires AgreeOff(mm, mu, r, c0 + e * CellWidth, c0 + |c| * CellWidth)
    ensures forall i :: x <= i < |c| ==> Updated(ms, mu, CellSpot(r, c0, 0, i), p[i], c[i])
    ensures AgreeOff(ms, mu, r, c0 + x * CellWidth, c0 + |c| * CellWidth)
  {
    assert |c[x..e]| == e - x;
    ColArith(c0, x, e);
    forall i | x <= i < |c|
      ensures Updated(ms, mu, CellSpot(r, c0, 0, i), p[i], c[i])
    {
      var s := CellSpot(r, c0, 0, i);
      if i < e {
        ColArith(c0, x, i);
        ColArith(c0, i, e);
        assert c[x..e][i - x] == c[i];
        assert Has(mm, CellSpot(r, c0 + x * CellWidth, 0, i - x), c[i]);
        assert Keeps(mm, mu, s);
      } else {
        ColArith(c0, e, i);
        assert Keeps(ms, mm, s);
      }
    }
    forall s: Spot | !(s.row == r && c0 + x * CellWidth <= s.col < c0 + |c| * CellWidth)
      ensures Keeps(ms, mu, s)
    {
      ColArith(c0, x, e);
      ColArith(c0, e, |c|);
      assert Keeps(ms, mm, s) && Keeps(mm, mu, s);
    }
  }

  /** The diff of every row: each cell of `c` is updated where it changed and kept where not. */
  lemma {:induction false} DiffRowsReplay(t: Terminal, r0: int, c0: int, p: seq<seq<Cell>>, c: seq<seq<Cell>>)
    requires Covers(p, c) && t.pen == Empty
    ensures var u := Replay(t, DiffRows(r0, c0, p, c));
      u.pen == Empty && RowsOnly(t.screen, u.screen, r0, r0 + |c|) &&
      forall y, x :: 0 <= y < |c| && 0 <= x < |c[y]| ==>
        Updated(t.screen, u.screen, CellSpot(r0, c0, y, x), PrevRow(p, y)[x], c[y][x])
    decreases |c|
  {
    if |c| > 0 {
      var n := |c| - 1;
      CoversPrefix(p, c, n);
      var rows, row := DiffRows(r0, c0, p, c[..n]), DiffRowFrom(r0 + n, c0, PrevRow(p, n), c[n], 0);
      assert DiffRows(r0, c0, p, c) == rows + row;
      DiffRowsReplay(t, r0, c0, p, c[..n]);
      ReplayAppend(t, rows, row);
      var m := Replay(t, rows);
      DiffRowReplay(m, r0 + n, c0, PrevRow(p, n), c[n], 0);
      RowsThenRow(t.screen, m.screen, Replay(m, row).screen, r0, c0, p, c, n, c[..n], c[n], PrevRow(p, n));
    }
  }

  lemma RowsThenRow(ms: map<Spot, Cell>, mm: map<Spot, Cell>, mu: map<Spot, Cell>, r0: int, c0: int,
                    p: seq<seq<Cell>>, c: seq<seq<Cell>>, n: nat, front: seq<seq<Cell>>, last: seq<Cell>, plast: seq<Cell>)
    requires |c| == n + 1 && front == c[..n] && last == c[n] && plast == PrevRow(p, n)
    requires Covers(p, c) && |last| <= |plast|
    requires forall y, x :: 0 <= y < n && 0 <= x < |front[y]| ==>
      Updated(ms, mm, CellSpot(r0, c0, y, x), PrevRow(p, y)[x], front[y][x])
    requires forall i :: 0 <= i < |last| ==> Updated(mm, mu, CellSpot(r0 + n, c0, 0, i), plast[i], last[i])
    requires AgreeOff(mm, mu, r0 + n, c0, c0 + |last| * CellWidth)
    requires RowsOnly(ms, mm, r0, r0 + n)
    ensures RowsOnly(ms, mu, r0, r0 + n + 1)
    ensures forall y, x :: 0 <= y < |c| && 0 <= x < |c[y]| ==>
      Updated(ms, mu, CellSpot(r0, c0, y, x), PrevRow(p, y)[x], c[y][x])
  {
    forall y, x | 0 <= y < |c| && 0 <= x < |c[y]|
      ensures Updated(ms, mu, CellSpot(r0, c0, y, x), PrevRow(p, y)[x], c[y][x])
    {
      if y < n {
        assert front[y] == c[y];
        assert Updated(ms, mm, CellSpot(r0, c0, y, x), PrevRow(p, y)[x], front[y][x]);
        assert Keeps(mm, mu, CellSpot(r0, c0, y, x));
      } else {
        assert CellSpot(r0, c0, y, x) == CellSpot(r0 + n, c0, 0, x);
        assert Updated(mm, mu, CellSpot(r0 + n, c0, 0, x), plast[x], last[x]);
        assert Keeps(ms, mm, CellSpot(r0 + n, c0, 0, x));
      }
    }
    forall s: Spot | !(r0 <= s.row < r0 + n + 1)
      ensures Keeps(ms, mu, s)
    {
      assert Keeps(ms, mm, s) && Keeps(mm, mu, s);
    }
  }

  /** The same number of rows, each of the same length. */
  predicate SameShape(p: seq<seq<Cell>>, c: seq<seq<Cell>>)
  {
    |p| == |c| && forall y :: 0 <= y < |c| ==> |p[y]| == |c[y]|
  }

  /** After the diff of every row, a screen that showed the previous frame shows the current one. */
  lemma DiffRowsShow(t: Terminal, r0: int, c0: int, p: seq<seq<Cell>>, c: seq<seq<Cell>>)
    requires SameShape(p, c) && t.pen == Empty && Shows(t.screen, r0, c0, p)
    ensures Covers(p, c)
    ensures var u := Replay(t, DiffRows(r0, c0, p, c)); u.pen == Empty && Shows(u.screen, r0, c0, c)
  {
    DiffRowsReplay(t, r0, c0, p, c);
    var m := Replay(t, DiffRows(r0, c0, p, c));
    forall y | 0 <= y < |c|
      ensures ShowsRow(m.screen, r0 + y, c0, c[y])
    {
      assert PrevRow(p, y) == p[y];
      assert ShowsRow(t.screen, r0 + y, c0, p[y]);
      forall x | 0 <= x < |c[y]|
        ensures Has(m.screen, CellSpot(r0 + y, c0, 0, x), c[y][x])
      {
        assert CellSpot(r0 + y, c0, 0, x) == CellSpot(r0, c0, y, x);
        assert Has(t.screen, CellSpot(r0 + y, c0, 0, x), p[y][x]);
        assert Updated(t.screen, m.screen, CellSpot(r0, c0, y, x), PrevRow(p, y)[x], c[y][x]);
      }
    }
  }

  lemma ShowsPrefix(m: map<Spot, Cell>, r0: int, c0: int, g: seq<seq<Cell>>, n: nat)
    requires Shows(m, r0, c0, g) && n <= |g|
    ensures Shows(m, r0, c0, g[..n])
  {
    forall y | 0 <= y < n
      ensures ShowsRow(m, r0 + y, c0, g[..n][y])
    {
      assert g[..n][y] == g[y];
    }
  }

  /**
   * Drawing a diff over a screen that shows the previous frame leaves it showing the current
   * frame.
   */
  lemma DiffFrameShows(t: Terminal, r0: int, c0: int, p: seq<seq<Cell>>, c: seq<seq<Cell>>)
    requires SameShape(p, c) && Shows(t.screen, r0, c0, p)
    ensures Covers(p, c)
    ensures Shows(Replay(t, DiffFrame(r0, c0, p, c)).screen, r0, c0, c)
  {
    DiffRowsShow(Step(t, Reset), r0, c0, p, c);
    if |c| > 0 {
      DiffFrameLast(t, r0, c0, p, c, |c| - 1);
    } else {
      assert c == [];
    }
  }

  /** Repainting the bottom row keeps the frame shown. */
  lemma DiffFrameLast(t: Terminal, r0: int, c0: int, p: seq<seq<Cell>>, c: seq<seq<Cell>>, n: nat)
    requires Covers(p, c) && |c| == n + 1
    requires var m := Replay(Step(t, Reset), DiffRows(r0, c0, p, c));
      m.pen == Empty && Shows(m.screen, r0, c0, c)
    ensures Shows(Replay(t, DiffFrame(r0, c0, p, c)).screen, r0, c0, c)
  {
    DiffFrameSplit(t, r0, c0, p, c, n);
    RepaintLastRow(Replay(Step(t, Reset), DiffRows(r0, c0, p, c)), r0, c0, c, n);
  }

  /** Repainting the bottom row of a shown frame leaves it shown. */
  lemma RepaintLastRow(m: Terminal, r0: int, c0: int, c: seq<seq<Cell>>, n: nat)
    requires |c| == n + 1 && m.pen == Empty && Shows(m.screen, r0, c0, c)
    ensures Shows(Replay(m, Segment(r0 + n, c0, c[n])).screen, r0, c0, c)
  {
    var u := SegmentReplay(m, r0 + n, c0, c[n]);
    ShowsPrefix(m.screen, r0, c0, c, n);
    ShowsExtend(m.screen, u.screen, r0, c0, c, n, c0 + |c[n]| * CellWidth);
  }

  /** A diff frame is the reset, the rows' diffs, then the bottom row's segment. */
  lemma DiffFrameSplit(t: Terminal, r0: int, c0: int, p: seq<seq<Cell>>, c: seq<seq<Cell>>, n: nat)
    requires Covers(p, c) && |c| == n + 1
    ensures Replay(t, DiffFrame(r0, c0, p, c)) ==
      Replay(Replay(Step(t, Reset), DiffRows(r0, c0, p, c)), Segment(r0 + n, c0, c[n]))
  {
    var rows := DiffRows(r0, c0, p, c);
    ReplayOne(t, Reset);
    ReplayAppend(t, [Reset], rows);
    ReplayAppend(t, [Reset] + rows, LastRow(r0, c0, c));
    assert LastRow(r0, c0, c) == Segment(r0 + n, c0, c[n]);
  }

  /** The diff of an empty frame writes the bottom-row repaint of no cells, which paints nothing. */
  lemma EmptyDiffFrame(t: Terminal, r0: int, c0: int, p: seq<seq<Cell>>, c: seq<seq<Cell>>)
    requires |c| == 0
    ensures Covers(p, c) && Replay(t, DiffFrame(r0, c0, p, c)).screen == t.screen
  {
    assert DiffFrame(r0, c0, p, c) == [Reset] + [MoveTo(r0 - 1, c0)] + [Reset];
    ReplayAppend(t, [Reset] + [MoveTo(r0 - 1, c0)], [Reset]);
    ReplayAppend(t, [Reset], [MoveTo(r0 - 1, c0)]);
    ReplayOne(t, Reset);
    ReplayOne(Step(t, Reset), MoveTo(r0 - 1, c0));
  }

  /** The rows' diff, then the bottom row's repaint: the rows above it keep their diff. */
  lemma KeepsAfterLast(ms: map<Spot, Cell>, mm: map<Spot, Cell>, mu: map<Spot, Cell>, r0: int, c0: int,
                       p: seq<seq<Cell>>, c: seq<seq<Cell>>, n: nat)
    requires |c| == n + 1 && Covers(p, c)
    requires forall y, x :: 0 <= y < |c| && 0 <= x < |c[y]| ==>
      Updated(ms, mm, CellSpot(r0, c0, y, x), PrevRow(p, y)[x], c[y][x])
    requires RowsOnly(ms, mm, r0, r0 + |c|)
    requires AgreeOff(mm, mu, r0 + n, c0, c0 + |c[n]| * CellWidth)
    ensures forall y, x :: 0 <= y < n && 0 <= x < |c[y]| ==>
      Updated(ms, mu, CellSpot(r0, c0, y, x), PrevRow(p, y)[x], c[y][x])
    ensures RowsOnly(ms, mu, r0, r0 + |c|)
  {
    forall y, x | 0 <= y < n && 0 <= x < |c[y]|
      ensures Updated(ms, mu, CellSpot(r0, c0, y, x), PrevRow(p, y)[x], c[y][x])
    {
      assert Updated(ms, mm, CellSpot(r0, c0, y, x), PrevRow(p, y)[x], c[y][x]);
      assert Keeps(mm, mu, CellSpot(r0, c0, y, x));
    }
    forall s: Spot | !(r0 <= s.row < r0 + |c|)
      ensures Keeps(ms, mu, s)
    {
      assert Keeps(ms, mm, s) && Keeps(mm, mu, s);
    }
  }

  /**
   * Whatever the terminal showed, a diff frame touches only the rows of the frame, and above
   * the bottom row it paints exactly the cells that changed: a changed cell shows its new colour
   * and an unchanged cell keeps what the screen had there.
   */
  lemma DiffFrameUpdates(t: Terminal, r0: int, c0: int, p: seq<seq<Cell>>, c: seq<seq<Cell>>)
    requires Covers(p, c)
    ensures var u := Replay(t, DiffFrame(r0, c0, p, c));
      RowsOnly(t.screen, u.screen, r0, r0 + |c|) &&
      forall y, x :: 0 <= y < |c| - 1 && 0 <= x < |c[y]| ==>
        Updated(t.screen, u.screen, CellSpot(r0, c0, y, x), PrevRow(p, y)[x], c[y][x])
  {
    if |c| == 0 {
      EmptyDiffFrame(t, r0, c0, p, c);
    } else {
      var n := |c| - 1;
      var m := Replay(Step(t, Reset), DiffRows(r0, c0, p, c));
      DiffRowsReplay(Step(t, Reset), r0, c0, p, c);
      DiffFrameSplit(t, r0, c0, p, c, n);
      var u := SegmentReplay(m, r0 + n, c0, c[n]);
      KeepsAfterLast(t.screen, m.screen, u.screen, r0, c0, p, c, n);
    }
  }

  // ---------------------------------------------------------------------------------------
  // How much a frame writes

  /** The number of drawn cells (`CELL_PIXELS`) in a command sequence. */
  function Glyphs(cmds: seq<Cmd>): nat
    decreases |cmds|
  {
    if |cmds| == 0 then 0 else Glyphs(cmds[..|cmds| - 1]) + (if cmds[|cmds| - 1].Glyph? then 1 else 0)
  }

  lemma {:induction false} GlyphsAppend(a: seq<Cmd>, b: seq<Cmd>)
    ensures Glyphs(a + b) == Glyphs(a) + Glyphs(b)
    decreases |b|
  {
    if |b| == 0 {
      assert a + b == a;
    } else {
      GlyphsAppend(a, b[..|b| - 1]);
      assert (a + b)[..|a + b| - 1] == a + b[..|b| - 1];
    }
  }

  /** Painting `n` cells draws `n` glyphs, whatever the colour changes. */
  lemma {:induction false} CellsGlyphs(cells: seq<Cell>, n: nat)
    requires n <= |cells|
    ensures Glyphs(CellsCmds(cells, n)) == n
  {
    if n > 0 {
      CellsGlyphs(cells, n - 1);
      CellGlyph(cells, n - 1);
      GlyphsAppend(CellsCmds(cells, n - 1), CellCmds(cells, n - 1));
    }
  }

  /** One cell is one glyph, with or without a colour change before it. */
  lemma CellGlyph(cells: seq<Cell>, k: nat)
    requires k < |cells|
    ensures Glyphs(CellCmds(cells, k)) == 1
  {
    var before := if k == 0 then Empty else cells[k - 1];
    var change: seq<Cmd> := if cells[k] != before then [Bg(cells[k])] else [];
    assert Glyphs(change) == 0 by {
      if |change| == 1 {
        assert change[..0] == [];
      }
    }
    GlyphsAppend(change, [Glyph]);
  }

  /** A segment draws one glyph per cell. */
  lemma SegmentGlyphs(r: int, col: int, cells: seq<Cell>)
    ensures Glyphs(Segment(r, col, cells)) == |cells|
  {
    CellsGlyphs(cells, |cells|);
    GlyphsAppend([MoveTo(r, col)], RowCells(cells));
    GlyphsAppend([MoveTo(r, col)] + RowCells(cells), [Reset]);
    assert Glyphs([MoveTo(r, col)]) == 0 by {
      assert [MoveTo(r, col)][..0] == [];
    }
    assert Glyphs([Reset]) == 0 by {
      assert [Reset][..0] == [];
    }
  }

  /** The full repaint of a `width`-wide frame draws every one of its cells once. */
  lemma {:induction false} FullRowsGlyphs(r0: int, c0: int, g: seq<seq<Cell>>, width: nat)
    requires forall y :: 0 <= y < |g| ==> |g[y]| == width
    ensures Glyphs(FullRows(r0, c0, g)) == |g| * width
    decreases |g|
  {
    if |g| > 0 {
      var n := |g| - 1;
      var front := g[..n];
      assert forall y :: 0 <= y < |front| ==> |front[y]| == width;
      FullRowsGlyphs(r0, c0, front, width);
      GlyphsAppend(FullRows(r0, c0, front), FullRow(r0, c0, n, g[n]));
      SegmentGlyphs(r0 + n, c0, g[n]);
      MulStep(n, width);
    }
  }

  lemma MulStep(n: nat, w: nat)
    ensures (n + 1) * w == n * w + w
  {
  }

  lemma FullFrameGlyphs(r0: int, c0: int, g: seq<seq<Cell>>, width: nat)
    requires forall y :: 0 <= y < |g| ==> |g[y]| == width
    ensures Glyphs(FullFrame(r0, c0, g)) == |g| * width
  {
    FullRowsGlyphs(r0, c0, g, width);
    GlyphsAppend([Reset], FullRows(r0, c0, g));
    assert Glyphs([Reset]) == 0 by {
      assert [Reset][..0] == [];
    }
  }

  /** The number of cells `x..` whose colour differs between the two rows. */
  function Changed(p: seq<Cell>, c: seq<Cell>, x: nat): nat
    requires x <= |c| <= |p|
    decreases |c| - x
  {
    if x == |c| then 0 else (if p[x] != c[x] then 1 else 0) + Changed(p, c, x + 1)
  }

  /** The number of cells whose colour differs between the previous and the current frame. */
  function ChangedCells(p: seq<seq<Cell>>, c: seq<seq<Cell>>): nat
    requires Covers(p, c)
    decreases |c|
  {
    if |c| == 0 then 0
    else
      CoversPrefix(p, c, |c| - 1);
      ChangedCells(p, c[..|c| - 1]) + Changed(PrevRow(p, |c| - 1), c[|c| - 1], 0)
  }

  /** Every cell of a changed run counts as changed. */
  lemma {:induction false} RunChanged(p: seq<Cell>, c: seq<Cell>, x: nat)
    requires x <= |c| <= |p|
    ensures Changed(p, c, x) == (RunEnd(p, c, x) - x) + Changed(p, c, RunEnd(p, c, x))
    decreases |c| - x
  {
    if x < |c| && p[x] != c[x] {
      RunChanged(p, c, x + 1);
    }
  }

  /** The diff of a row draws one glyph per changed cell and none for an unchanged one. */
  lemma {:induction false} DiffRowGlyphs(r: int, c0: int, p: seq<Cell>, c: seq<Cell>, x: nat)
    requires x <= |c| <= |p|
    ensures Glyphs(DiffRowFrom(r, c0, p, c, x)) == Changed(p, c, x)
    decreases |c| - x
  {
    if x == |c| {
    } else if p[x] == c[x] {
      DiffRowGlyphs(r, c0, p, c, x + 1);
    } else {
      var e := RunEnd(p, c, x);
      DiffRowGlyphs(r, c0, p, c, e);
      GlyphsAppend(Segment(r, c0 + x * CellWidth, c[x..e]), DiffRowFrom(r, c0, p, c, e));
      SegmentGlyphs(r, c0 + x * CellWidth, c[x..e]);
      RunChanged(p, c, x);
    }
  }

  lemma {:induction false} DiffRowsGlyphs(r0: int, c0: int, p: seq<seq<Cell>>, c: seq<seq<Cell>>)
    requires Covers(p, c)
    ensures Glyphs(DiffRows(r0, c0, p, c)) == ChangedCells(p, c)
    decreases |c|
  {
    if |c| > 0 {
      var n := |c| - 1;
      var front := c[..n];
      CoversPrefix(p, c, n);
      var rows, row := DiffRows(r0, c0, p, front), DiffRowFrom(r0 + n, c0, PrevRow(p, n), c[n], 0);
      assert DiffRows(r0, c0, p, c) == rows + row;
      assert ChangedCells(p, c) == ChangedCells(p, front) + Changed(PrevRow(p, n), c[n], 0);
      DiffRowsGlyphs(r0, c0, p, front);
      DiffRowGlyphs(r0 + n, c0, PrevRow(p, n), c[n], 0);
      GlyphsAppend(rows, row);
    }
  }

  /** A diff frame draws one glyph per changed cell, plus the cells of the bottom row. */
  lemma DiffFrameGlyphs(r0: int, c0: int, p: seq<seq<Cell>>, c: seq<seq<Cell>>)
    requires Covers(p, c)
    ensures Glyphs(DiffFrame(r0, c0, p, c)) == ChangedCells(p, c) + (if |c| == 0 then 0 else |c[|c| - 1]|)
  {
    DiffRowsGlyphs(r0, c0, p, c);
    GlyphsAppend([Reset], DiffRows(r0, c0, p, c));
    GlyphsAppend([Reset] + DiffRows(r0, c0, p, c), LastRow(r0, c0, c));
    SegmentGlyphs(r0 + |c| - 1, c0, if |c| == 0 then [] else c[|c| - 1]);
    assert Glyphs([Reset]) == 0 by {
      assert [Reset][..0] == [];
    }
  }

  // ---------------------------------------------------------------------------------------
  // Redrawing an unchanged frame

  lemma {:induction false} DiffRowSame(r: int, c0: int, row: seq<Cell>, x: nat)
    requires x <= |row|
    ensures DiffRowFrom(r, c0, row, row, x) == []
    decreases |row| - x
  {
    if x < |row| {
      DiffRowSame(r, c0, row, x + 1);
    }
  }

  lemma {:induction false} DiffRowsSame(r0: int, c0: int, p: seq<seq<Cell>>, c: seq<seq<Cell>>)
    requires |c| <= |p| && forall y :: 0 <= y < |c| ==> c[y] == p[y]
    ensures Covers(p, c) && DiffRows(r0, c0, p, c) == []
    decreases |c|
  {
    if |c| > 0 {
      var n := |c| - 1;
      forall y | 0 <= y < n
        ensures c[..n][y] == p[y]
      {
        assert c[..n][y] == c[y];
      }
      DiffRowsSame(r0, c0, p, c[..n]);
      assert PrevRow(p, n) == c[n];
      DiffRowSame(r0 + n, c0, c[n], 0);
    }
  }

  /** Drawing a frame over an identical previous frame writes only the bottom-row repaint. */
  lemma DiffOfSame(r0: int, c0: int, g: seq<seq<Cell>>)
    ensures Covers(g, g) && DiffFrame(r0, c0, g, g) == [Reset] + LastRow(r0, c0, g)
  {
    DiffRowsSame(r0, c0, g, g);
  }
}
