/** The playfield: a grid of settled cells with bounded access and line clearing. */
module Boards {
  import opened Constants

  /** A row of the playfield, left to right. */
  type Row = seq<Cell>

  /** A grid of the board's shape: `BoardHeight` rows (row 0 at the top) of `BoardWidth` cells. */
  ghost predicate IsGrid(g: seq<Row>)
  {
    |g| == BoardHeight && forall y :: 0 <= y < |g| ==> |g[y]| == BoardWidth
  }

  /** Whether (x, y) lies on the board. */
  predicate InBounds(x: int, y: int)
  {
    0 <= x < BoardWidth && 0 <= y < BoardHeight
  }

  function EmptyRow(): (r: Row)
    ensures |r| == BoardWidth && forall x :: 0 <= x < |r| ==> r[x] == Empty
  {
    seq(BoardWidth, _ => Empty)
  }

  function EmptyRows(k: nat): (rs: seq<Row>)
    ensures |rs| == k && forall y :: 0 <= y < k ==> rs[y] == EmptyRow()
  {
    seq(k, _ => EmptyRow())
  }

  /** A row is full when none of its cells is empty (colour 0 counts as a block here). */
  predicate Full(row: Row)
  {
    forall x :: 0 <= x < |row| ==> row[x] != Empty
  }

  /** The number of full rows among `rows`. */
  function CountFull(rows: seq<Row>): (n: nat)
    ensures n <= |rows|
  {
    if rows == [] then 0
    else CountFull(rows[..|rows| - 1]) + (if Full(rows[|rows| - 1]) then 1 else 0)
  }

  /** The rows that are not full, in their original order. */
  function NonFull(rows: seq<Row>): seq<Row>
  {
    if rows == [] then []
    else NonFull(rows[..|rows| - 1]) + (if Full(rows[|rows| - 1]) then [] else [rows[|rows| - 1]])
  }

  /** The grid after removing every full row: as many empty rows on top, then the survivors. */
  function Cleared(g: seq<Row>): seq<Row>
  {
    EmptyRows(CountFull(g)) + NonFull(g)
  }

  /** Surviving rows are rows of the input that are not full; with the full ones they add up. */
  lemma {:induction false} NonFullFacts(rows: seq<Row>)
    ensures |NonFull(rows)| + CountFull(rows) == |rows|
    ensures forall r :: r in NonFull(rows) ==> r in rows && !Full(r)
  {
    if rows != [] {
      var init := rows[..|rows| - 1];
      NonFullFacts(init);
      assert forall r :: r in init ==> r in rows;
    }
  }

  /** Both counts distribute over concatenation. */
  lemma {:induction false} SplitCounts(a: seq<Row>, b: seq<Row>)
    ensures CountFull(a + b) == CountFull(a) + CountFull(b)
    ensures NonFull(a + b) == NonFull(a) + NonFull(b)
  {
    if b != [] {
      var b' := b[..|b| - 1];
      assert (a + b)[..|a + b| - 1] == a + b';
      SplitCounts(a, b');
    } else {
      assert a + b == a;
    }
  }

  /** Clearing keeps the board's shape. */
  lemma ClearedShape(g: seq<Row>)
    requires IsGrid(g)
    ensures IsGrid(Cleared(g))
  {
    NonFullFacts(g);
    var c := Cleared(g);
    forall y | 0 <= y < |c|
      ensures |c[y]| == BoardWidth
    {
      if y >= CountFull(g) {
        var r := c[y];
        assert r == NonFull(g)[y - CountFull(g)];
        assert r in NonFull(g);
        var i :| 0 <= i < |g| && g[i] == r;
      }
    }
  }

  /** After clearing, the top rows (one per cleared line) are empty and no row is full. */
  lemma ClearedTopAndNoFullRow(g: seq<Row>)
    requires IsGrid(g)
    ensures forall y :: 0 <= y < CountFull(g) ==> Cleared(g)[y] == EmptyRow()
    ensures forall y :: 0 <= y < |Cleared(g)| ==> !Full(Cleared(g)[y])
  {
    NonFullFacts(g);
    var c := Cleared(g);
    forall y | 0 <= y < |c|
      ensures !Full(c[y])
    {
      if y < CountFull(g) {
        assert c[y] == EmptyRow() && EmptyRow()[0] == Empty;
      } else {
        assert c[y] == NonFull(g)[y - CountFull(g)];
        assert c[y] in NonFull(g);
      }
    }
  }

  /** Every surviving row moves down by exactly the number of full rows below it. */
  lemma ClearedRowMovesDown(g: seq<Row>, i: nat)
    requires i < |g| && !Full(g[i])
    ensures i + CountFull(g[i + 1..]) < |Cleared(g)|
    ensures Cleared(g)[i + CountFull(g[i + 1..])] == g[i]
  {
    var pre, post := g[..i], g[i + 1..];
    assert g == pre + [g[i]] + post;
    SplitCounts(pre + [g[i]], post);
    SplitCounts(pre, [g[i]]);
    assert CountFull([g[i]]) == 0 by { assert [g[i]][..0] == []; }
    assert NonFull([g[i]]) == [g[i]] by { assert [g[i]][..0] == []; }
    NonFullFacts(pre);
    NonFullFacts(g);
    var k := |NonFull(pre)|;
    assert NonFull(g) == NonFull(pre) + [g[i]] + NonFull(post);
    assert NonFull(g)[k] == g[i];
    assert i + CountFull(post) == CountFull(g) + k;
  }

  /** Without a full row, clearing reports 0 and changes nothing. */
  lemma {:induction false} ClearedWithoutFullRows(g: seq<Row>)
    requires forall y :: 0 <= y < |g| ==> !Full(g[y])
    ensures CountFull(g) == 0 && Cleared(g) == g
  {
    if g != [] {
      var init := g[..|g| - 1];
      ClearedWithoutFullRows(init);
      assert g == init + [g[|g| - 1]];
    }
  }

  /** Clearing twice in a row: the second pass finds nothing, so `Cleared` is idempotent. */
  lemma ClearedIdempotent(g: seq<Row>)
    requires IsGrid(g)
    ensures CountFull(Cleared(g)) == 0 && Cleared(Cleared(g)) == Cleared(g)
  {
    ClearedTopAndNoFullRow(g);
    ClearedWithoutFullRows(Cleared(g));
  }

  /**
   * The grid while the top-down scan is at row `y`: the rows above `y` compacted (the full ones
   * removed and as many empty rows on top), the rest untouched.
   */
  function Scanned(g0: seq<Row>, y: nat): (grid: seq<Row>)
    requires y <= |g0|
    ensures |grid| == |g0|
  {
    NonFullFacts(g0[..y]);
    EmptyRows(CountFull(g0[..y])) + NonFull(g0[..y]) + g0[y..]
  }

  /** While scanning, the rows above `y` are as long as the compacted prefix says, and row `y` is untouched. */
  lemma ScannedSplit(g0: seq<Row>, y: nat)
    requires y < |g0|
    ensures var prefix := EmptyRows(CountFull(g0[..y])) + NonFull(g0[..y]);
      |prefix| == y && Scanned(g0, y) == prefix + [g0[y]] + g0[y + 1..] && Scanned(g0, y)[y] == g0[y]
  {
    NonFullFacts(g0[..y]);
    assert g0[y..] == [g0[y]] + g0[y + 1..];
  }

  /** A full row `y` is spliced out and an empty row pushed on top: one more row is compacted. */
  lemma ClearStepFull(g0: seq<Row>, y: nat)
    requires y < |g0| && Full(g0[y])
    ensures CountFull(g0[..y]) + 1 == CountFull(g0[..y + 1])
    ensures [EmptyRow()] + (Scanned(g0, y)[..y] + Scanned(g0, y)[y + 1..]) == Scanned(g0, y + 1)
  {
    var k := CountFull(g0[..y]);
    var prefix := EmptyRows(k) + NonFull(g0[..y]);
    ScannedSplit(g0, y);
    assert g0[..y + 1][..y] == g0[..y];
    var grid := Scanned(g0, y);
    assert grid[..y] == prefix;
    assert grid[y + 1..] == g0[y + 1..];
    assert [EmptyRow()] + EmptyRows(k) == EmptyRows(k + 1);
  }

  /** A row `y` that is not full stays where it is, and is compacted already. */
  lemma ClearStepKept(g0: seq<Row>, y: nat)
    requires y < |g0| && !Full(g0[y])
    ensures CountFull(g0[..y]) == CountFull(g0[..y + 1])
    ensures Scanned(g0, y) == Scanned(g0, y + 1)
  {
    ScannedSplit(g0, y);
    assert g0[..y + 1][..y] == g0[..y];
    assert NonFull(g0[..y + 1]) == NonFull(g0[..y]) + [g0[y]];
  }

  class Board {
    const width: nat := BoardWidth
    const height: nat := BoardHeight
    /** The cells, `grid[y][x]`, row 0 at the top (hidden rows first). */
    var grid: seq<Row>

    ghost predicate Valid()
      reads this
    {
      IsGrid(grid)
    }

    /** A new board has every cell empty. */
    constructor ()
      ensures Valid() && grid == EmptyRows(BoardHeight)
    {
      grid := EmptyRows(BoardHeight);
    }

    /** Empties every cell. */
    method Reset()
      requires Valid()
      modifies this
      ensures Valid() && grid == EmptyRows(BoardHeight)
    {
      var y := 0;
      while y < height
        invariant 0 <= y <= BoardHeight && IsGrid(grid)
        invariant forall y' :: 0 <= y' < y ==> grid[y'] == EmptyRow()
      {
        var x := 0;
        while x < width
          invariant 0 <= x <= BoardWidth && IsGrid(grid)
          invariant forall y' :: 0 <= y' < y ==> grid[y'] == EmptyRow()
          invariant forall x' :: 0 <= x' < x ==> grid[y][x'] == Empty
        {
          grid := grid[y := grid[y][x := Empty]];
          x := x + 1;
        }
        assert grid[y] == EmptyRow();
        y := y + 1;
      }
    }

    /** The cell at (x, y); any position off the board reads as the solid colour 1. */
    function Get(x: int, y: int): (c: Cell)
      reads this
      requires Valid()
      ensures !InBounds(x, y) ==> c == Filled(1)
      ensures InBounds(x, y) ==> c == grid[y][x]
    {
      if x < 0 || x >= width || y < 0 || y >= height then Filled(1) else grid[y][x]
    }

    /** Overwrites the cell at (x, y); a position off the board is ignored. */
    method Set(x: int, y: int, c: Cell)
      requires Valid()
      modifies this
      ensures Valid()
      ensures grid == if InBounds(x, y) then old(grid)[y := old(grid)[y][x := c]] else old(grid)
      ensures forall x', y' :: Get(x', y') == if InBounds(x, y) && x' == x && y' == y then c else old(Get(x', y'))
    {
      if x < 0 || x >= width || y < 0 || y >= height {
        return;
      }
      grid := grid[y := grid[y][x := c]];
    }

    /**
     * Removes every full row, scanning from the top. After a removal the index is not
     * re-checked: the rows shifted into it have been checked already.
     */
    method ClearLines() returns (cleared: nat)
      requires Valid()
      modifies this
      ensures Valid()
      ensures cleared == CountFull(old(grid))
      ensures grid == Cleared(old(grid))
    {
      ghost var g0 := grid;
      cleared := 0;
      var y := 0;
      while y < height
        invariant 0 <= y <= BoardHeight
        invariant cleared == CountFull(g0[..y])
        invariant grid == Scanned(g0, y)
      {
        ScannedSplit(g0, y);
        if Full(grid[y]) {
          ClearStepFull(g0, y);
          // remove row y, then add an empty row at the top
          grid := [EmptyRow()] + (grid[..y] + grid[y + 1..]);
          cleared := cleared + 1;
        } else {
          ClearStepKept(g0, y);
        }
        y := y + 1;
      }
      assert g0[..BoardHeight] == g0;
      ClearedShape(g0);
    }

    /** Whether some cell of the hidden rows is occupied. */
    method HasBlocksInHidden() returns (b: bool)
      requires Valid()
      ensures b <==> exists y, x :: 0 <= y < HiddenRows && 0 <= x < BoardWidth && grid[y][x] != Empty
    {
      var y := 0;
      while y < HiddenRows
        invariant 0 <= y <= HiddenRows
        invariant forall y', x :: 0 <= y' < y && 0 <= x < BoardWidth ==> grid[y'][x] == Empty
      {
        if exists x :: 0 <= x < |grid[y]| && grid[y][x] != Empty {
          return true;
        }
        y := y + 1;
      }
      return false;
    }
  }
}
