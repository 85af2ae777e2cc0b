/** The falling piece: position, rotation, collision against the board, moves and kicks. */
module ActivePieces {
  import opened Constants
  import opened Pieces
  import opened Boards

  /** An absolute board position. */
  datatype Pos = Pos(x: int, y: int)

  /** JavaScript truthiness of a board cell: empty and colour 0 are both falsy. */
  predicate Truthy(c: Cell)
  {
    c.Filled? && c.color != 0
  }

  /**
   * The reference meaning of "a piece cell at p is blocked on grid g": off either side,
   * at or below the bottom, or on the grid over a truthy cell. Rows above the grid (y < 0)
   * are never looked up.
   */
  predicate Hits(g: seq<Row>, p: Pos)
    requires IsGrid(g)
  {
    p.x < 0 || p.x >= BoardWidth || p.y >= BoardHeight || (p.y >= 0 && Truthy(g[p.y][p.x]))
  }

  /** The absolute cells of a piece of kind `def` with origin (x, y) and rotation `rot`. */
  function CellsAt(def: PieceDef, x: int, y: int, rot: int): (cs: seq<Pos>)
    requires |def.rots| == 4
    ensures |cs| == |def.rots[rot % 4]|
    ensures forall i :: 0 <= i < |cs| ==>
      cs[i] == Pos(x + def.rots[rot % 4][i].dx, y + def.rots[rot % 4][i].dy)
  {
    var shape := GetRotation(def, rot);
    seq(|shape|, i requires 0 <= i < |shape| => Pos(x + shape[i].dx, y + shape[i].dy))
  }

  /**
   * The collision scan over `cs[i..]`. A cell inside the board is looked up directly in the
   * grid, which is what `Board.Get` returns there.
   */
  function AnyBlockedFrom(g: seq<Row>, cs: seq<Pos>, i: nat): bool
    requires IsGrid(g) && i <= |cs|
    decreases |cs| - i
  {
    if i == |cs| then false
    else
      var c := cs[i];
      if c.x < 0 || c.x >= BoardWidth || c.y >= BoardHeight then true
      else if c.y >= 0 && Truthy(g[c.y][c.x]) then true
      else AnyBlockedFrom(g, cs, i + 1)
  }

  /** Whether a piece of kind `def` at (x, y) with rotation `rot` collides with grid `g`. */
  function CollidesAt(g: seq<Row>, def: PieceDef, x: int, y: int, rot: int): bool
    requires IsGrid(g) && |def.rots| == 4
  {
    AnyBlockedFrom(g, CellsAt(def, x, y, rot), 0)
  }

  /** The scan finds a blocked cell exactly when one of `cs[i..]` hits. */
  lemma {:induction false} ScanMeaning(g: seq<Row>, cs: seq<Pos>, i: nat)
    requires IsGrid(g) && i <= |cs|
    ensures AnyBlockedFrom(g, cs, i) <==> exists j :: i <= j < |cs| && Hits(g, cs[j])
    decreases |cs| - i
  {
    if i < |cs| {
      ScanMeaning(g, cs, i + 1);
    }
  }

  /**
   * Collision means: some cell of the piece is off either side, at or below the bottom, or on
   * the grid over a truthy cell; cells above the grid are checked against the sides only.
   */
  lemma CollidesMeaning(g: seq<Row>, def: PieceDef, x: int, y: int, rot: int)
    requires IsGrid(g) && WellFormed(def)
    ensures |CellsAt(def, x, y, rot)| == 4
    ensures CollidesAt(g, def, x, y, rot) <==>
      exists i :: 0 <= i < 4 && Hits(g, CellsAt(def, x, y, rot)[i])
  {
    assert IsTetromino(def.rots[rot % 4]);
    ScanMeaning(g, CellsAt(def, x, y, rot), 0);
  }

  /** A non-colliding piece lies above the bottom of the board. */
  lemma FreeIsAboveBottom(g: seq<Row>, def: PieceDef, x: int, y: int, rot: int)
    requires IsGrid(g) && WellFormed(def)
    requires !CollidesAt(g, def, x, y, rot)
    ensures y < BoardHeight
  {
    var cs := CellsAt(def, x, y, rot);
    CollidesMeaning(g, def, x, y, rot);
    assert !Hits(g, cs[0]);
  }

  /**
   * A piece that is free at (x, y) but collides one row lower rests on something: one of its
   * cells has the bottom of the board or a truthy cell directly beneath it.
   */
  lemma RestsOnSomething(g: seq<Row>, def: PieceDef, x: int, y: int, rot: int)
    requires IsGrid(g) && WellFormed(def)
    requires !CollidesAt(g, def, x, y, rot)
    requires CollidesAt(g, def, x, y + 1, rot)
    ensures exists i :: 0 <= i < 4 && RestsOn(g, CellsAt(def, x, y, rot)[i])
  {
    var cs, below := CellsAt(def, x, y, rot), CellsAt(def, x, y + 1, rot);
    CollidesMeaning(g, def, x, y, rot);
    CollidesMeaning(g, def, x, y + 1, rot);
    var j :| 0 <= j < 4 && Hits(g, below[j]);
    assert !Hits(g, cs[j]);
    assert below[j] == Pos(cs[j].x, cs[j].y + 1);
  }

  /** A cell on the board whose square directly underneath is the floor or a truthy cell. */
  predicate RestsOn(g: seq<Row>, c: Pos)
    requires IsGrid(g)
  {
    0 <= c.x < BoardWidth && c.y < BoardHeight &&
    (c.y + 1 == BoardHeight || (0 <= c.y + 1 < BoardHeight && Truthy(g[c.y + 1][c.x])))
  }

  /** The wall kicks, tried in this order: left, right, up. */
  const Kicks: seq<(int, int)> := [(-1, 0), (1, 0), (0, -1)]

  /** The positions `Rotate` tries: the origin unchanged, then each kick applied to it. */
  function Candidates(x: int, y: int): seq<Pos>
  {
    [Pos(x, y)] + seq(|Kicks|, i requires 0 <= i < |Kicks| => Pos(x + Kicks[i].0, y + Kicks[i].1))
  }

  /** The candidates in order: in place, one left, one right, one up. */
  lemma CandidatesInOrder(x: int, y: int)
    ensures Candidates(x, y) == [Pos(x, y), Pos(x - 1, y), Pos(x + 1, y), Pos(x, y - 1)]
  {
  }

  /** The index of the first candidate from `i` on where the piece fits, or `|cands|` if none. */
  function FirstFree(g: seq<Row>, def: PieceDef, cands: seq<Pos>, rot: int, i: nat): (k: nat)
    requires IsGrid(g) && |def.rots| == 4 && i <= |cands|
    ensures i <= k <= |cands|
    decreases |cands| - i
  {
    if i == |cands| then i
    else if !CollidesAt(g, def, cands[i].x, cands[i].y, rot) then i
    else FirstFree(g, def, cands, rot, i + 1)
  }

  /** Every candidate before the first free one collides, and the first free one does not. */
  lemma {:induction false} FirstFreeMeaning(g: seq<Row>, def: PieceDef, cands: seq<Pos>, rot: int, i: nat)
    requires IsGrid(g) && |def.rots| == 4 && i <= |cands|
    ensures var k := FirstFree(g, def, cands, rot, i);
      (forall j :: i <= j < k ==> CollidesAt(g, def, cands[j].x, cands[j].y, rot)) &&
      (k < |cands| ==> !CollidesAt(g, def, cands[k].x, cands[k].y, rot))
    decreases |cands| - i
  {
    if i < |cands| && CollidesAt(g, def, cands[i].x, cands[i].y, rot) {
      FirstFreeMeaning(g, def, cands, rot, i + 1);
    }
  }

  /** `FirstFree` from the start is `k` when the candidates before `k` collide and `k` does not. */
  lemma {:induction false} FirstFreeIs(g: seq<Row>, def: PieceDef, cands: seq<Pos>, rot: int, k: nat)
    requires IsGrid(g) && |def.rots| == 4 && k <= |cands|
    requires forall j :: 0 <= j < k ==> CollidesAt(g, def, cands[j].x, cands[j].y, rot)
    requires k < |cands| ==> !CollidesAt(g, def, cands[k].x, cands[k].y, rot)
    ensures FirstFree(g, def, cands, rot, 0) == k
  {
    var i := k;
    while i > 0
      invariant 0 <= i <= k
      invariant FirstFree(g, def, cands, rot, i) == k
    {
      i := i - 1;
    }
  }

  /** The rotation index after turning `rot` once in direction `dir` (1: clockwise, otherwise back). */
  function Turned(rot: int, dir: int): (r: int)
    ensures 0 <= r < 4
  {
    (rot + (if dir == 1 then 1 else 3)) % 4
  }

  /** `Turned` is the `(rot + 1 or 3) & 3` the source computes, negative `rot` included. */
  lemma TurnedIsAndThree(rot: int, dir: int)
    ensures Turned(rot, dir) == AndThree(rot + (if dir == 1 then 1 else 3))
  {
    AndThreeIsMod4(rot + (if dir == 1 then 1 else 3));
  }

  /** Turning clockwise and then back restores a rotation index in range. */
  lemma TurnedBack(rot: int)
    requires 0 <= rot < 4
    ensures Turned(Turned(rot, 1), -1) == rot && Turned(Turned(rot, -1), 1) == rot
  {
  }

  /** Four turns in the same direction come back to the start. */
  lemma FourTurns(rot: int, dir: int)
    requires 0 <= rot < 4
    ensures Turned(Turned(Turned(Turned(rot, dir), dir), dir), dir) == rot
  {
  }

  /**
   * The number of rows a piece at (x, y) can fall before it would collide: it falls while the
   * next row down is free.
   */
  function DropDistance(g: seq<Row>, def: PieceDef, x: int, y: int, rot: int): nat
    requires IsGrid(g) && WellFormed(def)
    decreases BoardHeight - y
  {
    if CollidesAt(g, def, x, y + 1, rot) then 0
    else
      FreeIsAboveBottom(g, def, x, y + 1, rot);
      1 + DropDistance(g, def, x, y + 1, rot)
  }

  /**
   * The piece can be lowered by every amount from 1 to the drop distance without colliding,
   * and one row more collides.
   */
  lemma {:induction false} DropDistanceMeaning(g: seq<Row>, def: PieceDef, x: int, y: int, rot: int)
    requires IsGrid(g) && WellFormed(def)
    ensures var d := DropDistance(g, def, x, y, rot);
      (forall y' :: y < y' <= y + d ==> !CollidesAt(g, def, x, y', rot)) &&
      CollidesAt(g, def, x, y + d + 1, rot)
    decreases BoardHeight - y
  {
    if !CollidesAt(g, def, x, y + 1, rot) {
      FreeIsAboveBottom(g, def, x, y + 1, rot);
      DropDistanceMeaning(g, def, x, y + 1, rot);
    }
  }

  class ActivePiece {
    /** Origin of the piece's 4x4 box. */
    var x: int
    var y: int
    /** Rotation index, 0 to 3. */
    var rot: int
    const def: PieceDef

    ghost predicate Valid()
      reads this
    {
      WellFormed(def) && 0 <= rot < 4
    }

    /** A piece at its spawn position; the rotation is reduced with `& 3`. */
    constructor (def: PieceDef, spawnX: int, spawnY: int, rot: int := 0)
      requires WellFormed(def)
      ensures Valid()
      ensures this.def == def && x == spawnX && y == spawnY && this.rot == rot % 4
    {
      this.def := def;
      this.x := spawnX;
      this.y := spawnY;
      AndThreeIsMod4(rot);
      this.rot := AndThree(rot);
    }

    /** The four board cells the piece occupies. */
    function Cells(): (cs: seq<Pos>)
      reads this
      requires Valid()
      ensures |cs| == 4
      ensures forall i :: 0 <= i < 4 ==> cs[i] == Pos(x + def.rots[rot][i].dx, y + def.rots[rot][i].dy)
    {
      assert IsTetromino(def.rots[rot]);
      CellsAt(def, x, y, rot)
    }

    /** Whether the piece, where it is, overlaps a wall, the floor or a truthy cell. */
    function Collides(board: Board): (r: bool)
      reads this, board
      requires Valid() && board.Valid()
      ensures r <==> exists i :: 0 <= i < 4 && Hits(board.grid, Cells()[i])
    {
      CollidesMeaning(board.grid, def, x, y, rot);
      assert Cells() == CellsAt(def, x, y, rot);
      CollidesAt(board.grid, def, x, y, rot)
    }

    /** Translates by (dx, dy) if the piece fits there; otherwise nothing changes. */
    method Move(board: Board, dx: int, dy: int) returns (ok: bool)
      requires Valid() && board.Valid()
      modifies this
      ensures Valid() && rot == old(rot)
      ensures ok == !CollidesAt(board.grid, def, old(x) + dx, old(y) + dy, rot)
      ensures ok ==> x == old(x) + dx && y == old(y) + dy
      ensures !ok ==> x == old(x) && y == old(y)
    {
      x := x + dx;
      y := y + dy;
      if Collides(board) {
        x := x - dx;
        y := y - dy;
        return false;
      }
      return true;
    }

    /**
     * Turns the piece once; if it does not fit, tries the kicks in order and keeps the first
     * that fits. If none fits, the rotation is undone.
     */
    method Rotate(board: Board, dir: int) returns (ok: bool)
      requires Valid() && board.Valid()
      modifies this
      ensures Valid()
      ensures var k := FirstFree(board.grid, def, Candidates(old(x), old(y)), Turned(old(rot), dir), 0);
        ok == (k < 4) &&
        (ok ==> rot == Turned(old(rot), dir) && Pos(x, y) == Candidates(old(x), old(y))[k]) &&
        (!ok ==> rot == old(rot) && x == old(x) && y == old(y))
      ensures ok ==> !CollidesAt(board.grid, def, x, y, rot)
    {
      ghost var cands := Candidates(x, y);
      var previous := rot;
      rot := Turned(rot, dir);
      if Collides(board) {
        for i := 0 to |Kicks|
          invariant rot == Turned(previous, dir)
          invariant x == cands[0].x && y == cands[0].y
          invariant forall j :: 0 <= j <= i ==> CollidesAt(board.grid, def, cands[j].x, cands[j].y, rot)
        {
          var (dx, dy) := Kicks[i];
          x := x + dx;
          y := y + dy;
          assert Pos(x, y) == cands[i + 1];
          if !Collides(board) {
            FirstFreeIs(board.grid, def, cands, rot, i + 1);
            return true;
          }
          x := x - dx;
          y := y - dy;
        }
        FirstFreeIs(board.grid, def, cands, rot, 4);
        rot := previous;
        return false;
      }
      FirstFreeIs(board.grid, def, cands, rot, 0);
      return true;
    }

    /** How many rows the piece can fall; the piece itself is left where it was. */
    method HardDropDistance(board: Board) returns (d: nat)
      requires Valid() && board.Valid()
      modifies this
      ensures Valid() && x == old(x) && y == old(y) && rot == old(rot)
      ensures d == DropDistance(board.grid, def, x, y, rot)
    {
      d := 0;
      var oldY := y;
      while true
        invariant x == old(x) && rot == old(rot) && y == oldY + d
        invariant d + DropDistance(board.grid, def, x, y, rot) == DropDistance(board.grid, def, x, oldY, rot)
        decreases BoardHeight - y
      {
        y := y + 1;
        if Collides(board) {
          y := y - 1;
          break;
        }
        FreeIsAboveBottom(board.grid, def, x, y, rot);
        d := d + 1;
      }
      // restore the original position; the caller moves by d if it wants to
      y := oldY;
    }
  }
}
