/** The static catalog of the seven tetromino kinds with their four precomputed rotations. */
module Pieces {
  import opened Constants

  datatype Kind = I | O | T | S | Z | J | L

  /** An offset from the top-left of the piece's 4x4 bounding box. */
  datatype Offset = Offset(dx: int, dy: int)

  /** A rotation state: the offsets of the piece's cells. */
  type Rotation = seq<Offset>

  datatype PieceDef = PieceDef(kind: Kind, color: Color, rots: seq<Rotation>, spawnOffset: Offset)

  /** The seven kinds, in the order the randomizer lists them. */
  const AllKinds: seq<Kind> := [I, O, T, S, Z, J, L]

  function Off(dx: int, dy: int): Offset { Offset(dx, dy) }

  /**
   * The `PIECES` table: each entry is keyed by its own kind, has a non-zero colour (so a locked
   * cell of it is a block) and four rotations of four offsets each.
   */
  function Piece(k: Kind): (def: PieceDef)
    ensures def.kind == k && def.color != 0
    ensures |def.rots| == 4 && forall r :: 0 <= r < 4 ==> |def.rots[r]| == 4
  {
    match k
    case I => PieceDef(I, 6, [
        [Off(0, 1), Off(1, 1), Off(2, 1), Off(3, 1)],
        [Off(2, 0), Off(2, 1), Off(2, 2), Off(2, 3)],
        [Off(0, 2), Off(1, 2), Off(2, 2), Off(3, 2)],
        [Off(1, 0), Off(1, 1), Off(1, 2), Off(1, 3)]], Off(3, -1))
    case O => PieceDef(O, 3, [
        [Off(1, 0), Off(2, 0), Off(1, 1), Off(2, 1)],
        [Off(1, 0), Off(2, 0), Off(1, 1), Off(2, 1)],
        [Off(1, 0), Off(2, 0), Off(1, 1), Off(2, 1)],
        [Off(1, 0), Off(2, 0), Off(1, 1), Off(2, 1)]], Off(3, 0))
    case T => PieceDef(T, 5, [
        [Off(1, 0), Off(0, 1), Off(1, 1), Off(2, 1)],
        [Off(1, 0), Off(1, 1), Off(1, 2), Off(2, 1)],
        [Off(0, 1), Off(1, 1), Off(2, 1), Off(1, 2)],
        [Off(1, 0), Off(0, 1), Off(1, 1), Off(1, 2)]], Off(3, 0))
    case S => PieceDef(S, 2, [
        [Off(1, 0), Off(2, 0), Off(0, 1), Off(1, 1)],
        [Off(1, 0), Off(1, 1), Off(2, 1), Off(2, 2)],
        [Off(1, 1), Off(2, 1), Off(0, 2), Off(1, 2)],
        [Off(0, 0), Off(0, 1), Off(1, 1), Off(1, 2)]], Off(3, 0))
    case Z => PieceDef(Z, 1, [
        [Off(0, 0), Off(1, 0), Off(1, 1), Off(2, 1)],
        [Off(2, 0), Off(1, 1), Off(2, 1), Off(1, 2)],
        [Off(0, 1), Off(1, 1), Off(1, 2), Off(2, 2)],
        [Off(1, 0), Off(0, 1), Off(1, 1), Off(0, 2)]], Off(3, 0))
    case J => PieceDef(J, 4, [
        [Off(0, 0), Off(0, 1), Off(1, 1), Off(2, 1)],
        [Off(1, 0), Off(2, 0), Off(1, 1), Off(1, 2)],
        [Off(0, 1), Off(1, 1), Off(2, 1), Off(2, 2)],
        [Off(1, 0), Off(1, 1), Off(0, 2), Off(1, 2)]], Off(3, 0))
    case L => PieceDef(L, 3, [
        [Off(2, 0), Off(0, 1), Off(1, 1), Off(2, 1)],
        [Off(1, 0), Off(1, 1), Off(1, 2), Off(2, 2)],
        [Off(0, 1), Off(1, 1), Off(2, 1), Off(0, 2)],
        [Off(0, 0), Off(1, 0), Off(1, 1), Off(1, 2)]], Off(3, 0))
  }

  /** An offset inside the 4x4 box the active piece works in. */
  predicate InBox(o: Offset)
  {
    0 <= o.dx <= 3 && 0 <= o.dy <= 3
  }

  /** A tetromino rotation: four pairwise distinct cells, all in the 4x4 box. */
  predicate IsTetromino(r: Rotation)
  {
    |r| == 4 &&
    (forall i :: 0 <= i < 4 ==> InBox(r[i])) &&
    (forall i, j :: 0 <= i < j < 4 ==> r[i] != r[j])
  }

  /** What the active piece relies on: four rotations, each a tetromino. */
  predicate WellFormed(def: PieceDef)
  {
    |def.rots| == 4 && forall r :: 0 <= r < 4 ==> IsTetromino(def.rots[r])
  }

  /** `getRotation`: the rotation selected by `rot & 3`. */
  function GetRotation(def: PieceDef, rot: int): (r: Rotation)
    requires |def.rots| == 4
    ensures r in def.rots
    ensures r == def.rots[rot % 4]
  {
    AndThreeIsMod4(rot);
    def.rots[AndThree(rot)]
  }

  /** Rotation indices `r` and `r + 4` select the same rotation, negative ones included. */
  lemma GetRotationPeriodic(def: PieceDef, rot: int)
    requires |def.rots| == 4
    ensures GetRotation(def, rot + 4) == GetRotation(def, rot)
  {
    AndThreePeriodic(rot);
  }

  /** Every table entry has 4 rotations of 4 distinct in-box offsets, and its `kind` is its key. */
  lemma {:induction false} CatalogWellFormed(k: Kind)
    ensures WellFormed(Piece(k))
    ensures Piece(k).kind == k
    ensures |Piece(k).rots| == 4
    ensures forall r :: 0 <= r < 4 ==> |Piece(k).rots[r]| == 4
  {
    var rs := Piece(k).rots;
    forall r | 0 <= r < 4
      ensures IsTetromino(rs[r])
    {
      TetrominoByCases(rs[r]);
    }
  }

  /** The quantifier-free form of `IsTetromino`, which the table can be checked against directly. */
  lemma TetrominoByCases(r: Rotation)
    requires |r| == 4
    requires InBox(r[0]) && InBox(r[1]) && InBox(r[2]) && InBox(r[3])
    requires r[0] != r[1] && r[0] != r[2] && r[0] != r[3]
    requires r[1] != r[2] && r[1] != r[3] && r[2] != r[3]
    ensures IsTetromino(r)
  {
  }

  /** The cells of a rotation, as a set. */
  function CellSet(r: Rotation): set<Offset>
  {
    set o | o in r
  }

  /** The four O rotations occupy the same cells. */
  lemma ORotationsCoincide()
    ensures forall r :: 0 <= r < 4 ==> CellSet(Piece(O).rots[r]) == CellSet(Piece(O).rots[0])
  {
  }

  /** No other kind is rotation-symmetric in that way: its first two rotations differ as sets. */
  lemma OthersRotate(k: Kind)
    requires k != O
    ensures CellSet(Piece(k).rots[1]) != CellSet(Piece(k).rots[0])
  {
    var r0, r1 := Piece(k).rots[0], Piece(k).rots[1];
    var w := match k
      case I => Off(0, 1)
      case T => Off(0, 1)
      case S => Off(0, 1)
      case Z => Off(0, 0)
      case J => Off(0, 0)
      case L => Off(0, 1);
    assert w in r0 && w !in r1;
    assert w in CellSet(r0) - CellSet(r1);
  }

  /** `AllKinds` lists each kind exactly once. */
  lemma AllKindsDistinct()
    ensures |AllKinds| == 7
    ensures forall k: Kind :: k in AllKinds
    ensures forall i, j :: 0 <= i < j < 7 ==> AllKinds[i] != AllKinds[j]
  {
    forall k: Kind
      ensures k in AllKinds
    {
      match k
      case I => assert AllKinds[0] == k;
      case O => assert AllKinds[1] == k;
      case T => assert AllKinds[2] == k;
      case S => assert AllKinds[3] == k;
      case Z => assert AllKinds[4] == k;
      case J => assert AllKinds[5] == k;
      case L => assert AllKinds[6] == k;
    }
  }
}
