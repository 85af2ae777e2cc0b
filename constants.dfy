/** Playfield dimensions, colour codes and the JavaScript bit operation the game relies on. */
module Constants {

  /** Columns of the playfield. */
  const BoardWidth: nat := 10
  /** Rows of the playfield, hidden rows included. */
  const BoardHeight: nat := 21
  /** Rows that are shown on screen. */
  const VisibleHeight: nat := 20
  /** Rows above the visible area, used as a spawn buffer. */
  const HiddenRows: nat := BoardHeight - VisibleHeight
  /** Terminal characters per drawn cell (a cell is three spaces). */
  const CellWidth: nat := 3

  /** The eight basic terminal colours, 0 (black) to 7 (white). */
  type Color = c: int | 0 <= c < 8

  /** A grid cell: empty, or a settled block (or background) of some colour. */
  datatype Cell = Empty | Filled(color: Color)

  /**
   * JavaScript's conversion of a number to a 32-bit integer (`ToInt32`), as its two's-complement
   * bit pattern read as an unsigned number.
   */
  function Int32Bits(n: int): (u: nat)
    ensures u < 0x1_0000_0000
  {
    n % 0x1_0000_0000
  }

  /** Bitwise AND of two bit patterns, bit by bit from the least significant bit. */
  function BitAnd(a: nat, b: nat): nat
  {
    if a == 0 || b == 0 then 0
    else 2 * BitAnd(a / 2, b / 2) + (if a % 2 == 1 && b % 2 == 1 then 1 else 0)
  }

  /**
   * JavaScript's `n & 3` on an integral number `n`: both operands go through `ToInt32`, and
   * since 3 has a clear sign bit, so has the result, which is therefore non-negative.
   */
  function AndThree(n: int): (r: int)
  {
    BitAnd(Int32Bits(n), 3)
  }

  /** `n & 3` is the Euclidean remainder of `n` modulo 4, negative `n` included. */
  lemma AndThreeIsMod4(n: int)
    ensures AndThree(n) == n % 4
  {
    var u := Int32Bits(n);
    assert u % 4 == n % 4;
    if u != 0 {
      assert BitAnd(u / 2, 1) == (u / 2) % 2;
      LowTwoBits(u);
    }
  }

  /** The two lowest bits of `u`, read one at a time, make up `u % 4`. */
  lemma LowTwoBits(u: nat)
    ensures 2 * ((u / 2) % 2) + u % 2 == u % 4
  {
    var q, r := u / 4, u % 4;
    assert u == 4 * q + r;
    assert u / 2 == 2 * q + r / 2;
    assert u % 2 == r % 2;
  }

  /** `r & 3` has period 4. */
  lemma AndThreePeriodic(r: int)
    ensures AndThree(r + 4) == AndThree(r)
  {
    calc {
      AndThree(r + 4);
    == { AndThreeIsMod4(r + 4); }
      (r + 4) % 4;
    ==
      r % 4;
    == { AndThreeIsMod4(r); }
      AndThree(r);
    }
  }
}
