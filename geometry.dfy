/** Square coordinates of the Ataxx board.  The 7x7 playing area (columns
 *  'a'..'g', rows '1'..'7') is embedded in an 11x11 grid with a two-deep
 *  border and stored row-major, so every square within two columns and two
 *  rows of a playing square has an index of its own. */
module Geometry {

  /** Number of squares on a side of the board. */
  const SIDE: int := 7
  /** Length of a side plus the two-deep border on both ends. */
  const EXTENDED_SIDE: int := SIDE + 4
  /** Number of cells of the extended grid. */
  const CELLS: int := EXTENDED_SIDE * EXTENDED_SIDE
  /** Number of consecutive jumps after which the game is over. */
  const JUMP_LIMIT: int := 25

  /** Column 'a'-2 .. 'g'+2 and row '1'-2 .. '7'+2: the squares that have an index. */
  predicate InExtended(c: char, r: char)
  {
    'a' as int - 2 <= c as int <= 'g' as int + 2 && '1' as int - 2 <= r as int <= '7' as int + 2
  }

  /** The squares a1 .. g7 of the playing area. */
  predicate OnBoard(c: char, r: char)
  {
    'a' <= c <= 'g' && '1' <= r <= '7'
  }

  /** The character D positions after C, as the cast (char) (C + D) computes it. */
  function Shift(c: char, d: int): char
    requires 0 <= c as int + d < 0xD800
  {
    (c as int + d) as char
  }

  /** Characters are equal exactly when their codes are. */
  lemma CharEq(a: char, b: char)
    ensures a == b <==> a as int == b as int
  {
  }

  /** Column and row of a cell of the extended grid, counted from 0. */
  function ColOf(sq: int): int
  {
    sq % EXTENDED_SIDE
  }

  function RowOf(sq: int): int
  {
    sq / EXTENDED_SIDE
  }

  /** A cell written as ROW * EXTENDED_SIDE + COL with COL in range has that row and column. */
  lemma Coords(sq: int, row: int, col: int)
    requires 0 <= col < EXTENDED_SIDE && sq == row * EXTENDED_SIDE + col
    ensures ColOf(sq) == col && RowOf(sq) == row
  {
  }

  /** The linearized index of square C R: its number in row-major order.
   *  Column and row can be read back from it, so distinct squares have
   *  distinct indices. */
  function Index(c: char, r: char): (sq: int)
    requires InExtended(c, r)
    ensures 0 <= sq < CELLS
    ensures ColOf(sq) == c as int - 'a' as int + 2 && RowOf(sq) == r as int - '1' as int + 2
  {
    var sq := (r as int - '1' as int + 2) * EXTENDED_SIDE + (c as int - 'a' as int + 2);
    Coords(sq, r as int - '1' as int + 2, c as int - 'a' as int + 2);
    sq
  }

  /** The index of the square DC columns and DR rows away from square SQ.
   *  Around a playing square, a neighbour up to two columns and rows away is
   *  a cell of the grid whose column and row are offset by exactly DC and DR. */
  function Neighbor(sq: int, dc: int, dr: int): (n: int)
    ensures Playable(sq) && -2 <= dc <= 2 && -2 <= dr <= 2 ==>
      0 <= n < CELLS && ColOf(n) == ColOf(sq) + dc && RowOf(n) == RowOf(sq) + dr
  {
    var n := sq + dc + dr * EXTENDED_SIDE;
    if Playable(sq) && -2 <= dc <= 2 && -2 <= dr <= 2 then
      assert sq == RowOf(sq) * EXTENDED_SIDE + ColOf(sq);
      Coords(n, RowOf(sq) + dr, ColOf(sq) + dc);
      n
    else
      n
  }

  /** Cells of the playing area; every other cell is border. */
  predicate Playable(sq: int)
  {
    0 <= sq < CELLS && 2 <= ColOf(sq) <= SIDE + 1 && 2 <= RowOf(sq) <= SIDE + 1
  }

  /** The eight cells around cell A (A itself excluded). */
  predicate Adjacent(a: int, k: int)
  {
    k != a && -1 <= ColOf(k) - ColOf(a) <= 1 && -1 <= RowOf(k) - RowOf(a) <= 1
  }

  /** The values BoardTest checks: a1 is 24, b1 is 25, d7 is 93, g1 is 30. */
  lemma IndexExamples()
    ensures Index('a', '1') == 24 && Index('b', '1') == 25
    ensures Index('d', '7') == 93 && Index('g', '1') == 30
  {
  }

  /** An index names a playing square exactly when its coordinates are on the board. */
  lemma PlayableIndex(c: char, r: char)
    requires InExtended(c, r)
    ensures Playable(Index(c, r)) <==> OnBoard(c, r)
  {
  }

  /** Offset arithmetic on indices agrees with offset arithmetic on coordinates. */
  lemma NeighborIndex(c: char, r: char, dc: int, dr: int)
    requires OnBoard(c, r) && -2 <= dc <= 2 && -2 <= dr <= 2
    ensures InExtended(Shift(c, dc), Shift(r, dr))
    ensures Neighbor(Index(c, r), dc, dr) == Index(Shift(c, dc), Shift(r, dr))
  {
    assert Shift(c, dc) as int == c as int + dc && Shift(r, dr) as int == r as int + dr;
  }

  /** A cell is fixed by its column and row. */
  lemma CoordsDetermineCell(a: int, b: int)
    requires 0 <= a && 0 <= b && ColOf(a) == ColOf(b) && RowOf(a) == RowOf(b)
    ensures a == b
  {
    assert a == RowOf(a) * EXTENDED_SIDE + ColOf(a);
    assert b == RowOf(b) * EXTENDED_SIDE + ColOf(b);
  }
}
