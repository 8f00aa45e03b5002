/** What a piece move does to the grid and what it leaves on the undo stack.
 *  A move puts the mover's colour on the destination, empties the source of
 *  a jump, and infects the opponent pieces on the eight cells around the
 *  destination.  The undo record of the move maps every cell it changes to
 *  the colour that cell had before. */
module Effects {
  import opened Geometry
  import opened Pieces
  import opened Moves
  import opened Rules

  /** The grid after the piece lands on the destination and, for a jump,
   *  leaves its source (the destination is written first). */
  function Placed(g: seq<PieceColor>, m: Move, who: Side): (p: seq<PieceColor>)
    requires |g| == CELLS && m.Piece? && m.InRange()
    ensures |p| == CELLS
  {
    if m.IsJump() then g[m.ToIndex() := who][m.FromIndex() := Empty] else g[m.ToIndex() := who]
  }

  /** The grid after every opponent piece on the eight cells around TO has
   *  turned to WHO. */
  function Infected(g: seq<PieceColor>, to: int, who: Side): (f: seq<PieceColor>)
    requires |g| == CELLS
    ensures |f| == CELLS
  {
    seq(CELLS, k requires 0 <= k < CELLS => if Adjacent(to, k) && g[k] == Opposite(who) then who else g[k])
  }

  /** The grid after WHO plays the piece move M. */
  function Apply(g: seq<PieceColor>, m: Move, who: Side): (a: seq<PieceColor>)
    requires |g| == CELLS && m.Piece? && m.InRange()
    ensures |a| == CELLS
  {
    Infected(Placed(g, m, who), m.ToIndex(), who)
  }

  /** The cells a move by WHO may change: its destination, the source of a
   *  jump, and the opponent pieces around the destination. */
  predicate Touched(g: seq<PieceColor>, m: Move, who: Side, k: int)
    requires |g| == CELLS && m.Piece? && m.InRange()
  {
    k == m.ToIndex() || (m.IsJump() && k == m.FromIndex()) || (0 <= k < CELLS && Adjacent(m.ToIndex(), k) && g[k] == Opposite(who))
  }

  /** The undo record of the move: each touched cell with its colour before the move. */
  function Frame(g: seq<PieceColor>, m: Move, who: Side): map<int, PieceColor>
    requires |g| == CELLS && m.Piece? && m.InRange()
  {
    map k | 0 <= k < CELLS && Touched(g, m, who, k) :: g[k]
  }

  /** Cells named in an undo record are playing squares and hold a colour
   *  (never Border), so restoring them keeps a grid well formed. */
  predicate ValidFrame(f: map<int, PieceColor>)
  {
    forall k | k in f :: Playable(k) && f[k] != Border
  }

  /** The record of placing the piece: the destination and, for a jump, the
   *  source, each with its colour before the move. */
  function PlacedRecord(g: seq<PieceColor>, m: Move): map<int, PieceColor>
    requires |g| == CELLS && m.Piece? && m.InRange()
  {
    if m.IsJump() then map[m.ToIndex() := g[m.ToIndex()], m.FromIndex() := g[m.FromIndex()]]
    else map[m.ToIndex() := g[m.ToIndex()]]
  }

  /** The record flipPieces adds: each opponent piece around TO with its colour. */
  function FlipRecord(g: seq<PieceColor>, to: int, who: Side): map<int, PieceColor>
    requires |g| == CELLS
  {
    map k | 0 <= k < CELLS && Adjacent(to, k) && g[k] == Opposite(who) :: g[k]
  }

  /** The grid after writing back every cell of the undo record F. */
  function Restore(g: seq<PieceColor>, f: map<int, PieceColor>): (r: seq<PieceColor>)
    ensures |r| == |g|
  {
    seq(|g|, k requires 0 <= k < |g| => if k in f then f[k] else g[k])
  }

  /** The undo record kept while a move is applied, after SQ is set to V and
   *  had colour PRIOR: a cell already recorded with a colour and now emptied
   *  is recorded as EMPTY, every other write records the prior colour. */
  function RecordUndo(top: map<int, PieceColor>, sq: int, v: PieceColor, prior: PieceColor): (r: map<int, PieceColor>)
    ensures sq in r && r.Keys == top.Keys + {sq}
    ensures forall k | k in top && k != sq :: r[k] == top[k]
  {
    if sq in top && top[sq] != Border && v == Empty then top[sq := Empty] else top[sq := prior]
  }

  // ------------------------------------------------------------------ lemmas

  /** The source and destination of an extend or jump are distinct cells, and
   *  the source of a jump is not adjacent to its destination. */
  lemma StepGeometry(m: Move)
    requires m.Piece? && m.InRange() && (m.IsExtend() || m.IsJump())
    ensures m.FromIndex() != m.ToIndex()
    ensures m.IsJump() ==> !Adjacent(m.ToIndex(), m.FromIndex())
    ensures m.IsExtend() ==> Adjacent(m.ToIndex(), m.FromIndex())
  {
  }

  /** Cell by cell, in terms of the grid before the move: the destination
   *  holds the mover, the source of a jump is empty, the opponent pieces
   *  around the destination are the mover's, and nothing else changes. */
  lemma ApplyAt(g: seq<PieceColor>, m: Move, who: Side, k: int)
    requires |g| == CELLS && m.Piece? && m.InRange() && (m.IsExtend() || m.IsJump()) && 0 <= k < CELLS
    ensures Apply(g, m, who)[k] ==
      if k == m.ToIndex() then who
      else if m.IsJump() && k == m.FromIndex() then Empty
      else if Adjacent(m.ToIndex(), k) && g[k] == Opposite(who) then who
      else g[k]
  {
    StepGeometry(m);
  }

  /** Placing the piece leaves the cells around the destination as they were. */
  lemma PlacedKeepsAround(g: seq<PieceColor>, m: Move, who: Side)
    requires |g| == CELLS && m.Piece? && m.InRange() && (m.IsExtend() || m.IsJump())
    ensures FlipRecord(Placed(g, m, who), m.ToIndex(), who) == FlipRecord(g, m.ToIndex(), who)
  {
    StepGeometry(m);
    var p := Placed(g, m, who);
    forall k | 0 <= k < CELLS && Adjacent(m.ToIndex(), k)
      ensures p[k] == g[k]
    {
    }
  }

  /** The record assembled while the move is made (destination, then the
   *  source of a jump, then the infections, each with its colour at the
   *  time of writing) is the undo record of the move. */
  lemma FrameAssembled(g: seq<PieceColor>, m: Move, who: Side)
    requires |g| == CELLS && m.Piece? && m.InRange() && (m.IsExtend() || m.IsJump())
    ensures
            PlacedRecord(g, m) + FlipRecord(Placed(g, m, who), m.ToIndex(), who) == Frame(g, m, who)
  {
    PlacedKeepsAround(g, m, who);
    StepGeometry(m);
    var placed, flips := PlacedRecord(g, m), FlipRecord(g, m.ToIndex(), who);
    assert (placed + flips).Keys == Frame(g, m, who).Keys;
  }

  /** On a legal move, the undo record names exactly the cells the move
   *  changes, each with its colour before the move. */
  lemma FrameRecordsChanges(g: seq<PieceColor>, m: Move, who: Side)
    requires |g| == CELLS && m.Piece? && m.InRange() && LegalPiece(g, who, m)
    ensures forall k :: k in Frame(g, m, who) <==> 0 <= k < CELLS && Apply(g, m, who)[k] != g[k]
    ensures forall k | k in Frame(g, m, who) :: Frame(g, m, who)[k] == g[k]
  {
    forall k | 0 <= k < CELLS
      ensures k in Frame(g, m, who) <==> Apply(g, m, who)[k] != g[k]
    {
      ApplyAt(g, m, who, k);
    }
  }

  /** Writing the undo record back onto the grid after the move gives the
   *  grid before the move. */
  lemma UndoRestores(g: seq<PieceColor>, m: Move, who: Side)
    requires |g| == CELLS && m.Piece? && m.InRange() && LegalPiece(g, who, m)
    ensures Restore(Apply(g, m, who), Frame(g, m, who)) == g
  {
    var a, f := Apply(g, m, who), Frame(g, m, who);
    FrameRecordsChanges(g, m, who);
    forall k | 0 <= k < CELLS
      ensures Restore(a, f)[k] == g[k]
    {
    }
  }

  /** A legal move keeps the grid well formed and leaves a valid undo record. */
  lemma ApplyWellFormed(g: seq<PieceColor>, m: Move, who: Side)
    requires WellFormed(g) && m.Piece? && m.InRange() && LegalPiece(g, who, m)
    ensures WellFormed(Apply(g, m, who))
    ensures ValidFrame(Frame(g, m, who))
  {
    forall k | 0 <= k < CELLS
      ensures Apply(g, m, who)[k] == Border <==> !Playable(k)
    {
      ApplyAt(g, m, who, k);
    }
    FrameRecordsChanges(g, m, who);
  }

  /** Restoring a valid record keeps a grid well formed. */
  lemma RestoreWellFormed(g: seq<PieceColor>, f: map<int, PieceColor>)
    requires WellFormed(g) && ValidFrame(f)
    ensures WellFormed(Restore(g, f))
  {
  }
}
