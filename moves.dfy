/** A single ply: a pass, or a piece move from C0 R0 to C1 R1.  Moves are
 *  classified by the Chebyshev distance between the two squares: 1 is an
 *  extend, 2 is a jump, anything else is neither. */
module Moves {
  import opened Geometry

  datatype Move = Pass | Piece(c0: char, r0: char, c1: char, r1: char)
  {
    /** Both squares have an index in the extended grid. */
    predicate InRange()
    {
      Piece? ==> InExtended(c0, r0) && InExtended(c1, r1)
    }

    function ColDelta(): int
      requires Piece?
    {
      c1 as int - c0 as int
    }

    function RowDelta(): int
      requires Piece?
    {
      r1 as int - r0 as int
    }

    /** The Chebyshev distance between source and destination. */
    function Distance(): (d: int)
      requires Piece?
      ensures d >= 0
      ensures d == 0 <==> c0 == c1 && r0 == r1
    {
      var dc := if ColDelta() < 0 then -ColDelta() else ColDelta();
      var dr := if RowDelta() < 0 then -RowDelta() else RowDelta();
      if dc < dr then dr else dc
    }

    predicate IsExtend()
    {
      Piece? && Distance() == 1
    }

    predicate IsJump()
    {
      Piece? && Distance() == 2
    }

    function FromIndex(): int
      requires Piece? && InRange()
    {
      Index(c0, r0)
    }

    function ToIndex(): int
      requires Piece? && InRange()
    {
      Index(c1, r1)
    }
  }

  /** The unit-test moves: a3-b2 and b4-b5 are extends, b2-b4 is a jump and
   *  not an extend, and no piece move is a pass. */
  lemma MoveExamples()
    ensures Piece('a', '3', 'b', '2').IsExtend() && !Piece('a', '3', 'b', '2').Pass?
    ensures Piece('b', '4', 'b', '5').IsExtend()
    ensures Piece('b', '2', 'b', '4').IsJump() && !Piece('b', '2', 'b', '4').IsExtend()
    ensures Pass.Pass? && !Pass.IsExtend() && !Pass.IsJump()
  {
  }
}
