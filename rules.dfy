/** The rules of Ataxx as functions of a grid: piece counts, move legality,
 *  the moves the search generates (in its scan order), the effect of a move
 *  with its infections, the undo record it leaves, and the end of the game.
 *  The Board class proves its loops and updates against these. */
module Rules {
  import opened Geometry
  import opened Pieces
  import opened Moves
  import opened Outcomes

  /** A grid of the extended board in which exactly the border cells hold Border. */
  predicate WellFormed(g: seq<PieceColor>)
  {
    |g| == CELLS && forall k :: 0 <= k < CELLS ==> (g[k] == Border <==> !Playable(k))
  }

  /** The number of cells holding C, counted as numPieces scans the whole grid. */
  function Count(g: seq<PieceColor>, c: PieceColor): (n: nat)
    ensures n <= |g|
  {
    if g == [] then 0 else Count(g[..|g| - 1], c) + (if g[|g| - 1] == c then 1 else 0)
  }

  /** The cells holding C. */
  function Positions(g: seq<PieceColor>, c: PieceColor): set<int>
  {
    set k | 0 <= k < |g| && g[k] == c
  }

  /** The count is the number of cells that hold the colour. */
  lemma {:induction false} CountPositions(g: seq<PieceColor>, c: PieceColor)
    ensures Count(g, c) == |Positions(g, c)|
  {
    if g != [] {
      var n := |g| - 1;
      var front := g[..n];
      CountPositions(front, c);
      var rest := if g[n] == c then {n} else {};
      forall k
        ensures k in Positions(g, c) <==> k in Positions(front, c) + rest
      {
        if 0 <= k < n {
          assert g[k] == front[k];
        }
      }
      assert Positions(g, c) == Positions(front, c) + rest;
      assert n !in Positions(front, c);
    }
  }

  // ---------------------------------------------------------------- legality

  /** A piece move is legal iff its source holds the colour on move, its
   *  destination is EMPTY (pieces, blocks and border cells are rejected) and
   *  it is an extend or a jump. */
  predicate LegalPiece(g: seq<PieceColor>, toMove: Side, m: Move)
    requires |g| == CELLS && m.Piece? && m.InRange()
  {
    g[m.FromIndex()] == toMove && g[m.ToIndex()] == Empty && (m.IsExtend() || m.IsJump())
  }

  /** The move from square C R by I columns and J rows is legal. */
  predicate MoveFrom(g: seq<PieceColor>, toMove: Side, c: char, r: char, i: int, j: int)
    requires |g| == CELLS && OnBoard(c, r) && -2 <= i <= 2 && -2 <= j <= 2
  {
    LegalPiece(g, toMove, Piece(c, r, Shift(c, i), Shift(r, j)))
  }

  /** Some square holding WHO has a destination within two columns and two
   *  rows that is legal for the player on move. */
  ghost predicate CanMove(g: seq<PieceColor>, toMove: Side, who: PieceColor)
    requires |g| == CELLS
  {
    exists c: char, r: char, i: int, j: int ::
      OnBoard(c, r) && -2 <= i <= 2 && -2 <= j <= 2 && g[Index(c, r)] == who && MoveFrom(g, toMove, c, r, i, j)
  }

  /** Legality of a possibly null move: null never, a pass iff the player on
   *  move cannot move, a piece move as LegalPiece says. */
  ghost predicate Legal(g: seq<PieceColor>, toMove: Side, m: Option<Move>)
    requires |g| == CELLS && (m.Some? ==> m.value.InRange())
  {
    match m
    case None => false
    case Some(Pass) => !CanMove(g, toMove, toMove)
    case Some(mv) => LegalPiece(g, toMove, mv)
  }

  /** The game is over after JUMP_LIMIT consecutive jumps, when neither
   *  colour can move, or when a colour has no pieces. */
  ghost predicate GameOver(g: seq<PieceColor>, toMove: Side, jumps: int)
    requires |g| == CELLS
  {
    JUMP_LIMIT <= jumps || (!CanMove(g, toMove, Blue) && !CanMove(g, toMove, Red))
    || Count(g, Red) == 0 || Count(g, Blue) == 0
  }

  // ------------------------------------------------------- move generation
  //
  // The scans below also name |g| in their decreases clauses.  It never
  // changes, but it stops the verifier from unfolding a scan whose row,
  // column or offset is a literal all the way down for every grid.

  /** Legal moves from C R with column offset I and row offsets -2 .. J-1, in
   *  that order. */
  function RowOffsetMoves(g: seq<PieceColor>, toMove: Side, c: char, r: char, i: int, j: int): seq<Move>
    requires |g| == CELLS && OnBoard(c, r) && -2 <= i <= 2 && -2 <= j <= 3
    decreases j + 2, |g|
  {
    if j == -2 then []
    else
      RowOffsetMoves(g, toMove, c, r, i, j - 1)
      + (if MoveFrom(g, toMove, c, r, i, j - 1) then [Piece(c, r, Shift(c, i), Shift(r, j - 1))] else [])
  }

  /** Legal moves from C R with column offsets -2 .. I-1: the column offset
   *  is the outer loop and the row offset the inner one. */
  function SquareMoves(g: seq<PieceColor>, toMove: Side, c: char, r: char, i: int): seq<Move>
    requires |g| == CELLS && OnBoard(c, r) && -2 <= i <= 3
    decreases i + 2, |g|
  {
    if i == -2 then [] else SquareMoves(g, toMove, c, r, i - 1) + RowOffsetMoves(g, toMove, c, r, i - 1, 3)
  }

  /** Moves from the squares of row R that hold P, in columns 'a' up to but
   *  excluding COL. */
  function RowScan(g: seq<PieceColor>, toMove: Side, p: PieceColor, r: char, col: char): seq<Move>
    requires |g| == CELLS && '1' <= r <= '7' && 'a' <= col <= 'h'
    decreases col as int - 'a' as int, |g|
  {
    if col == 'a' then []
    else
      var c := Shift(col, -1);
      RowScan(g, toMove, p, r, c) + (if g[Index(c, r)] == p then SquareMoves(g, toMove, c, r, 3) else [])
  }

  /** Moves from the rows above ROW, scanned from row 7 downwards. */
  function RowsScan(g: seq<PieceColor>, toMove: Side, p: PieceColor, row: char): seq<Move>
    requires |g| == CELLS && '0' <= row <= '7'
    decreases '7' as int - row as int, |g|
  {
    if row == '7' then []
    else
      var r := Shift(row, 1);
      RowsScan(g, toMove, p, r) + RowScan(g, toMove, p, r, 'h')
  }

  /** The candidate list of the search: rows 7 to 1, columns a to g, and for
   *  each square holding P its legal moves in offset order. */
  function Candidates(g: seq<PieceColor>, toMove: Side, p: PieceColor): seq<Move>
    requires |g| == CELLS
  {
    RowsScan(g, toMove, p, '0')
  }

  // One step of each generation loop, as the loops over rows (downwards),
  // columns and offsets (upwards) take it.

  lemma RowsScanStep(g: seq<PieceColor>, toMove: Side, p: PieceColor, row: char)
    requires |g| == CELLS && '1' <= row <= '7'
    ensures RowsScan(g, toMove, p, Shift(row, -1)) == RowsScan(g, toMove, p, row) + RowScan(g, toMove, p, row, 'h')
  {
    assert Shift(Shift(row, -1), 1) == row;
  }

  lemma RowScanStep(g: seq<PieceColor>, toMove: Side, p: PieceColor, row: char, col: char)
    requires |g| == CELLS && '1' <= row <= '7' && 'a' <= col <= 'g'
    ensures RowScan(g, toMove, p, row, Shift(col, 1))
      == RowScan(g, toMove, p, row, col) + (if g[Index(col, row)] == p then SquareMoves(g, toMove, col, row, 3) else [])
  {
    assert Shift(Shift(col, 1), -1) == col;
  }

  lemma SquareMovesStep(g: seq<PieceColor>, toMove: Side, c: char, r: char, i: int)
    requires |g| == CELLS && OnBoard(c, r) && -2 <= i <= 2
    ensures SquareMoves(g, toMove, c, r, i + 1) == SquareMoves(g, toMove, c, r, i) + RowOffsetMoves(g, toMove, c, r, i, 3)
  {
  }

  lemma RowOffsetMovesStep(g: seq<PieceColor>, toMove: Side, c: char, r: char, i: int, j: int)
    requires |g| == CELLS && OnBoard(c, r) && -2 <= i <= 2 && -2 <= j <= 2
    ensures RowOffsetMoves(g, toMove, c, r, i, j + 1)
      == RowOffsetMoves(g, toMove, c, r, i, j) + (if MoveFrom(g, toMove, c, r, i, j) then [Piece(c, r, Shift(c, i), Shift(r, j))] else [])
  {
  }

  /** Source and destination are within two columns and two rows. */
  predicate Near(m: Move)
    requires m.Piece?
  {
    -2 <= m.ColDelta() <= 2 && -2 <= m.RowDelta() <= 2
  }

  lemma {:induction false} RowOffsetMovesMember(g: seq<PieceColor>, toMove: Side, c: char, r: char, i: int, j: int, m: Move)
    requires |g| == CELLS && OnBoard(c, r) && -2 <= i <= 2 && -2 <= j <= 3
    ensures m in RowOffsetMoves(g, toMove, c, r, i, j) <==>
      m.Piece? && m.c0 == c && m.r0 == r && m.c1 as int == c as int + i
      && r as int - 2 <= m.r1 as int < r as int + j && LegalPiece(g, toMove, m)
    decreases j + 2
  {
    if j != -2 {
      RowOffsetMovesMember(g, toMove, c, r, i, j - 1, m);
      var mv := Piece(c, r, Shift(c, i), Shift(r, j - 1));
      var last := if MoveFrom(g, toMove, c, r, i, j - 1) then [mv] else [];
      assert RowOffsetMoves(g, toMove, c, r, i, j) == RowOffsetMoves(g, toMove, c, r, i, j - 1) + last;
      assert m in last <==> m == mv && LegalPiece(g, toMove, mv);
      assert m == mv <==>
        m.Piece? && m.c0 == c && m.r0 == r && m.c1 as int == c as int + i && m.r1 as int == r as int + j - 1;
    }
  }

  lemma {:induction false} SquareMovesMember(g: seq<PieceColor>, toMove: Side, c: char, r: char, i: int, m: Move)
    requires |g| == CELLS && OnBoard(c, r) && -2 <= i <= 3
    ensures m in SquareMoves(g, toMove, c, r, i) <==>
      m.Piece? && m.c0 == c && m.r0 == r && c as int - 2 <= m.c1 as int < c as int + i
      && r as int - 2 <= m.r1 as int <= r as int + 2 && LegalPiece(g, toMove, m)
    decreases i + 2
  {
    if i != -2 {
      SquareMovesMember(g, toMove, c, r, i - 1, m);
      RowOffsetMovesMember(g, toMove, c, r, i - 1, 3, m);
      assert m in SquareMoves(g, toMove, c, r, i) <==>
        m in SquareMoves(g, toMove, c, r, i - 1) || m in RowOffsetMoves(g, toMove, c, r, i - 1, 3);
    }
  }

  /** M leaves a square holding P for a destination within two columns and
   *  two rows, and is legal for the player on move. */
  ghost predicate Emits(g: seq<PieceColor>, toMove: Side, p: PieceColor, m: Move)
    requires |g| == CELLS && m.Piece? && OnBoard(m.c0, m.r0)
  {
    Near(m) && g[Index(m.c0, m.r0)] == p && LegalPiece(g, toMove, m)
  }

  lemma SquareEmits(g: seq<PieceColor>, toMove: Side, p: PieceColor, c: char, r: char, m: Move)
    requires |g| == CELLS && OnBoard(c, r) && m.Piece? && m.c0 == c && m.r0 == r
    ensures (g[Index(c, r)] == p && m in SquareMoves(g, toMove, c, r, 3)) <==> Emits(g, toMove, p, m)
  {
    SquareMovesMember(g, toMove, c, r, 3, m);
    assert m.ColDelta() == m.c1 as int - c as int && m.RowDelta() == m.r1 as int - r as int;
  }

  /** The moves RowScan adds for column C of row R are those emitted from C R. */
  lemma RowScanUnfold(g: seq<PieceColor>, toMove: Side, p: PieceColor, r: char, col: char, m: Move)
    requires |g| == CELLS && '1' <= r <= '7' && 'a' < col <= 'h'
    ensures var c := Shift(col, -1);
      m in RowScan(g, toMove, p, r, col) <==>
      m in RowScan(g, toMove, p, r, c) || (m.Piece? && m.r0 == r && m.c0 == c && Emits(g, toMove, p, m))
  {
    var c := Shift(col, -1);
    var here := if g[Index(c, r)] == p then SquareMoves(g, toMove, c, r, 3) else [];
    assert m in RowScan(g, toMove, p, r, col) <==> m in RowScan(g, toMove, p, r, c) || m in here by {
      assert RowScan(g, toMove, p, r, col) == RowScan(g, toMove, p, r, c) + here;
    }
    assert m in here <==> m.Piece? && m.r0 == r && m.c0 == c && Emits(g, toMove, p, m) by {
      SquareMovesMember(g, toMove, c, r, 3, m);
      if m.Piece? && m.r0 == r && m.c0 == c {
        SquareEmits(g, toMove, p, c, r, m);
      }
    }
  }

  lemma {:induction false} RowScanMember(g: seq<PieceColor>, toMove: Side, p: PieceColor, r: char, col: char, m: Move)
    requires |g| == CELLS && '1' <= r <= '7' && 'a' <= col <= 'h'
    ensures m in RowScan(g, toMove, p, r, col) <==>
      m.Piece? && m.r0 == r && 'a' <= m.c0 < col && Emits(g, toMove, p, m)
    decreases col as int - 'a' as int
  {
    if col != 'a' {
      var c := Shift(col, -1);
      assert c as int == col as int - 1 && 'a' < col;
      RowScanUnfold(g, toMove, p, r, col, m);
      RowScanMember(g, toMove, p, r, c, m);
      if m.Piece? {
        CharEq(m.c0, c);
      }
    }
  }

  /** The moves RowsScan adds for row R are those of the row scan of R. */
  lemma RowsScanUnfold(g: seq<PieceColor>, toMove: Side, p: PieceColor, row: char, m: Move)
    requires |g| == CELLS && '0' <= row < '7'
    ensures var r := Shift(row, 1);
      m in RowsScan(g, toMove, p, row) <==>
      m in RowsScan(g, toMove, p, r) || (m.Piece? && m.r0 == r && 'a' <= m.c0 < 'h' && Emits(g, toMove, p, m))
  {
    var r := Shift(row, 1);
    assert m in RowsScan(g, toMove, p, row) <==> m in RowsScan(g, toMove, p, r) || m in RowScan(g, toMove, p, r, 'h') by {
      assert RowsScan(g, toMove, p, row) == RowsScan(g, toMove, p, r) + RowScan(g, toMove, p, r, 'h');
    }
    RowScanMember(g, toMove, p, r, 'h', m);
  }

  lemma {:induction false} RowsScanMember(g: seq<PieceColor>, toMove: Side, p: PieceColor, row: char, m: Move)
    requires |g| == CELLS && '0' <= row <= '7'
    ensures m in RowsScan(g, toMove, p, row) <==>
      m.Piece? && row < m.r0 <= '7' && 'a' <= m.c0 <= 'g' && Emits(g, toMove, p, m)
    decreases '7' as int - row as int
  {
    if row != '7' {
      var r := Shift(row, 1);
      assert r as int == row as int + 1 && row < '7';
      RowsScanUnfold(g, toMove, p, row, m);
      RowsScanMember(g, toMove, p, r, m);
      if m.Piece? {
        CharEq(m.r0, r);
      }
    }
  }


  /** Every generated move is legal, starts on a square holding P and stays
   *  within two columns and rows; and every such move is generated. */
  lemma CandidatesMember(g: seq<PieceColor>, toMove: Side, p: PieceColor, m: Move)
    requires |g| == CELLS
    ensures m in Candidates(g, toMove, p) <==>
      m.Piece? && OnBoard(m.c0, m.r0) && Emits(g, toMove, p, m)
  {
    RowsScanMember(g, toMove, p, '0', m);
  }

  /** An extend or a jump moves at most two columns and two rows. */
  lemma StepIsNear(m: Move)
    requires m.Piece? && (m.IsExtend() || m.IsJump())
    ensures Near(m)
  {
  }

  /** On a well-formed grid the candidates for the player on move are exactly
   *  its legal piece moves. */
  lemma CandidatesExact(g: seq<PieceColor>, toMove: Side, m: Move)
    requires WellFormed(g)
    ensures m in Candidates(g, toMove, toMove) <==> m.Piece? && m.InRange() && LegalPiece(g, toMove, m)
  {
    CandidatesMember(g, toMove, toMove, m);
    if m.Piece? && m.InRange() && LegalPiece(g, toMove, m) {
      assert OnBoard(m.c0, m.r0) by {
        assert g[Index(m.c0, m.r0)] == toMove;
        PlayableIndex(m.c0, m.r0);
      }
      StepIsNear(m);
    }
  }

  /** Only the player on move has candidates. */
  lemma CandidatesOfOther(g: seq<PieceColor>, toMove: Side, p: PieceColor)
    requires |g| == CELLS && p != toMove
    ensures Candidates(g, toMove, p) == []
  {
    if Candidates(g, toMove, p) != [] {
      CandidatesMember(g, toMove, p, Candidates(g, toMove, p)[0]);
    }
  }

  lemma CanMoveHasCandidate(g: seq<PieceColor>, toMove: Side, who: PieceColor)
    requires |g| == CELLS && CanMove(g, toMove, who)
    ensures Candidates(g, toMove, who) != []
  {
    var c: char, r: char, i: int, j: int :|
      OnBoard(c, r) && -2 <= i <= 2 && -2 <= j <= 2 && g[Index(c, r)] == who && MoveFrom(g, toMove, c, r, i, j);
    var m := Piece(c, r, Shift(c, i), Shift(r, j));
    assert Emits(g, toMove, who, m);
    CandidatesMember(g, toMove, who, m);
  }

  lemma CandidateGivesCanMove(g: seq<PieceColor>, toMove: Side, who: PieceColor)
    requires |g| == CELLS && Candidates(g, toMove, who) != []
    ensures CanMove(g, toMove, who)
  {
    var m := Candidates(g, toMove, who)[0];
    assert m.Piece? && OnBoard(m.c0, m.r0) && Emits(g, toMove, who, m) by {
      CandidatesMember(g, toMove, who, m);
    }
    var c, r, i, j := m.c0, m.r0, m.ColDelta(), m.RowDelta();
    assert -2 <= i <= 2 && -2 <= j <= 2 && g[Index(c, r)] == who by {
      assert Near(m);
    }
    PieceFromDeltas(m);
    MoveFromGivesCanMove(g, toMove, who, c, r, i, j);
  }

  /** canMove(WHO) holds iff the scan for WHO yields a move; and only the
   *  colour on move can have one. */
  lemma CanMoveIffCandidates(g: seq<PieceColor>, toMove: Side, who: PieceColor)
    requires |g| == CELLS
    ensures CanMove(g, toMove, who) <==> Candidates(g, toMove, who) != []
    ensures CanMove(g, toMove, who) ==> who == toMove
  {
    if CanMove(g, toMove, who) {
      CanMoveHasCandidate(g, toMove, who);
      if who != toMove {
        CandidatesOfOther(g, toMove, who);
      }
    }
    if Candidates(g, toMove, who) != [] {
      CandidateGivesCanMove(g, toMove, who);
    }
  }

  /** A nearby piece move is rebuilt from its source and its offsets. */
  lemma PieceFromDeltas(m: Move)
    requires m.Piece? && OnBoard(m.c0, m.r0) && Near(m)
    ensures Piece(m.c0, m.r0, Shift(m.c0, m.ColDelta()), Shift(m.r0, m.RowDelta())) == m
  {
    assert Shift(m.c0, m.ColDelta()) as int == m.c1 as int;
    assert Shift(m.r0, m.RowDelta()) as int == m.r1 as int;
    CharEq(Shift(m.c0, m.ColDelta()), m.c1);
    CharEq(Shift(m.r0, m.RowDelta()), m.r1);
  }

  /** A legal move from a square holding WHO witnesses that WHO can move. */
  lemma MoveFromGivesCanMove(g: seq<PieceColor>, toMove: Side, who: PieceColor, c: char, r: char, i: int, j: int)
    requires |g| == CELLS && OnBoard(c, r) && -2 <= i <= 2 && -2 <= j <= 2
    requires g[Index(c, r)] == who && MoveFrom(g, toMove, c, r, i, j)
    ensures CanMove(g, toMove, who)
  {
  }

  /** Square C R offers WHO no legal move: it does not hold WHO, or no
   *  offset from it is legal. */
  predicate Stuck(g: seq<PieceColor>, toMove: Side, who: PieceColor, c: char, r: char)
    requires |g| == CELLS && OnBoard(c, r)
  {
    g[Index(c, r)] != who || forall i, j | -2 <= i <= 2 && -2 <= j <= 2 :: !MoveFrom(g, toMove, c, r, i, j)
  }

  /** When every square is stuck, WHO cannot move. */
  lemma AllStuckCannotMove(g: seq<PieceColor>, toMove: Side, who: PieceColor)
    requires |g| == CELLS
    requires forall c, r | OnBoard(c, r) :: Stuck(g, toMove, who, c, r)
    ensures !CanMove(g, toMove, who)
  {
  }

  /** The colour not on move can never move, so the game is over exactly when
   *  the jump limit is reached, the player on move is stuck, or a colour has
   *  no pieces. */
  lemma GameOverForMover(g: seq<PieceColor>, toMove: Side, jumps: int)
    requires |g| == CELLS
    ensures !CanMove(g, toMove, Opposite(toMove))
    ensures GameOver(g, toMove, jumps) <==>
      JUMP_LIMIT <= jumps || !CanMove(g, toMove, toMove) || Count(g, Red) == 0 || Count(g, Blue) == 0
  {
    CanMoveIffCandidates(g, toMove, Opposite(toMove));
  }

  /** A pass is legal iff the search finds no candidate. */
  lemma PassLegalIffNoCandidates(g: seq<PieceColor>, toMove: Side)
    requires |g| == CELLS
    ensures Legal(g, toMove, Some(Pass)) <==> Candidates(g, toMove, toMove) == []
  {
    CanMoveIffCandidates(g, toMove, toMove);
  }
}
