/** The observable state of a board and what each board operation does to
 *  it, as functions: clear, makeMove (with its pass and error paths),
 *  undo and block placement.  The Board class is proved against these. */
module BoardStates {
  import opened Geometry
  import opened Pieces
  import opened Moves
  import opened Outcomes
  import opened Rules
  import opened Effects

  /** The grid, the player on move, the move and jump counters, the undo
   *  stack (top last) and the list of every move handed to makeMove. */
  datatype BoardState = BoardState(
    grid: seq<PieceColor>,
    whoseMove: Side,
    totalMoves: int,
    jumps: int,
    frames: seq<map<int, PieceColor>>,
    history: seq<Move>)

  /** A well-formed grid and an undo stack of valid records. */
  predicate ValidState(s: BoardState)
  {
    WellFormed(s.grid) && forall f | f in s.frames :: ValidFrame(f)
  }

  /** The four starting corners. */
  predicate RedCorner(k: int)
  {
    k == Index('a', '7') || k == Index('g', '1')
  }

  predicate BlueCorner(k: int)
  {
    k == Index('a', '1') || k == Index('g', '7')
  }

  /** The grid of a cleared board: red at a7 and g1, blue at a1 and g7, all
   *  other playing squares empty, the border untouched. */
  function InitialGrid(): (g: seq<PieceColor>)
    ensures |g| == CELLS
  {
    seq(CELLS, k => if !Playable(k) then Border else if RedCorner(k) then Red else if BlueCorner(k) then Blue else Empty)
  }

  /** clear resets the grid and the player on move and nothing else: the
   *  counters, the undo stack and the move list are kept. */
  function ClearSpec(s: BoardState): (t: BoardState)
    ensures t.grid == InitialGrid() && t.whoseMove == Red
    ensures t.totalMoves == s.totalMoves && t.jumps == s.jumps && t.frames == s.frames && t.history == s.history
  {
    s.(grid := InitialGrid(), whoseMove := Red)
  }

  /** makeMove: a null move fails and changes nothing; any other move is
   *  first appended to the move list; a pass fails if the player on move can
   *  move and otherwise only hands the move over; an illegal piece move
   *  fails; a legal one is applied, pushes its undo record, counts as a move
   *  and resets (extend) or advances (jump) the jump counter. */
  ghost function MakeMoveSpec(s: BoardState, m: Option<Move>): (BoardState, Outcome)
    requires |s.grid| == CELLS && (m.Some? ==> m.value.InRange())
  {
    match m
    case None => (s, Fail("Null move."))
    case Some(Pass) =>
      var logged := s.(history := s.history + [Pass]);
      if CanMove(s.grid, s.whoseMove, s.whoseMove) then (logged, Fail("Cannot pass"))
      else (logged.(whoseMove := Opposite(s.whoseMove)), Done)
    case Some(mv) =>
      var logged := s.(history := s.history + [mv]);
      if !LegalPiece(s.grid, s.whoseMove, mv) then (logged, Fail("ILLEGAL"))
      else
        (logged.(grid := Apply(s.grid, mv, s.whoseMove),
                 whoseMove := Opposite(s.whoseMove),
                 totalMoves := s.totalMoves + 1,
                 jumps := if mv.IsJump() then s.jumps + 1 else 0,
                 frames := s.frames + [Frame(s.grid, mv, s.whoseMove)]),
         Done)
  }

  /** undo pops the top record, writes it back, takes one off the move count
   *  and hands the move back; the jump counter and the move list are kept.
   *  With an empty stack the pop fails. */
  function UndoSpec(s: BoardState): (BoardState, Outcome)
  {
    if s.frames == [] then (s, Fail("empty stack"))
    else
      var n := |s.frames| - 1;
      (s.(grid := Restore(s.grid, s.frames[n]), frames := s.frames[..n],
          totalMoves := s.totalMoves - 1, whoseMove := Opposite(s.whoseMove)),
       Done)
  }

  // ------------------------------------------------------------------ blocks

  /** The column and row mirrored across the middle column and row. */
  function MirrorCol(c: char): (m: char)
    requires 'a' <= c <= 'g'
    ensures 'a' <= m <= 'g' && m as int - 'a' as int == 'g' as int - c as int
  {
    ('h' as int - (c as int - 'a' as int + 1)) as char
  }

  function MirrorRow(r: char): (m: char)
    requires '1' <= r <= '7'
    ensures '1' <= m <= '7' && m as int - '1' as int == '7' as int - r as int
  {
    ('8' as int - (r as int - '0' as int)) as char
  }

  /** A block at C R is accepted unless all four mirrored squares are
   *  non-empty (a piece, a block or border). */
  function LegalBlock(g: seq<PieceColor>, c: char, r: char): bool
    requires |g| == CELLS && OnBoard(c, r)
  {
    var col, row := MirrorCol(c), MirrorRow(r);
    !(g[Index(col, row)] != Empty && g[Index(c, row)] != Empty
      && g[Index(col, r)] != Empty && g[Index(c, r)] != Empty)
  }

  /** The four squares C R and its reflections. */
  predicate BlockSquare(c: char, r: char, k: int)
    requires OnBoard(c, r)
  {
    var col, row := MirrorCol(c), MirrorRow(r);
    k == Index(c, r) || k == Index(c, row) || k == Index(col, row) || k == Index(col, r)
  }

  /** The grid after blocks are written on C R and its reflections. */
  function Blocked4(g: seq<PieceColor>, c: char, r: char): (b: seq<PieceColor>)
    requires |g| == CELLS && OnBoard(c, r)
    ensures |b| == CELLS
  {
    var col, row := MirrorCol(c), MirrorRow(r);
    g[Index(c, r) := Blocked][Index(c, row) := Blocked][Index(col, row) := Blocked][Index(col, r) := Blocked]
  }

  // ------------------------------------------------------------------ lemmas

  /** A cleared board is well formed. */
  lemma InitialWellFormed()
    ensures WellFormed(InitialGrid())
  {
  }

  /** A cleared board has two pieces of each colour, and red
   *  (on move) can extend a7-b7, so the game is not over. */
  lemma InitialPosition()
    ensures Count(InitialGrid(), Red) == 2 && Count(InitialGrid(), Blue) == 2
    ensures CanMove(InitialGrid(), Red, Red)
    ensures !GameOver(InitialGrid(), Red, 0)
  {
    var g := InitialGrid();
    assert Positions(g, Red) == {Index('a', '7'), Index('g', '1')};
    assert Positions(g, Blue) == {Index('a', '1'), Index('g', '7')};
    CountPositions(g, Red);
    CountPositions(g, Blue);
    assert MoveFrom(g, Red, 'a', '7', 1, 0) by {
      assert Piece('a', '7', Shift('a', 1), Shift('7', 0)) == Piece('a', '7', 'b', '7');
      assert g[Index('b', '7')] == Empty;
    }
  }

  /** makeMove succeeds exactly on a legal move (null never, a pass iff the
   *  player on move is stuck); every failure leaves the state as it was,
   *  apart from the move list, which already holds the move. */
  lemma MakeMoveOutcome(s: BoardState, m: Option<Move>)
    requires |s.grid| == CELLS && (m.Some? ==> m.value.InRange())
    ensures MakeMoveSpec(s, m).1 == Done <==> Legal(s.grid, s.whoseMove, m)
    ensures MakeMoveSpec(s, m).1.Fail? ==>
      MakeMoveSpec(s, m).0 == if m.None? then s else s.(history := s.history + [m.value])
    ensures m.Some? ==> MakeMoveSpec(s, m).0.history == s.history + [m.value]
  {
  }

  /** The state after a legal piece move, field by field. */
  lemma MakeMoveLegalPiece(s: BoardState, mv: Move)
    requires |s.grid| == CELLS && mv.Piece? && mv.InRange() && LegalPiece(s.grid, s.whoseMove, mv)
    ensures MakeMoveSpec(s, Some(mv)).1 == Done
    ensures MakeMoveSpec(s, Some(mv)).0 ==
      BoardState(Apply(s.grid, mv, s.whoseMove), Opposite(s.whoseMove), s.totalMoves + 1,
                 if mv.IsJump() then s.jumps + 1 else 0,
                 s.frames + [Frame(s.grid, mv, s.whoseMove)], s.history + [mv])
  {
  }

  /** A pass is not recorded for undo: it changes only the player on move
   *  (and the move list), so a following undo pops the record of the
   *  preceding piece move. */
  lemma PassNotUndoable(s: BoardState)
    requires |s.grid| == CELLS && MakeMoveSpec(s, Some(Pass)).1 == Done
    ensures var t := MakeMoveSpec(s, Some(Pass)).0;
      t == s.(whoseMove := Opposite(s.whoseMove), history := s.history + [Pass])
      && UndoSpec(t).0.frames == UndoSpec(s).0.frames
  {
  }

  /** makeMove and undo keep the state valid. */
  lemma MakeMoveValid(s: BoardState, m: Option<Move>)
    requires ValidState(s) && (m.Some? ==> m.value.InRange())
    ensures ValidState(MakeMoveSpec(s, m).0)
  {
    if m.Some? && m.value.Piece? && LegalPiece(s.grid, s.whoseMove, m.value) {
      ApplyWellFormed(s.grid, m.value, s.whoseMove);
      var t := MakeMoveSpec(s, m).0;
      assert forall f | f in t.frames :: f in s.frames || f == Frame(s.grid, m.value, s.whoseMove);
    }
  }

  lemma UndoValid(s: BoardState)
    requires ValidState(s)
    ensures ValidState(UndoSpec(s).0)
  {
    if s.frames != [] {
      var n := |s.frames| - 1;
      assert s.frames[n] in s.frames;
      RestoreWellFormed(s.grid, s.frames[n]);
      assert forall f | f in s.frames[..n] :: f in s.frames;
    }
  }

  /** Undo after a legal piece move gives back the grid, the player on move,
   *  the move count and the undo stack; it does not give back the jump
   *  counter or shorten the move list. */
  lemma UndoAfterMove(s: BoardState, m: Move)
    requires |s.grid| == CELLS && m.Piece? && m.InRange() && LegalPiece(s.grid, s.whoseMove, m)
    ensures MakeMoveSpec(s, Some(m)).1 == Done
    ensures var t := MakeMoveSpec(s, Some(m)).0;
      UndoSpec(t) == (s.(history := s.history + [m], jumps := t.jumps), Done)
  {
    var t := MakeMoveSpec(s, Some(m)).0;
    UndoRestores(s.grid, m, s.whoseMove);
    assert t.frames[..|t.frames| - 1] == s.frames;
  }

  /** STATES are the board states a game passes through when the piece
   *  moves MS are played one after another, each legal where it is played:
   *  STATES[i + 1] is what makeMove of MS[i] makes of STATES[i]. */
  ghost predicate Line(states: seq<BoardState>, ms: seq<Move>)
  {
    && |states| == |ms| + 1
    && (forall i | 0 <= i < |states| :: |states[i].grid| == CELLS)
    && forall i | 0 <= i < |ms| ::
         && ms[i].Piece? && ms[i].InRange() && LegalPiece(states[i].grid, states[i].whoseMove, ms[i])
         && states[i + 1] == MakeMoveSpec(states[i], Some(ms[i])).0
  }

  /** The state after N calls of undo. */
  function UndoTimes(s: BoardState, n: nat): BoardState
    decreases n
  {
    if n == 0 then s else UndoTimes(UndoSpec(s).0, n - 1)
  }

  /** The last of N + 1 undos comes after the first N. */
  lemma {:induction false} UndoTimesLast(s: BoardState, n: nat)
    ensures UndoTimes(s, n + 1) == UndoSpec(UndoTimes(s, n)).0
    decreases n
  {
    if n > 0 {
      UndoTimesLast(UndoSpec(s).0, n - 1);
    }
  }

  /** Undo reads only the grid, the undo stack, the move count and the
   *  player on move. */
  lemma UndoIgnores(s: BoardState, jumps: int, history: seq<Move>)
    ensures UndoSpec(s.(jumps := jumps, history := history)).0
         == UndoSpec(s).0.(jumps := jumps, history := history)
  {
  }

  /** Undo takes B back to A, which B followed by M: the move list gains M
   *  and the rest of A, apart from the jump counter, is what undo gives
   *  back. */
  predicate UndoneBy(a: BoardState, b: BoardState, m: Move)
  {
    b.history == a.history + [m] && UndoSpec(b).0 == a.(history := b.history, jumps := b.jumps)
  }

  /** Undoing along a chain of states, each taken back to the one before by
   *  one undo, goes back to the first state. */
  lemma {:induction false} UndoChain(states: seq<BoardState>, ms: seq<Move>)
    requires |states| == |ms| + 1
    requires forall i | 0 <= i < |ms| :: UndoneBy(states[i], states[i + 1], ms[i])
    ensures var s, t := states[0], UndoTimes(states[|ms|], |ms|);
      t == s.(history := s.history + ms, jumps := t.jumps)
    decreases |ms|
  {
    if ms != [] {
      var s, s1, rest := states[0], states[1], ms[1..];
      assert UndoneBy(s, s1, ms[0]);
      assert forall i | 0 <= i < |rest| :: UndoneBy(states[1..][i], states[1..][i + 1], rest[i]) by {
        forall i | 0 <= i < |rest|
          ensures UndoneBy(states[1..][i], states[1..][i + 1], rest[i])
        {
          assert UndoneBy(states[i + 1], states[i + 2], ms[i + 1]);
        }
      }
      UndoChain(states[1..], rest);
      var u := UndoTimes(states[|ms|], |rest|);
      UndoTimesLast(states[|ms|], |rest|);
      UndoIgnores(s1, u.jumps, u.history);
      assert u.history == s.history + ms by {
        assert ms == [ms[0]] + rest;
      }
    }
  }

  /** Undoing as many times as a line has moves goes back to where the line
   *  started, as testUndo checks: the grid, the player on move, the move
   *  count and the undo stack are restored, the move list keeps the whole
   *  line, and only the jump counter may differ. */
  lemma UndoLine(states: seq<BoardState>, ms: seq<Move>)
    requires Line(states, ms)
    ensures var s, t := states[0], UndoTimes(states[|ms|], |ms|);
      t == s.(history := s.history + ms, jumps := t.jumps)
  {
    forall i | 0 <= i < |ms|
      ensures UndoneBy(states[i], states[i + 1], ms[i])
    {
      UndoAfterMove(states[i], ms[i]);
    }
    UndoChain(states, ms);
  }

  /** A move followed by a pass cannot be taken back by one undo: the undo
   *  pops the move's record and gives back the grid and the undo stack, but
   *  leaves the other player on move, because the pass is not undone. */
  lemma PassThenUndo(s: BoardState, m: Move)
    requires |s.grid| == CELLS && m.Piece? && m.InRange() && LegalPiece(s.grid, s.whoseMove, m)
    requires MakeMoveSpec(MakeMoveSpec(s, Some(m)).0, Some(Pass)).1 == Done
    ensures var u := UndoSpec(MakeMoveSpec(MakeMoveSpec(s, Some(m)).0, Some(Pass)).0);
      && u.1 == Done
      && u.0.grid == s.grid && u.0.frames == s.frames && u.0.totalMoves == s.totalMoves
      && u.0.whoseMove == Opposite(s.whoseMove)
  {
    var t := MakeMoveSpec(s, Some(m)).0;
    UndoAfterMove(s, m);
    PassNotUndoable(t);
    UndoIgnores(t, t.jumps, t.history + [Pass]);
  }

  /** A jump adds one to the jump counter and an extend resets it. */
  lemma JumpCounter(s: BoardState, m: Move)
    requires |s.grid| == CELLS && m.Piece? && m.InRange() && LegalPiece(s.grid, s.whoseMove, m)
    ensures MakeMoveSpec(s, Some(m)).0.jumps == if m.IsExtend() then 0 else s.jumps + 1
    ensures MakeMoveSpec(s, Some(m)).0.totalMoves == s.totalMoves + 1
  {
  }

  /** legalBlock, read independently of its four-way conjunction: a block
   *  is accepted exactly when one of the four mirrored squares is empty. */
  lemma LegalBlockIff(g: seq<PieceColor>, c: char, r: char)
    requires |g| == CELLS && OnBoard(c, r)
    ensures LegalBlock(g, c, r) <==> exists k | 0 <= k < CELLS :: BlockSquare(c, r, k) && g[k] == Empty
  {
    var col, row := MirrorCol(c), MirrorRow(r);
    if LegalBlock(g, c, r) {
      if g[Index(c, r)] == Empty {
        assert BlockSquare(c, r, Index(c, r));
      } else if g[Index(c, row)] == Empty {
        assert BlockSquare(c, r, Index(c, row));
      } else if g[Index(col, row)] == Empty {
        assert BlockSquare(c, r, Index(col, row));
      } else {
        assert BlockSquare(c, r, Index(col, r));
      }
    }
  }

  /** Reflecting twice gives the square back. */
  lemma MirrorInvolution(c: char, r: char)
    requires OnBoard(c, r)
    ensures MirrorCol(MirrorCol(c)) == c && MirrorRow(MirrorRow(r)) == r
  {
  }

  /** Block placement is symmetric: the four squares, and whether a block is
   *  accepted, are the same for C R and each of its reflections. */
  lemma BlockSymmetric(g: seq<PieceColor>, c: char, r: char, k: int)
    requires |g| == CELLS && OnBoard(c, r)
    ensures LegalBlock(g, MirrorCol(c), r) == LegalBlock(g, c, r)
    ensures LegalBlock(g, c, MirrorRow(r)) == LegalBlock(g, c, r)
    ensures BlockSquare(MirrorCol(c), MirrorRow(r), k) == BlockSquare(c, r, k)
  {
    MirrorInvolution(c, r);
  }

  /** Placing blocks changes exactly the four mirrored squares, to BLOCKED,
   *  and keeps the grid well formed. */
  lemma BlockEffect(g: seq<PieceColor>, c: char, r: char)
    requires WellFormed(g) && OnBoard(c, r)
    ensures forall k | 0 <= k < CELLS :: Blocked4(g, c, r)[k] == if BlockSquare(c, r, k) then Blocked else g[k]
    ensures WellFormed(Blocked4(g, c, r))
  {
    var col, row := MirrorCol(c), MirrorRow(r);
    PlayableIndex(c, r);
    PlayableIndex(c, row);
    PlayableIndex(col, row);
    PlayableIndex(col, r);
  }

  /** The answers BoardTest checks on a cleared board: no block on the
   *  corners a1 and g1, which hold pieces in all four mirrored squares, a
   *  block on b1 or c6 is accepted, and after the one on c6 that square is
   *  blocked. */
  lemma BlockExamples()
    ensures !LegalBlock(InitialGrid(), 'a', '1') && !LegalBlock(InitialGrid(), 'g', '1')
    ensures LegalBlock(InitialGrid(), 'b', '1')
    ensures LegalBlock(InitialGrid(), 'c', '6')
    ensures Blocked4(InitialGrid(), 'c', '6')[Index('c', '6')] == Blocked
  {
  }

  /** legalBlock only refuses when all four squares are taken: after red
   *  extends a7-b7 from the cleared board, a block on b7 is accepted although
   *  b7 holds a red piece, and it replaces that piece. */
  lemma BlockOverPieceAccepted()
    ensures var g := Apply(InitialGrid(), Piece('a', '7', 'b', '7'), Red);
      g[Index('b', '7')] == Red && LegalBlock(g, 'b', '7') && Blocked4(g, 'b', '7')[Index('b', '7')] == Blocked
  {
    var m := Piece('a', '7', 'b', '7');
    var g := Apply(InitialGrid(), m, Red);
    ApplyAt(InitialGrid(), m, Red, Index('b', '7'));
    ApplyAt(InitialGrid(), m, Red, Index('f', '7'));
    assert g[Index('f', '7')] == Empty;
  }
}
