/** The computer player: a depth-limited minimax search with alpha-beta
 *  bounds over copies of the board.  As written, the loop over the
 *  candidate moves of a node returns after its first candidate (or cuts
 *  off to 0 when the window closes), so a node's value is the value of its
 *  first generated move, and the move kept at the root is the first
 *  generated move. */
module Search {
  import opened Geometry
  import opened Pieces
  import opened Moves
  import opened Outcomes
  import opened Rules
  import opened Effects
  import opened BoardStates
  import opened Boards

  /** Plies searched before the static estimate is used. */
  const MAX_DEPTH: nat := 5
  /** Integer.MAX_VALUE: a magnitude greater than any value. */
  const INFTY: int := 0x7fff_ffff
  /** The magnitude of a won or lost position. */
  const WINNING_VALUE: int := INFTY - 1

  /** What the search reads of a board: the grid, the player on move and the
   *  jump counter (which decides the jump-limit end of the game). */
  datatype Position = Position(grid: seq<PieceColor>, toMove: Side, jumps: int)

  /** The position of board B. */
  ghost function PositionOf(b: Board): Position
    reads b, b.grid
  {
    Position(b.grid[..], b.whoseMove, b.playerJumps)
  }

  function Max(a: int, b: int): int
  {
    if a < b then b else a
  }

  function Min(a: int, b: int): int
  {
    if a < b then a else b
  }

  /** Pieces of the player on move minus pieces of the opponent. */
  function Score(p: Position): (s: int)
    requires |p.grid| == CELLS
  {
    Count(p.grid, p.toMove) - Count(p.grid, Opposite(p.toMove))
  }

  /** gameOver() as the search sees it: the jump limit is reached, the
   *  player on move has no candidate, or a colour has no pieces. */
  predicate Over(p: Position)
    requires |p.grid| == CELLS
  {
    JUMP_LIMIT <= p.jumps || Candidates(p.grid, p.toMove, p.toMove) == []
    || Count(p.grid, Red) == 0 || Count(p.grid, Blue) == 0
  }

  /** The game is over and the player on move has more pieces. */
  predicate Won(p: Position)
    requires |p.grid| == CELLS
  {
    Over(p) && Score(p) > 0
  }

  /** The game is over and the player on move has fewer pieces. */
  predicate Lost(p: Position)
    requires |p.grid| == CELLS
  {
    Over(p) && Score(p) < 0
  }

  /** The position after the player on move makes the legal piece move M on a
   *  copy of the board. */
  function Play(p: Position, m: Move): (q: Position)
    requires WellFormed(p.grid) && m.Piece? && m.InRange() && LegalPiece(p.grid, p.toMove, m)
    ensures WellFormed(q.grid) && q.toMove == Opposite(p.toMove)
  {
    ApplyWellFormed(p.grid, m, p.toMove);
    Position(Apply(p.grid, m, p.toMove), Opposite(p.toMove), if m.IsJump() then p.jumps + 1 else 0)
  }

  /** The first move the search generates for the player on move, if any:
   *  always a legal piece move of that player. */
  function FirstMove(p: Position): (m: Option<Move>)
    requires WellFormed(p.grid)
    ensures m.Some? ==> m.value.Piece? && m.value.InRange() && LegalPiece(p.grid, p.toMove, m.value)
    ensures m.None? <==> Candidates(p.grid, p.toMove, p.toMove) == []
  {
    var moves := Candidates(p.grid, p.toMove, p.toMove);
    if moves == [] then None
    else
      CandidatesExact(p.grid, p.toMove, moves[0]);
      Some(moves[0])
  }

  /** The depth findMove passes to the children of a node of depth DEPTH. */
  function ChildDepth(depth: nat): nat
    requires 0 < depth
  {
    depth - 1
  }

  /** The sense of the children of a node of sense SENSE. */
  function Next(sense: int): int
  {
    if sense == 1 then -1 else 1
  }

  /** What a node of sense SENSE returns once its first candidate is worth W:
   *  a max node (sense 1) raises alpha to W and a min node lowers beta to W;
   *  if the window has then closed the loop breaks and the node returns 0,
   *  otherwise it returns W (which lies strictly inside plus or minus INFTY). */
  function NodeValue(sense: int, alpha: int, beta: int, w: int): int
  {
    if sense == 1 then
      var v := Max(-INFTY, w);
      if beta <= Max(alpha, v) then 0 else v
    else
      var v := Min(INFTY, w);
      if Min(beta, v) <= alpha then 0 else v
  }

  /** The value findMove computes for P: a won or lost game is worth plus or
   *  minus WINNING_VALUE, depth 0 the static score; otherwise the first
   *  candidate is played on a copy and searched one ply less with the other
   *  sense, and the node's value follows from the child's as NodeValue
   *  says.  A node with no candidate is worth 0. */
  ghost function SearchValue(p: Position, depth: nat, sense: int, alpha: int, beta: int): int
    requires WellFormed(p.grid)
    decreases depth
  {
    if Won(p) then WINNING_VALUE
    else if Lost(p) then -WINNING_VALUE
    else if depth == 0 then Score(p)
    else
      match FirstMove(p)
      case None => 0
      case Some(m) => NodeValue(sense, alpha, beta, SearchValue(Play(p, m), ChildDepth(depth), Next(sense), alpha, beta))
  }

  /** The move a search of depth DEPTH records when asked to: the first
   *  candidate of an undecided position, if there is one. */
  ghost function FirstCandidate(p: Position, depth: nat): Option<Move>
    requires WellFormed(p.grid)
  {
    if Won(p) || Lost(p) || depth == 0 then None else FirstMove(p)
  }

  /** Reference value without a window: follow the first candidate at every
   *  ply down to a decided position, a position without candidates (worth 0)
   *  or depth 0 (worth the static score). */
  ghost function FirstLine(p: Position, depth: nat): int
    requires WellFormed(p.grid)
    decreases depth
  {
    if Won(p) then WINNING_VALUE
    else if Lost(p) then -WINNING_VALUE
    else if depth == 0 then Score(p)
    else
      match FirstMove(p)
      case None => 0
      case Some(m) => FirstLine(Play(p, m), ChildDepth(depth))
  }

  // ------------------------------------------------------------------ lemmas

  /** The search's test for the end of the game is gameOver(). */
  lemma OverIsGameOver(p: Position)
    requires |p.grid| == CELLS
    ensures Over(p) <==> GameOver(p.grid, p.toMove, p.jumps)
  {
    GameOverForMover(p.grid, p.toMove, p.jumps);
    CanMoveIffCandidates(p.grid, p.toMove, p.toMove);
  }

  /** A static score is a difference of two piece counts of a 121-cell grid. */
  lemma ScoreBounded(p: Position)
    requires |p.grid| == CELLS
    ensures -CELLS <= Score(p) <= CELLS < WINNING_VALUE
  {
    assert CELLS == 121;
  }

  /** The search's two decided cases are those findMove tests: the game is
   *  over and the player on move has more, or fewer, pieces. */
  lemma DecidedIff(p: Position)
    requires |p.grid| == CELLS
    ensures Won(p) <==> GameOver(p.grid, p.toMove, p.jumps) && Count(p.grid, p.toMove) > Count(p.grid, Opposite(p.toMove))
    ensures Lost(p) <==> GameOver(p.grid, p.toMove, p.jumps) && Count(p.grid, p.toMove) < Count(p.grid, Opposite(p.toMove))
  {
    OverIsGameOver(p);
  }

  /** An undecided node of positive depth with a first candidate is worth
   *  what NodeValue makes of the value of the position after that move. */
  lemma InnerValue(p: Position, depth: nat, sense: int, alpha: int, beta: int)
    requires WellFormed(p.grid) && !Won(p) && !Lost(p) && 0 < depth && FirstMove(p).Some?
    ensures SearchValue(p, depth, sense, alpha, beta)
      == NodeValue(sense, alpha, beta, SearchValue(Play(p, FirstMove(p).value), ChildDepth(depth), Next(sense), alpha, beta))
  {
  }

  /** Every value lies in [-WINNING_VALUE, WINNING_VALUE], strictly inside
   *  plus or minus INFTY. */
  lemma {:induction false} SearchBounded(p: Position, depth: nat, sense: int, alpha: int, beta: int)
    requires WellFormed(p.grid)
    ensures -WINNING_VALUE <= SearchValue(p, depth, sense, alpha, beta) <= WINNING_VALUE
    decreases depth
  {
    if Won(p) || Lost(p) || depth == 0 || FirstMove(p).None? {
      ScoreBounded(p);
    } else {
      var child := Play(p, FirstMove(p).value);
      SearchBounded(child, ChildDepth(depth), Next(sense), alpha, beta);
      NodeValueInside(sense, alpha, beta, SearchValue(child, ChildDepth(depth), Next(sense), alpha, beta));
    }
  }

  /** A value strictly inside plus or minus INFTY passes through a node
   *  unchanged unless the node cuts off to 0. */
  lemma NodeValueInside(sense: int, alpha: int, beta: int, w: int)
    requires -INFTY < w < INFTY
    ensures NodeValue(sense, alpha, beta, w) == 0 || NodeValue(sense, alpha, beta, w) == w
    ensures alpha == -INFTY && beta == INFTY ==> NodeValue(sense, alpha, beta, w) == w
  {
  }

  /** Decided positions and depth 0 are scored without looking at a move:
   *  plus WINNING_VALUE when the game is over and the player on move has
   *  more pieces, minus WINNING_VALUE when it has fewer, and the piece
   *  difference at depth 0 otherwise. */
  lemma TerminalValues(p: Position, depth: nat, sense: int, alpha: int, beta: int)
    requires WellFormed(p.grid)
    ensures GameOver(p.grid, p.toMove, p.jumps) && Count(p.grid, p.toMove) > Count(p.grid, Opposite(p.toMove))
      ==> SearchValue(p, depth, sense, alpha, beta) == WINNING_VALUE
    ensures GameOver(p.grid, p.toMove, p.jumps) && Count(p.grid, p.toMove) < Count(p.grid, Opposite(p.toMove))
      ==> SearchValue(p, depth, sense, alpha, beta) == -WINNING_VALUE
    ensures !Won(p) && !Lost(p) && depth == 0
      ==> SearchValue(p, depth, sense, alpha, beta) == Count(p.grid, p.toMove) - Count(p.grid, Opposite(p.toMove))
  {
    DecidedIff(p);
  }

  /** With the full window the root uses, no node is ever cut off: the
   *  value is that of the first-candidate line, whatever the sense. */
  lemma {:induction false} FullWindow(p: Position, depth: nat, sense: int)
    requires WellFormed(p.grid)
    ensures SearchValue(p, depth, sense, -INFTY, INFTY) == FirstLine(p, depth)
    decreases depth
  {
    if !Won(p) && !Lost(p) && depth != 0 && FirstMove(p).Some? {
      var child := Play(p, FirstMove(p).value);
      FullWindow(child, ChildDepth(depth), Next(sense));
      SearchBounded(child, ChildDepth(depth), Next(sense), -INFTY, INFTY);
      NodeValueInside(sense, -INFTY, INFTY, SearchValue(child, ChildDepth(depth), Next(sense), -INFTY, INFTY));
    }
  }

  /** A node whose window is already closed (beta <= alpha) is cut off after
   *  its first candidate and is worth 0. */
  lemma ClosedWindow(p: Position, depth: nat, sense: int, alpha: int, beta: int)
    requires WellFormed(p.grid) && beta <= alpha
    requires FirstCandidate(p, depth).Some?
    ensures SearchValue(p, depth, sense, alpha, beta) == 0
  {
  }

  /** The recorded move is a legal move of the player on move, and there is
   *  none exactly when the game is decided, the depth is 0 or the player on
   *  move cannot move. */
  lemma FirstCandidateLegal(p: Position, depth: nat)
    requires WellFormed(p.grid)
    ensures FirstCandidate(p, depth).Some? ==>
      var m := FirstCandidate(p, depth).value;
      m.Piece? && m.InRange() && Legal(p.grid, p.toMove, Some(m)) && p.grid[m.FromIndex()] == p.toMove
    ensures FirstCandidate(p, depth).None? <==>
      Won(p) || Lost(p) || depth == 0 || !CanMove(p.grid, p.toMove, p.toMove)
  {
    CanMoveIffCandidates(p.grid, p.toMove, p.toMove);
  }

  /** The search on copies of a board, and the move it records. */
  class AI {
    const myColor: Side
    /** The move the last root search recorded; null (None) before. */
    var lastFoundMove: Option<Move>

    /** A computer player for MYCOLOR. */
    constructor (myColor: Side)
      ensures this.myColor == myColor && lastFoundMove == None
    {
      this.myColor := myColor;
      lastFoundMove := None;
    }

    /** The move for the position of BOARD: the first candidate of the player
     *  on move, or None when the game is decided or that player cannot move.
     *  The board's grid, player on move and counters are left alone, but
     *  the search's moves are pushed on the undo stack and the move list it
     *  shares with its copies. */
    method MyMove(board: Board) returns (m: Option<Move>)
      requires board.Valid()
      modifies this, board.undoLog, board.allMoves
      ensures m == FirstCandidate(PositionOf(board), MAX_DEPTH) && lastFoundMove == m
      ensures board.undoLog.Valid()
      ensures old(board.undoLog.frames) <= board.undoLog.frames
      ensures old(board.allMoves.moves) <= board.allMoves.moves
    {
      lastFoundMove := None;
      m := FindMoveRoot(board);
    }

    /** The root search, on a copy of BOARD, with sense 1 for red and -1 for
     *  blue and the full window. */
    method FindMoveRoot(board: Board) returns (m: Option<Move>)
      requires board.Valid()
      modifies this, board.undoLog, board.allMoves
      ensures var first := FirstCandidate(PositionOf(board), MAX_DEPTH);
        m == lastFoundMove && lastFoundMove == if first.Some? then first else old(lastFoundMove)
      ensures board.undoLog.Valid()
      ensures old(board.undoLog.frames) <= board.undoLog.frames
      ensures old(board.allMoves.moves) <= board.allMoves.moves
    {
      var b := new Board.Copy(board);
      assert PositionOf(b) == PositionOf(board);
      if myColor == Red {
        var _ := FindMove(b, MAX_DEPTH, true, 1, -INFTY, INFTY);
      } else {
        var _ := FindMove(b, MAX_DEPTH, true, -1, -INFTY, INFTY);
      }
      return lastFoundMove;
    }

    /** findMove(board, depth, saveMove, sense, alpha, beta): the value of
     *  BOARD's position, recording the first candidate when SAVEMOVE. */
    method FindMove(board: Board, depth: nat, saveMove: bool, sense: int, alpha: int, beta: int) returns (v: int)
      requires board.Valid()
      modifies this, board.undoLog, board.allMoves
      ensures v == SearchValue(PositionOf(board), depth, sense, alpha, beta)
      ensures var first := FirstCandidate(PositionOf(board), depth);
        lastFoundMove == if saveMove && first.Some? then first else old(lastFoundMove)
      ensures board.undoLog.Valid()
      ensures old(board.undoLog.frames) <= board.undoLog.frames
      ensures old(board.allMoves.moves) <= board.allMoves.moves
      decreases depth, 1
    {
      ghost var p := PositionOf(board);
      var currPlayer := board.NumPieces(board.whoseMove);
      var oppPlayer := board.NumPieces(Opposite(board.whoseMove));
      var over := board.GameOver();
      DecidedIff(p);
      if over && currPlayer > oppPlayer {
        return WINNING_VALUE;
      } else if over && currPlayer < oppPlayer {
        return -WINNING_VALUE;
      }
      if depth == 0 {
        v := StaticScore(board);
        return;
      }
      var listOfMoves := BeginStoreMoves(board, board.whoseMove);
      if listOfMoves != [] {
        InnerValue(p, depth, sense, alpha, beta);
      }
      if sense == 1 {
        v := MaxNode(board, listOfMoves, depth, saveMove, alpha, beta);
      } else {
        v := MinNode(board, listOfMoves, depth, saveMove, alpha, beta);
      }
    }

    /** The position after MOVE, a candidate of BOARD. */
    ghost function ChildPosition(board: Board, move: Move): (q: Position)
      reads board, board.grid
      requires board.grid.Length == CELLS && WellFormed(board.grid[..])
      requires move in Candidates(board.grid[..], board.whoseMove, board.whoseMove)
      ensures WellFormed(q.grid)
    {
      CandidatesExact(board.grid[..], board.whoseMove, move);
      Play(PositionOf(board), move)
    }

    /** Plays the candidate MOVE on a fresh copy of BOARD. */
    method PlayCopy(board: Board, move: Move) returns (copyBoard: Board)
      requires board.Valid() && move in Candidates(board.grid[..], board.whoseMove, board.whoseMove)
      modifies board.undoLog, board.allMoves
      ensures fresh(copyBoard) && copyBoard.Valid()
      ensures copyBoard.undoLog == board.undoLog && copyBoard.allMoves == board.allMoves
      ensures PositionOf(copyBoard) == ChildPosition(board, move)
      ensures old(board.undoLog.frames) <= board.undoLog.frames
      ensures old(board.allMoves.moves) <= board.allMoves.moves
    {
      CandidatesExact(board.grid[..], board.whoseMove, move);
      copyBoard := new Board.Copy(board);
      ghost var s0 := copyBoard.State();
      var _ := copyBoard.MakeMove(Some(move));
      MakeMoveLegalPiece(s0, move);
    }

    /** The loop of a max node (sense 1) over the candidates LISTOFMOVES: the
     *  first one is played on a copy and searched as a min node; the node
     *  then returns its value, or 0 if the window has closed. */
    method MaxNode(board: Board, listOfMoves: seq<Move>, depth: nat, saveMove: bool, alpha: int, beta: int) returns (v: int)
      requires board.Valid() && 0 < depth
      requires listOfMoves == Candidates(board.grid[..], board.whoseMove, board.whoseMove)
      modifies this, board.undoLog, board.allMoves
      ensures listOfMoves == [] ==> v == 0 && lastFoundMove == old(lastFoundMove)
      ensures listOfMoves != [] ==>
        v == NodeValue(1, alpha, beta, SearchValue(ChildPosition(board, listOfMoves[0]), ChildDepth(depth), -1, alpha, beta))
        && lastFoundMove == if saveMove then Some(listOfMoves[0]) else old(lastFoundMove)
      ensures board.undoLog.Valid()
      ensures old(board.undoLog.frames) <= board.undoLog.frames
      ensures old(board.allMoves.moves) <= board.allMoves.moves
      decreases depth, 0
    {
      v := -INFTY;
      var a := alpha;
      for i := 0 to |listOfMoves|
        invariant i == 0 && v == -INFTY && a == alpha && lastFoundMove == old(lastFoundMove)
        invariant board.Valid() && old(board.undoLog.frames) <= board.undoLog.frames
        invariant old(board.allMoves.moves) <= board.allMoves.moves
      {
        var move := listOfMoves[i];
        var copyBoard := PlayCopy(board, move);
        var possible := FindMove(copyBoard, ChildDepth(depth), false, -1, a, beta);
        SearchBounded(PositionOf(copyBoard), ChildDepth(depth), -1, a, beta);
        if saveMove && possible > v {
          lastFoundMove := Some(move);
        }
        v := Max(v, possible);
        a := Max(a, v);
        if beta <= a {
          break;
        }
        return v;
      }
      return 0;
    }

    /** The loop of a min node (any other sense), symmetric to MaxNode. */
    method MinNode(board: Board, listOfMoves: seq<Move>, depth: nat, saveMove: bool, alpha: int, beta: int) returns (v: int)
      requires board.Valid() && 0 < depth
      requires listOfMoves == Candidates(board.grid[..], board.whoseMove, board.whoseMove)
      modifies this, board.undoLog, board.allMoves
      ensures listOfMoves == [] ==> v == 0 && lastFoundMove == old(lastFoundMove)
      ensures listOfMoves != [] ==>
        v == NodeValue(-1, alpha, beta, SearchValue(ChildPosition(board, listOfMoves[0]), ChildDepth(depth), 1, alpha, beta))
        && lastFoundMove == if saveMove then Some(listOfMoves[0]) else old(lastFoundMove)
      ensures board.undoLog.Valid()
      ensures old(board.undoLog.frames) <= board.undoLog.frames
      ensures old(board.allMoves.moves) <= board.allMoves.moves
      decreases depth, 0
    {
      v := INFTY;
      var b := beta;
      for i := 0 to |listOfMoves|
        invariant i == 0 && v == INFTY && b == beta && lastFoundMove == old(lastFoundMove)
        invariant board.Valid() && old(board.undoLog.frames) <= board.undoLog.frames
        invariant old(board.allMoves.moves) <= board.allMoves.moves
      {
        var move := listOfMoves[i];
        var copyBoard := PlayCopy(board, move);
        var possible := FindMove(copyBoard, ChildDepth(depth), false, 1, alpha, b);
        SearchBounded(PositionOf(copyBoard), ChildDepth(depth), 1, alpha, b);
        if saveMove && possible < v {
          lastFoundMove := Some(move);
        }
        v := Min(v, possible);
        b := Min(b, v);
        if b <= alpha {
          break;
        }
        return v;
      }
      return 0;
    }

    /** staticScore: pieces of the player on move minus the opponent's. */
    method StaticScore(board: Board) returns (s: int)
      requires board.grid.Length == CELLS
      ensures s == Score(PositionOf(board))
    {
      var currPlayer := board.NumPieces(board.whoseMove);
      var oppPlayer := board.NumPieces(Opposite(board.whoseMove));
      return currPlayer - oppPlayer;
    }

    /** beginStoreMoves: rows 7 down to 1, columns a to g, and for each
     *  square holding PLAYER the moves storedMoves lists for it. */
    method BeginStoreMoves(board: Board, player: PieceColor) returns (moves: seq<Move>)
      requires board.grid.Length == CELLS
      ensures moves == Candidates(board.grid[..], board.whoseMove, player)
    {
      ghost var g := board.grid[..];
      moves := [];
      var row := '7';
      while row >= '1'
        invariant '0' <= row <= '7'
        invariant moves == RowsScan(g, board.whoseMove, player, row)
        decreases row as int
      {
        moves := StoreRow(board, player, row, moves);
        RowsScanStep(g, board.whoseMove, player, row);
        row := Shift(row, -1);
      }
      assert row as int == '0' as int;
    }

    /** The inner loop of beginStoreMoves over the columns of ROW, appending
     *  to MOVES. */
    method StoreRow(board: Board, player: PieceColor, row: char, moves0: seq<Move>) returns (moves: seq<Move>)
      requires board.grid.Length == CELLS && '1' <= row <= '7'
      ensures moves == moves0 + RowScan(board.grid[..], board.whoseMove, player, row, 'h')
    {
      ghost var g := board.grid[..];
      moves := moves0;
      var col := 'a';
      while col <= 'g'
        invariant 'a' <= col <= 'h'
        invariant moves == moves0 + RowScan(g, board.whoseMove, player, row, col)
        decreases 'h' as int - col as int
      {
        var index := Index(col, row);
        RowScanStep(g, board.whoseMove, player, row, col);
        if board.grid[index] == player {
          var addMoves := StoredMoves(board, row, col);
          moves := moves + addMoves;
        }
        col := Shift(col, 1);
      }
      assert col as int == 'h' as int;
    }

    /** storedMoves: the legal moves from COL ROW, column offset -2 .. 2
     *  outer, row offset -2 .. 2 inner. */
    method StoredMoves(board: Board, row: char, col: char) returns (moves: seq<Move>)
      requires board.grid.Length == CELLS && OnBoard(col, row)
      ensures moves == SquareMoves(board.grid[..], board.whoseMove, col, row, 3)
    {
      ghost var g := board.grid[..];
      moves := [];
      var i := -2;
      while i <= 2
        invariant -2 <= i <= 3
        invariant moves == SquareMoves(g, board.whoseMove, col, row, i)
      {
        var j := -2;
        while j <= 2
          invariant -2 <= j <= 3
          invariant moves == SquareMoves(g, board.whoseMove, col, row, i) + RowOffsetMoves(g, board.whoseMove, col, row, i, j)
        {
          var row2 := Shift(row, j);
          var col2 := Shift(col, i);
          var currMove := Piece(col, row, col2, row2);
          var legal := board.LegalMove(Some(currMove));
          RowOffsetMovesStep(g, board.whoseMove, col, row, i, j);
          if legal {
            moves := moves + [currMove];
          }
          j := j + 1;
        }
        SquareMovesStep(g, board.whoseMove, col, row, i);
        i := i + 1;
      }
    }
  }
}
