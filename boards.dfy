/** The Ataxx board: an array of 121 cells updated in place, the player on
 *  move, a move counter and a jump counter, plus an undo stack and a move
 *  list that a copy of the board shares with the board it was copied from.
 *  makeMove, undo and clear are proved against MakeMoveSpec, UndoSpec and
 *  ClearSpec; setBlock against Blocked4; flipPieces against Infected and
 *  FlipRecord; set and addUndo against RecordUndo; pass and startUndo
 *  against equations on their fields. */
module Boards {
  import opened Geometry
  import opened Pieces
  import opened Moves
  import opened Outcomes
  import opened Rules
  import opened Effects
  import opened BoardStates

  /** The undo stack: one record per piece move, top last. */
  class UndoStack {
    var frames: seq<map<int, PieceColor>>

    ghost predicate Valid()
      reads this
    {
      forall f | f in frames :: ValidFrame(f)
    }

    constructor ()
      ensures frames == [] && Valid()
    {
      frames := [];
    }
  }

  /** The list of every move handed to makeMove. */
  class MoveList {
    var moves: seq<Move>

    constructor ()
      ensures moves == []
    {
      moves := [];
    }
  }

  /** Cell K is DC, DR away from TO with (DC, DR) before (I, J) in the order
   *  flipPieces visits the offsets: column offset outer, row offset inner,
   *  both from -1 to 1. */
  predicate FlipVisited(to: int, k: int, i: int, j: int)
  {
    var dc, dr := ColOf(k) - ColOf(to), RowOf(k) - RowOf(to);
    -1 <= dc <= 1 && -1 <= dr <= 1 && (dc < i || (dc == i && dr < j))
  }

  /** The cells flipPieces has recorded once it reaches offset I, J. */
  function FlipsSoFar(g: seq<PieceColor>, to: int, who: Side, i: int, j: int): map<int, PieceColor>
    requires |g| == CELLS
  {
    map k | 0 <= k < CELLS && FlipVisited(to, k, i, j) && g[k] == Opposite(who) :: g[k]
  }

  /** Visiting offset I, J adds exactly the cell at that offset. */
  lemma VisitStep(to: int, i: int, j: int, k: int)
    requires Playable(to) && -1 <= i <= 1 && -1 <= j <= 1 && 0 <= k < CELLS
    ensures FlipVisited(to, k, i, j + 1) <==> FlipVisited(to, k, i, j) || k == Neighbor(to, i, j)
  {
    if ColOf(k) - ColOf(to) == i && RowOf(k) - RowOf(to) == j {
      CoordsDetermineCell(k, Neighbor(to, i, j));
    }
  }

  /** The grid flipPieces has produced once it reaches offset I, J. */
  function FlipGrid(g: seq<PieceColor>, to: int, who: Side, i: int, j: int): (f: seq<PieceColor>)
    requires |g| == CELLS
    ensures |f| == CELLS
  {
    seq(CELLS, k requires 0 <= k < CELLS => if FlipVisited(to, k, i, j) && g[k] == Opposite(who) then who else g[k])
  }

  /** Visiting offset I, J flips (and records) the opponent piece there, if any. */
  lemma FlipsStep(g: seq<PieceColor>, to: int, who: Side, i: int, j: int)
    requires |g| == CELLS && Playable(to) && -1 <= i <= 1 && -1 <= j <= 1
    ensures 0 <= Neighbor(to, i, j) < CELLS
    ensures var n := Neighbor(to, i, j);
      && FlipGrid(g, to, who, i, j)[n] == g[n]
      && FlipGrid(g, to, who, i, j + 1) ==
        (if g[n] == Opposite(who) then FlipGrid(g, to, who, i, j)[n := who] else FlipGrid(g, to, who, i, j))
      && FlipsSoFar(g, to, who, i, j + 1) ==
        (if g[n] == Opposite(who) then FlipsSoFar(g, to, who, i, j)[n := g[n]] else FlipsSoFar(g, to, who, i, j))
  {
    var n := Neighbor(to, i, j);
    forall k | 0 <= k < CELLS
      ensures FlipVisited(to, k, i, j + 1) <==> FlipVisited(to, k, i, j) || k == n
    {
      VisitStep(to, i, j, k);
    }
    assert !FlipVisited(to, n, i, j);
  }

  /** Before the first offset nothing is flipped or recorded. */
  lemma FlipsStart(g: seq<PieceColor>, to: int, who: Side)
    requires |g| == CELLS
    ensures FlipGrid(g, to, who, -1, -1) == g
    ensures FlipsSoFar(g, to, who, -1, -1) == map[]
  {
    assert forall k | 0 <= k < CELLS :: !FlipVisited(to, k, -1, -1);
  }

  /** Finishing a column of offsets is starting the next one. */
  lemma FlipsNextColumn(g: seq<PieceColor>, to: int, who: Side, i: int)
    requires |g| == CELLS
    ensures FlipGrid(g, to, who, i, 2) == FlipGrid(g, to, who, i + 1, -1)
    ensures FlipsSoFar(g, to, who, i, 2) == FlipsSoFar(g, to, who, i + 1, -1)
  {
    assert forall k | 0 <= k < CELLS :: FlipVisited(to, k, i, 2) == FlipVisited(to, k, i + 1, -1);
  }

  /** Once every offset is visited, the grid is infected and the record is
   *  the flip record. */
  lemma FlipsDone(g: seq<PieceColor>, to: int, who: Side)
    requires |g| == CELLS && 0 <= to < CELLS && g[to] == who
    ensures FlipGrid(g, to, who, 2, -1) == Infected(g, to, who)
    ensures FlipsSoFar(g, to, who, 2, -1) == FlipRecord(g, to, who)
  {
    assert forall k | 0 <= k < CELLS ::
      (FlipVisited(to, k, 2, -1) && g[k] == Opposite(who)) == (Adjacent(to, k) && g[k] == Opposite(who));
  }

  /** The top record of a non-empty stack, and the records below it. */
  function Top(frames: seq<map<int, PieceColor>>): map<int, PieceColor>
    requires frames != []
  {
    frames[|frames| - 1]
  }

  function Below(frames: seq<map<int, PieceColor>>): seq<map<int, PieceColor>>
    requires frames != []
  {
    frames[..|frames| - 1]
  }

  /** Pushing a record and splitting the stack again gives back both parts. */
  lemma TopBelow(below: seq<map<int, PieceColor>>, top: map<int, PieceColor>)
    ensures Top(below + [top]) == top && Below(below + [top]) == below
  {
    assert (below + [top])[..|below|] == below;
  }

  /** Updating a merged record is updating the record merged last. */
  lemma OverrideUpdate(a: map<int, PieceColor>, b: map<int, PieceColor>, k: int, v: PieceColor)
    ensures (a + b)[k := v] == a + b[k := v]
  {
  }


  class Board {
    /** The extended grid, row-major; border cells hold Border. */
    const grid: array<PieceColor>
    var whoseMove: Side
    var totalMoves: int
    var playerJumps: int
    /** Shared with every copy of this board. */
    const undoLog: UndoStack
    /** Shared with every copy of this board. */
    const allMoves: MoveList

    ghost predicate Valid()
      reads this, grid, undoLog
    {
      grid.Length == CELLS && WellFormed(grid[..]) && undoLog.Valid()
    }

    ghost function State(): BoardState
      reads this, grid, undoLog, allMoves
    {
      BoardState(grid[..], whoseMove, totalMoves, playerJumps, undoLog.frames, allMoves.moves)
    }

    /** A new board, cleared: the border cells are never written and keep Border. */
    constructor ()
      ensures Valid() && fresh(grid) && fresh(undoLog) && fresh(allMoves)
      ensures State() == BoardState(InitialGrid(), Red, 0, 0, [], [])
    {
      grid := new PieceColor[CELLS](_ => Border);
      whoseMove := Red;
      totalMoves := 0;
      playerJumps := 0;
      undoLog := new UndoStack();
      allMoves := new MoveList();
      new;
      Clear();
    }

    /** A copy of B: a grid of its own with B's contents, B's player on move
     *  and jump counter, a move counter of 0, and B's undo stack and move
     *  list themselves (not copies of them). */
    constructor Copy(b: Board)
      requires b.Valid()
      ensures Valid() && fresh(grid)
      ensures grid[..] == b.grid[..] && whoseMove == b.whoseMove && playerJumps == b.playerJumps && totalMoves == 0
      ensures undoLog == b.undoLog && allMoves == b.allMoves
    {
      var a := new PieceColor[CELLS];
      forall k | 0 <= k < CELLS {
        a[k] := b.grid[k];
      }
      assert a[..] == b.grid[..];
      grid := a;
      whoseMove := b.whoseMove;
      playerJumps := b.playerJumps;
      totalMoves := 0;
      undoLog := b.undoLog;
      allMoves := b.allMoves;
    }

    /** The two loops of clear() that empty every square a1 .. g7, column by
     *  column; border cells are not touched. */
    method EmptyPlayingArea()
      requires grid.Length == CELLS
      modifies grid
      ensures forall k | 0 <= k < CELLS :: grid[k] == if Playable(k) then Empty else old(grid[k])
    {
      var c := 'a';
      while c <= 'g'
        modifies grid
        invariant 'a' <= c <= 'h'
        invariant forall k | 0 <= k < CELLS ::
          grid[k] == if Playable(k) && ColOf(k) < c as int - 'a' as int + 2 then Empty else old(grid[k])
      {
        var r := '1';
        while r <= '7'
          modifies grid
          invariant '1' <= r <= '8'
          invariant forall k | 0 <= k < CELLS ::
            grid[k] == if Playable(k) && (ColOf(k) < c as int - 'a' as int + 2
                                          || (ColOf(k) == c as int - 'a' as int + 2 && RowOf(k) < r as int - '1' as int + 2))
                       then Empty else old(grid[k])
        {
          var sq := Index(c, r);
          forall k | 0 <= k < CELLS && ColOf(k) == ColOf(sq) && RowOf(k) == RowOf(sq)
            ensures k == sq
          {
            CoordsDetermineCell(k, sq);
          }
          grid[sq] := Empty;
          r := Shift(r, 1);
        }
        c := Shift(c, 1);
      }
    }

    /** Puts the pieces in their starting squares, empties the rest of the
     *  playing area and gives the move to red; the counters, the undo stack
     *  and the move list are left as they are. */
    method Clear()
      requires grid.Length == CELLS && undoLog.Valid()
      requires forall k | 0 <= k < CELLS && !Playable(k) :: grid[k] == Border
      modifies this, grid
      ensures Valid()
      ensures State() == ClearSpec(old(State()))
    {
      whoseMove := Red;
      EmptyPlayingArea();
      var i := 0;
      while i < grid.Length
        modifies grid
        invariant 0 <= i <= grid.Length
        invariant forall k | 0 <= k < CELLS ::
          grid[k] == if !Playable(k) then Border
                     else if i > 0 && RedCorner(k) then Red
                     else if i > 0 && BlueCorner(k) then Blue
                     else Empty
      {
        grid[Index('a', '7')] := Red;
        grid[Index('g', '1')] := Red;
        grid[Index('a', '1')] := Blue;
        grid[Index('g', '7')] := Blue;
        i := i + 1;
      }
      assert grid[..] == InitialGrid();
      InitialWellFormed();
    }

    /** The number of cells holding COLOR, counted over the whole grid. */
    method NumPieces(color: PieceColor) returns (n: int)
      requires grid.Length == CELLS
      ensures n == Count(grid[..], color)
    {
      n := 0;
      var i := 0;
      while i < grid.Length
        invariant 0 <= i <= grid.Length
        invariant n == Count(grid[..i], color)
      {
        assert grid[..i + 1][..i] == grid[..i];
        if grid[i] == color {
          n := n + 1;
        }
        i := i + 1;
      }
      assert grid[..grid.Length] == grid[..];
    }

    method RedPieces() returns (n: int)
      requires grid.Length == CELLS
      ensures n == Count(grid[..], Red)
    {
      n := NumPieces(Red);
    }

    method BluePieces() returns (n: int)
      requires grid.Length == CELLS
      ensures n == Count(grid[..], Blue)
    {
      n := NumPieces(Blue);
    }

    /** The contents of square C R: Border exactly off the playing area. */
    function Get(c: char, r: char): (p: PieceColor)
      reads this, grid
      requires grid.Length == CELLS && WellFormed(grid[..]) && InExtended(c, r)
      ensures p == grid[Index(c, r)]
      ensures p == Border <==> !OnBoard(c, r)
    {
      PlayableIndex(c, r);
      grid[Index(c, r)]
    }

    /** Whether M is legal here: a null move never, a pass iff the player on
     *  move cannot move, a piece move iff it leaves a square of the player on
     *  move for an empty square one (extend) or two (jump) squares away. */
    method LegalMove(m: Option<Move>) returns (b: bool)
      requires grid.Length == CELLS && (m.Some? ==> m.value.InRange())
      ensures b == Legal(grid[..], whoseMove, m)
      decreases if m == Some(Move.Pass) then 3 else 0
    {
      if m.None? {
        return false;
      }
      var move := m.value;
      if move.Pass? {
        var can := CanMove(whoseMove);
        return !can;
      }
      var curr := grid[move.FromIndex()];
      var opp := grid[move.ToIndex()];
      if curr != whoseMove {
        return false;
      }
      if opp == Border || opp != Empty {
        return false;
      }
      if !move.IsExtend() && !move.IsJump() {
        return false;
      }
      return true;
    }

    /** Whether WHO has a legal move here, scanning rows 7 to 1, columns a to
     *  g and offsets -2 .. 2 in the order the search generates moves. */
    method CanMove(who: PieceColor) returns (b: bool)
      requires grid.Length == CELLS
      ensures b == Rules.CanMove(grid[..], whoseMove, who)
      decreases 2
    {
      ghost var g := grid[..];
      var row := '7';
      while row >= '1'
        invariant '0' <= row <= '7'
        invariant forall c, r | OnBoard(c, r) && row < r :: Stuck(g, whoseMove, who, c, r)
      {
        var col := 'a';
        while col <= 'g'
          invariant 'a' <= col <= 'h'
          invariant forall c, r | OnBoard(c, r) && row < r :: Stuck(g, whoseMove, who, c, r)
          invariant forall c | 'a' <= c < col :: Stuck(g, whoseMove, who, c, row)
        {
          var index := Index(col, row);
          if grid[index] == who {
            var found, i, j := MoveFromSquare(col, row);
            if found {
              MoveFromGivesCanMove(g, whoseMove, who, col, row, i, j);
              return true;
            }
            assert grid[..] == g;
          }
          assert Stuck(g, whoseMove, who, col, row);
          col := Shift(col, 1);
        }
        assert col as int == 'h' as int;
        row := Shift(row, -1);
      }
      assert row as int == '0' as int;
      AllStuckCannotMove(g, whoseMove, who);
      return false;
    }

    /** The offset loops of canMove for the square COL ROW: whether some
     *  offset gives a legal move, and which one. */
    method MoveFromSquare(col: char, row: char) returns (found: bool, i: int, j: int)
      requires grid.Length == CELLS && OnBoard(col, row)
      ensures found ==> -2 <= i <= 2 && -2 <= j <= 2 && MoveFrom(grid[..], whoseMove, col, row, i, j)
      ensures !found ==> forall di, dj | -2 <= di <= 2 && -2 <= dj <= 2 :: !MoveFrom(grid[..], whoseMove, col, row, di, dj)
      decreases 1
    {
      i, j := -2, -2;
      while i <= 2
        invariant -2 <= i <= 3
        invariant forall di, dj | -2 <= di < i && -2 <= dj <= 2 :: !MoveFrom(grid[..], whoseMove, col, row, di, dj)
      {
        j := -2;
        while j <= 2
          invariant -2 <= j <= 3
          invariant forall di, dj | -2 <= di < i && -2 <= dj <= 2 :: !MoveFrom(grid[..], whoseMove, col, row, di, dj)
          invariant forall dj | -2 <= dj < j :: !MoveFrom(grid[..], whoseMove, col, row, i, dj)
        {
          var currMove := Piece(col, row, Shift(col, i), Shift(row, j));
          var legal := LegalMove(Some(currMove));
          if legal {
            return true, i, j;
          }
          j := j + 1;
        }
        i := i + 1;
      }
      return false, i, j;
    }

    /** Whether the game is over: the jump limit is reached, neither colour
     *  can move, or a colour has no pieces. */
    method GameOver() returns (over: bool)
      requires grid.Length == CELLS
      ensures over == Rules.GameOver(grid[..], whoseMove, playerJumps)
    {
      var jump := JUMP_LIMIT <= playerJumps;
      var blue := CanMove(Blue);
      var red := CanMove(Red);
      var move := !blue && !red;
      var nRed := NumPieces(Red);
      var nBlue := NumPieces(Blue);
      var zero := nRed == 0 || nBlue == 0;
      return jump || move || zero;
    }

    /** Pushes an empty record for the move about to be made. */
    method StartUndo()
      modifies undoLog
      ensures undoLog.frames == old(undoLog.frames) + [map[]]
    {
      undoLog.frames := undoLog.frames + [map[]];
    }

    /** Records in the top record that SQ is about to be set to NEWCOLOR. */
    method AddUndo(sq: int, newColor: PieceColor)
      requires grid.Length == CELLS && 0 <= sq < CELLS && undoLog.frames != []
      modifies undoLog
      ensures undoLog.frames == Below(old(undoLog.frames)) + [RecordUndo(Top(old(undoLog.frames)), sq, newColor, grid[sq])]
    {
      var n := |undoLog.frames| - 1;
      var top := undoLog.frames[n];
      if sq in top && top[sq] != Border && newColor == Empty {
        top := top[sq := Empty];
      } else {
        top := top[sq := grid[sq]];
      }
      undoLog.frames := undoLog.frames[..n] + [top];
    }

    /** Sets cell SQ to V, recording its old colour for undo. */
    method Set(sq: int, v: PieceColor)
      requires grid.Length == CELLS && 0 <= sq < CELLS && undoLog.frames != []
      modifies grid, undoLog
      ensures grid[..] == old(grid[..])[sq := v]
      ensures undoLog.frames == Below(old(undoLog.frames)) + [RecordUndo(Top(old(undoLog.frames)), sq, v, old(grid[sq]))]
    {
      AddUndo(sq, v);
      grid[sq] := v;
    }

    /** One step of flipPieces: the cell at offset I, J from INDEX turns to
     *  the colour on move if it holds the opponent, and is recorded. */
    method FlipNeighbor(index: int, i: int, j: int, ghost g0: seq<PieceColor>,
                        ghost below: seq<map<int, PieceColor>>, ghost top0: map<int, PieceColor>)
      requires grid.Length == CELLS && |g0| == CELLS && Playable(index) && -1 <= i <= 1 && -1 <= j <= 1
      requires grid[..] == FlipGrid(g0, index, whoseMove, i, j)
      requires undoLog.frames == below + [top0 + FlipsSoFar(g0, index, whoseMove, i, j)]
      modifies grid, undoLog
      ensures grid[..] == FlipGrid(g0, index, whoseMove, i, j + 1)
      ensures undoLog.frames == below + [top0 + FlipsSoFar(g0, index, whoseMove, i, j + 1)]
    {
      var neigh := Neighbor(index, i, j);
      FlipsStep(g0, index, whoseMove, i, j);
      if grid[neigh] == Opposite(whoseMove) {
        TopBelow(below, top0 + FlipsSoFar(g0, index, whoseMove, i, j));
        Set(neigh, whoseMove);
        OverrideUpdate(top0, FlipsSoFar(g0, index, whoseMove, i, j), neigh, g0[neigh]);
      }
    }

    /** Turns every opponent piece on the cells around the destination of M
     *  into the colour on move, recording each in the top undo record.
     *  flipPieces compares and writes the colour on move; PLAYER is not
     *  consulted. */
    method FlipPieces(m: Move, player: Side)
      requires grid.Length == CELLS && m.Piece? && m.InRange() && Playable(m.ToIndex())
      requires grid[m.ToIndex()] == whoseMove && undoLog.frames != []
      modifies grid, undoLog
      ensures grid[..] == Infected(old(grid[..]), m.ToIndex(), whoseMove)
      ensures undoLog.frames == Below(old(undoLog.frames)) + [Top(old(undoLog.frames)) + FlipRecord(old(grid[..]), m.ToIndex(), whoseMove)]
    {
      var index := m.ToIndex();
      ghost var g0 := grid[..];
      ghost var below, top0 := Below(undoLog.frames), Top(undoLog.frames);
      FlipsStart(g0, index, whoseMove);
      assert top0 + FlipsSoFar(g0, index, whoseMove, -1, -1) == top0;
      assert undoLog.frames == below + [top0];
      var i := -1;
      while i < 2
        invariant -1 <= i <= 2
        invariant grid[..] == FlipGrid(g0, index, whoseMove, i, -1)
        invariant undoLog.frames == below + [top0 + FlipsSoFar(g0, index, whoseMove, i, -1)]
      {
        var j := -1;
        while j < 2
          invariant -1 <= j <= 2
          invariant grid[..] == FlipGrid(g0, index, whoseMove, i, j)
          invariant undoLog.frames == below + [top0 + FlipsSoFar(g0, index, whoseMove, i, j)]
        {
          FlipNeighbor(index, i, j, g0, below, top0);
          j := j + 1;
        }
        FlipsNextColumn(g0, index, whoseMove, i);
        i := i + 1;
      }
      FlipsDone(g0, index, whoseMove);
    }

    /** Hands the move to the opponent, unless the player on move can move. */
    method Pass() returns (outcome: Outcome)
      requires grid.Length == CELLS
      modifies this
      ensures Rules.CanMove(grid[..], old(whoseMove), old(whoseMove)) ==> outcome == Fail("Cannot pass") && whoseMove == old(whoseMove)
      ensures !Rules.CanMove(grid[..], old(whoseMove), old(whoseMove)) ==> outcome == Done && whoseMove == Opposite(old(whoseMove))
      ensures totalMoves == old(totalMoves) && playerJumps == old(playerJumps)
    {
      var can := CanMove(whoseMove);
      if can {
        return Fail("Cannot pass");
      }
      whoseMove := Opposite(whoseMove);
      return Done;
    }

    /** Makes M as MakeMoveSpec describes. */
    method MakeMove(m: Option<Move>) returns (outcome: Outcome)
      requires Valid() && (m.Some? ==> m.value.InRange())
      modifies this, grid, undoLog, allMoves
      ensures Valid()
      ensures (State(), outcome) == MakeMoveSpec(old(State()), m)
    {
      ghost var s0 := State();
      if m.None? {
        return Fail("Null move.");
      }
      var move := m.value;
      allMoves.moves := allMoves.moves + [move];
      if move.Pass? {
        outcome := Pass();
        return;
      }
      var legal := LegalMove(m);
      if !legal {
        return Fail("ILLEGAL");
      }
      assert Playable(move.ToIndex());
      PlayPiece(move);
      MakeMoveLegalPiece(s0, move);
      MakeMoveValid(s0, m);
      return Done;
    }

    /** The piece-move branches of makeMove: open an undo record, place the
     *  piece (and empty the source of a jump), infect the neighbours, update
     *  the counters and hand the move to the opponent. */
    method PlayPiece(move: Move)
      requires grid.Length == CELLS && move.Piece? && move.InRange() && Playable(move.ToIndex())
      requires LegalPiece(grid[..], whoseMove, move)
      modifies this, grid, undoLog
      ensures grid[..] == Apply(old(grid[..]), move, old(whoseMove))
      ensures undoLog.frames == old(undoLog.frames) + [Frame(old(grid[..]), move, old(whoseMove))]
      ensures whoseMove == Opposite(old(whoseMove)) && totalMoves == old(totalMoves) + 1
      ensures playerJumps == if move.IsJump() then old(playerJumps) + 1 else 0
    {
      ghost var g := grid[..];
      ghost var who := whoseMove;
      ghost var before := undoLog.frames;
      StepGeometry(move);
      if move.IsJump() {
        PlacePiece(move);
        TopBelow(before, PlacedRecord(g, move));
        FlipPieces(move, whoseMove);
        playerJumps := playerJumps + 1;
        totalMoves := totalMoves + 1;
      } else if move.IsExtend() {
        PlacePiece(move);
        TopBelow(before, PlacedRecord(g, move));
        FlipPieces(move, whoseMove);
        playerJumps := 0;
        totalMoves := totalMoves + 1;
      } else {
        // legalMove admits only extends and jumps
        assert false;
      }
      FrameAssembled(g, move, who);
      whoseMove := Opposite(whoseMove);
    }

    /** The start of both piece-move branches of makeMove: open an undo
     *  record, put the mover's piece on the destination and, for a jump,
     *  empty the source, recording both cells. */
    method PlacePiece(move: Move)
      requires grid.Length == CELLS && move.Piece? && move.InRange() && (move.IsExtend() || move.IsJump())
      modifies grid, undoLog
      ensures grid[..] == Placed(old(grid[..]), move, whoseMove)
      ensures undoLog.frames == old(undoLog.frames) + [PlacedRecord(old(grid[..]), move)]
    {
      ghost var g := grid[..];
      ghost var before := undoLog.frames;
      StepGeometry(move);
      var to := move.ToIndex();
      StartUndo();
      TopBelow(before, map[]);
      Set(to, whoseMove);
      if move.IsJump() {
        TopBelow(before, map[to := g[to]]);
        Set(move.FromIndex(), Empty);
      }
    }

    /** makeMove for a move given by its squares, a pass when C0 is '-'. */
    method MakeMoveAt(c0: char, r0: char, c1: char, r1: char) returns (outcome: Outcome)
      requires Valid() && (c0 != '-' ==> InExtended(c0, r0) && InExtended(c1, r1))
      modifies this, grid, undoLog, allMoves
      ensures Valid()
      ensures (State(), outcome) == MakeMoveSpec(old(State()), Some(if c0 == '-' then Move.Pass else Piece(c0, r0, c1, r1)))
    {
      if c0 == '-' {
        outcome := MakeMove(Some(Move.Pass));
      } else {
        outcome := MakeMove(Some(Piece(c0, r0, c1, r1)));
      }
    }

    /** The loop of undo() that writes back every cell of the record F, in
     *  no particular order. */
    method RestoreCells(f: map<int, PieceColor>)
      requires grid.Length == CELLS && forall k | k in f :: 0 <= k < CELLS
      modifies grid
      ensures grid[..] == Restore(old(grid[..]), f)
    {
      var keys := f.Keys;
      ghost var done: set<int> := {};
      while keys != {}
        modifies grid
        invariant keys + done == f.Keys && keys !! done
        invariant forall k | 0 <= k < CELLS :: grid[k] == if k in done then f[k] else old(grid[k])
        decreases keys
      {
        if forall x :: x !in keys {
          assert false;
        }
        var sq :| sq in keys;
        grid[sq] := f[sq];
        keys := keys - {sq};
        done := done + {sq};
      }
      assert done == f.Keys;
    }

    /** Pops the top undo record and writes it back, as UndoSpec describes. */
    method Undo() returns (outcome: Outcome)
      requires Valid()
      modifies this, grid, undoLog
      ensures Valid()
      ensures (State(), outcome) == UndoSpec(old(State()))
    {
      if undoLog.frames == [] {
        return Fail("empty stack");
      }
      var n := |undoLog.frames| - 1;
      var newMove := undoLog.frames[n];
      assert newMove in undoLog.frames;
      undoLog.frames := undoLog.frames[..n];
      assert forall f | f in undoLog.frames :: f in old(undoLog.frames);
      RestoreCells(newMove);
      totalMoves := totalMoves - 1;
      whoseMove := Opposite(whoseMove);
      RestoreWellFormed(old(grid[..]), newMove);
      return Done;
    }

    /** Whether a block may go on C R: when one of the four mirrored squares
     *  is still empty. */
    function LegalBlock(c: char, r: char): (b: bool)
      reads this, grid
      requires grid.Length == CELLS && OnBoard(c, r)
      ensures b <==> exists k | 0 <= k < CELLS :: BlockSquare(c, r, k) && grid[k] == Empty
    {
      LegalBlockIff(grid[..], c, r);
      BoardStates.LegalBlock(grid[..], c, r)
    }

    /** Puts blocks on C R and its reflections, or fails if legalBlock refuses. */
    method SetBlock(c: char, r: char) returns (outcome: Outcome)
      requires Valid() && OnBoard(c, r)
      modifies grid
      ensures Valid()
      ensures BoardStates.LegalBlock(old(grid[..]), c, r) ==> outcome == Done && grid[..] == Blocked4(old(grid[..]), c, r)
      ensures !BoardStates.LegalBlock(old(grid[..]), c, r) ==> outcome == Fail("illegal block placement") && grid[..] == old(grid[..])
    {
      if !LegalBlock(c, r) {
        return Fail("illegal block placement");
      }
      var col := MirrorCol(c);
      var row := MirrorRow(r);
      grid[Index(c, r)] := Blocked;
      grid[Index(c, row)] := Blocked;
      grid[Index(col, row)] := Blocked;
      grid[Index(col, r)] := Blocked;
      BlockEffect(old(grid[..]), c, r);
      return Done;
    }

    /** Two boards are equal iff their grids are. */
    predicate Equals(other: Board)
      reads this, grid, other, other.grid
      ensures Equals(other) <==> grid[..] == other.grid[..]
    {
      grid.Length == other.grid.Length && forall k :: 0 <= k < grid.Length ==> grid[k] == other.grid[k]
    }
  }
}
