/** The setup and outcome part of the game controller: the SETUP, PLAYING
 *  and FINISHED states that guard the commands, the flags that say which
 *  colours the computer plays, and the announcement of the winner.  The
 *  commands' text arrives already split into operands; reading it and
 *  printing messages are not modelled, so a failed command returns its
 *  GameException message and the winner announcement is returned. */
module Games {
  import opened Geometry
  import opened Pieces
  import opened Moves
  import opened Outcomes
  import opened Rules
  import opened BoardStates
  import opened Boards

  /** Game.State. */
  datatype GameState = Setup | Playing | Finished

  /** Which kind of player a colour gets when a game starts. */
  datatype PlayerKind = ManualPlayer | AIPlayer

  /** The message of checkState when CMND is not allowed in this state. */
  function NotAllowed(cmnd: string): string
  {
    "'" + cmnd + "' command is not allowed now."
  }

  /** The lower-case form of an ASCII letter; other characters unchanged. */
  function Lower(ch: char): (l: char)
    ensures 'a' <= l <= 'z' <==> 'a' <= ch <= 'z' || 'A' <= ch <= 'Z'
  {
    if 'A' <= ch <= 'Z' then (ch as int - 'A' as int + 'a' as int) as char else ch
  }

  /** String.equalsIgnoreCase, for ASCII letters. */
  predicate EqualsIgnoreCase(a: string, b: string)
  {
    |a| == |b| && forall i | 0 <= i < |a| :: Lower(a[i]) == Lower(b[i])
  }

  /** The players of process() once setup ends: red is a computer player
   *  exactly when aiRed is set, blue exactly when aiBlue is. */
  function Players(aiRed: bool, aiBlue: bool): (players: (PlayerKind, PlayerKind))
    ensures players.0 == AIPlayer <==> aiRed
    ensures players.1 == AIPlayer <==> aiBlue
  {
    if !aiRed && aiBlue then (ManualPlayer, AIPlayer)
    else if aiRed && aiBlue then (AIPlayer, AIPlayer)
    else if aiRed && !aiBlue then (AIPlayer, ManualPlayer)
    else (ManualPlayer, ManualPlayer)
  }

  class Game {
    const board: Board
    var state: GameState
    /** Whether the computer plays red. */
    var aiRed: bool
    /** Whether the computer plays blue. */
    var aiBlue: bool

    ghost predicate Valid()
      reads this, board, board.grid, board.undoLog
    {
      board.Valid()
    }

    /** A game on BOARD, in setup, with blue played by the computer and red
     *  by hand. */
    constructor (board: Board)
      ensures this.board == board && state == Setup && aiBlue && !aiRed
    {
      this.board := board;
      state := Setup;
      aiBlue := true;
      aiRed := false;
    }

    /** checkState: returns normally exactly when the state is one of
     *  STATES, and otherwise fails naming CMND. */
    method CheckState(cmnd: string, states: seq<GameState>) returns (outcome: Outcome)
      ensures state in states <==> outcome == Done
      ensures state !in states ==> outcome == Fail(NotAllowed(cmnd))
    {
      for i := 0 to |states|
        invariant state !in states[..i]
      {
        if states[i] == state {
          return Done;
        }
      }
      return Fail(NotAllowed(cmnd));
    }

    /** 'start': from setup to playing. */
    method DoStart() returns (outcome: Outcome)
      modifies this
      ensures old(state) == Setup ==> outcome == Done && state == Playing
      ensures old(state) != Setup ==> outcome == Fail(NotAllowed("start")) && state == old(state)
      ensures aiRed == old(aiRed) && aiBlue == old(aiBlue)
    {
      outcome := CheckState("start", [Setup]);
      if outcome.Fail? {
        return;
      }
      state := Playing;
    }

    /** 'auto OPERAND': in setup, the computer takes red if OPERAND is "red"
     *  in any case, and blue for any other operand. */
    method DoAuto(operand: string) returns (outcome: Outcome)
      modifies this
      ensures old(state) == Setup ==>
        outcome == Done
        && aiRed == (old(aiRed) || EqualsIgnoreCase(operand, "red"))
        && aiBlue == (old(aiBlue) || !EqualsIgnoreCase(operand, "red"))
      ensures old(state) != Setup ==>
        outcome == Fail(NotAllowed("auto")) && aiRed == old(aiRed) && aiBlue == old(aiBlue)
      ensures state == old(state)
    {
      outcome := CheckState("auto", [Setup]);
      if outcome.Fail? {
        return;
      }
      if EqualsIgnoreCase(operand, "red") {
        aiRed := true;
      } else {
        aiBlue := true;
      }
    }

    /** 'manual OPERAND': in setup, blue is played by hand if OPERAND is
     *  "blue" in any case, and red for any other operand. */
    method DoManual(operand: string) returns (outcome: Outcome)
      modifies this
      ensures old(state) == Setup ==>
        outcome == Done
        && aiBlue == (old(aiBlue) && !EqualsIgnoreCase(operand, "blue"))
        && aiRed == (old(aiRed) && EqualsIgnoreCase(operand, "blue"))
      ensures old(state) != Setup ==>
        outcome == Fail(NotAllowed("manual")) && aiRed == old(aiRed) && aiBlue == old(aiBlue)
      ensures state == old(state)
    {
      outcome := CheckState("manual", [Setup]);
      if outcome.Fail? {
        return;
      }
      if EqualsIgnoreCase(operand, "blue") {
        aiBlue := false;
      } else {
        aiRed := false;
      }
    }

    /** 'clear': clears the board and returns to setup, from any state. */
    method DoClear()
      requires Valid()
      modifies this, board, board.grid
      ensures Valid() && state == Setup
      ensures board.State() == ClearSpec(old(board.State()))
      ensures aiRed == old(aiRed) && aiBlue == old(aiBlue)
    {
      board.Clear();
      state := Setup;
    }

    /** 'block OPERANDS': in setup, with exactly one operand naming a square,
     *  places the block and its reflections as setBlock does. */
    method DoBlock(operands: seq<string>) returns (outcome: Outcome)
      requires Valid()
      requires |operands| == 1 ==> |operands[0]| >= 2 && OnBoard(operands[0][0], operands[0][1])
      modifies board.grid
      ensures Valid()
      ensures old(state) != Setup ==> outcome == Fail(NotAllowed("block")) && board.grid[..] == old(board.grid[..])
      ensures old(state) == Setup && |operands| != 1 ==>
        outcome == Fail("not in setup mode!") && board.grid[..] == old(board.grid[..])
      ensures old(state) == Setup && |operands| == 1 ==>
        var c, r := operands[0][0], operands[0][1];
        if BoardStates.LegalBlock(old(board.grid[..]), c, r)
        then outcome == Done && board.grid[..] == Blocked4(old(board.grid[..]), c, r)
        else outcome == Fail("illegal block placement") && board.grid[..] == old(board.grid[..])
    {
      outcome := CheckState("block", [Setup]);
      if outcome.Fail? {
        return;
      }
      if |operands| != 1 {
        return Fail("not in setup mode!");
      }
      var block1 := operands[0][0];
      var block2 := operands[0][1];
      outcome := board.SetBlock(block1, block2);
    }

    /** 'pass': while playing, the player on move passes as makeMove(PASS)
     *  does, which fails when that player can move. */
    method DoPass() returns (outcome: Outcome)
      requires Valid()
      modifies board, board.grid, board.undoLog, board.allMoves
      ensures Valid()
      ensures old(state) == Playing ==> (board.State(), outcome) == MakeMoveSpec(old(board.State()), Some(Move.Pass))
      ensures old(state) != Playing ==> outcome == Fail(NotAllowed("pass")) && board.State() == old(board.State())
    {
      outcome := CheckState("pass", [Playing]);
      if outcome.Fail? {
        return;
      }
      outcome := board.MakeMove(Some(Move.Pass));
    }

    /** reportWinner: the colour with more pieces wins; equal counts are a
     *  draw. */
    method ReportWinner() returns (msg: string)
      requires board.grid.Length == CELLS
      ensures msg == "Red wins." <==> Count(board.grid[..], Red) > Count(board.grid[..], Blue)
      ensures msg == "Blue wins." <==> Count(board.grid[..], Blue) > Count(board.grid[..], Red)
      ensures msg == "Draw." <==> Count(board.grid[..], Red) == Count(board.grid[..], Blue)
    {
      msg := "Draw.";
      var numRed := board.RedPieces();
      var numBlue := board.BluePieces();
      if numRed > numBlue {
        msg := "Red wins.";
      } else if numBlue > numRed {
        msg := "Blue wins.";
      }
    }
  }
}
