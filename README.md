# Ataxx board, search and game controller in Dafny

This project models the core of a Java implementation of Ataxx. Ataxx is a
two-player game on a 7×7 board. Red and Blue take turns:

- An *extend* copies a piece to an adjacent square.
- A *jump* moves a piece two squares away.
- Either way, every opposing piece next to the destination changes colour.
- A player with no move passes.
- The game ends when neither side can move, when one colour has no pieces
  left, or after 25 consecutive jumps.
- Before play starts, blocks may be placed on the board in groups of four
  mirrored squares.

The model follows the three core classes:

- **`Board`** (`geometry.dfy`, `pieces.dfy`, `moves.dfy`, `rules.dfy`,
  `effects.dfy`, `states.dfy`, `boards.dfy`).
  - It covers the 11×11 array with its two-deep border, squares and
    linearized indices, piece counts, and the `legalMove`/`canMove`
    scan.
  - It covers `makeMove` with flipping and its per-move undo records,
    `pass`, `undo`, `clear`, and block placement.
  - The class is a Dafny `class` whose grid is an `array`. The undo stack
    and the move list are objects of their own, because the copy
    constructor shares them.
  - `makeMove` (and the four-character `makeMove`), `undo` and `clear`
    are proved against functions on a `BoardState` value (`MakeMoveSpec`,
    `UndoSpec` and `ClearSpec`). The lemmas about those functions state
    what the game promises.
  - The smaller methods are proved against grid-level functions or field
    equations:
    - `setBlock` against `Blocked4` on the grid;
    - `flipPieces` against `Infected` and `FlipRecord`;
    - `addUndo` and `set` against `RecordUndo`;
    - `pass` against the player-on-move field.
- **`AI`** (`search.dfy`).
  - It covers `findMove` with its board copies, candidate lists, window
    and early returns, `staticScore`, and the move generation of
    `beginStoreMoves`/`storedMoves`.
  - Each method is proved equal to a recursive specification
    (`SearchValue`, `FirstCandidate`). The lemmas relate that
    specification to a windowless reference, `FirstLine`.
- **`Game`** (`games.dfy`).
  - It covers the SETUP/PLAYING/FINISHED state machine as `checkState`
    enforces it, the `auto`, `manual`, `start`, `clear`, `block` and
    `pass` commands, the player table of `process`, and `reportWinner`.

Three behaviours of the code, which the model keeps on purpose:

- **The search looks only at the first candidate.** `findMove` has a
  `return v` (or a `break` and then `return 0`) inside its loop over the
  candidates. So it evaluates only the first legal move of each position,
  and the move it records at the root is the first move of the row-major
  scan. It does not pick the best move that its doc comment describes.
  `FullWindow` and `FirstCandidateLegal` state what the code does instead.
- **Only the player on move can have a move.** `legalMove` accepts only
  pieces of the player on move, so `canMove` is false for the other
  colour. The "neither side can move" test of `gameOver` therefore reduces
  to "the player on move cannot move" (`GameOverForMover`).
- **A block can replace a piece.** The doc comment of `setBlock` calls
  that an error. `legalBlock` refuses a block only when all four mirrored
  squares are occupied, so a block can land on a piece
  (`BlockOverPieceAccepted`).

The model also keeps these details of the code:

- A failed `makeMove` of a non-null move still appends the move to
  `allMoves`. A null move fails before the append.
- A pass is not recorded for undo. So after a move and a pass, one undo
  takes back the move but leaves the other player on move
  (`PassThenUndo`).
- `undo` leaves the jump counter unchanged.
- The copy constructor shares the undo stack and the move list, and
  resets the move count.
- The AI's board copies therefore push onto the live board's undo stack
  and move list. The search methods state this as the old contents being
  a prefix of the new contents.

## Model

| member | source | states |
|---|---|---|
| Geometry.Index | ataxx/Board.java:77-80 | the linearized index of a square of the extended board lies in the 121-cell array, at the column and row offset by the two-deep border |
| Geometry.IndexExamples | ataxx/BoardTest.java:62-68 | a1, b1, d7 and g1 have the indices 24, 25, 93 and 30 |
| Geometry.PlayableIndex | ataxx/Board.java:16-28 | a square's index is a playing square exactly when the square lies between a1 and g7; every other index is border |
| Geometry.NeighborIndex | ataxx/Board.java:82-86 | the neighbour of a playing square at offsets of at most two is the index of the square that many columns and rows away, and it is still on the extended board |
| Geometry.Neighbor | ataxx/Board.java:82-86 | stepping up to two columns and rows from a playing square stays inside the array and moves the column and row by exactly those offsets |
| Geometry.CoordsDetermineCell | ataxx/Board.java:30-32 | two indices with the same column and row are the same square |
| Pieces.Opposite | ataxx/Board.java:286-287 | the opposite of a side is the other side: red for blue and blue for red |
| Moves.MoveExamples | ataxx/MoveTest.java:15-43 | a3-b2 and b4-b5 are extends, b2-b4 is a jump and not an extend, and the pass is neither |
| Rules.Count | ataxx/Board.java:127-136 | the number of squares holding a colour is at most the size of the board |
| Rules.CountPositions | ataxx/Board.java:127-136 | the piece count equals the number of squares that hold the colour |
| Rules.CandidatesMember | ataxx/AI.java:121-149 | a move is generated exactly when it starts on a playing square holding the colour and is one of the 25 offsets that legalMove accepts |
| Rules.CandidatesExact | ataxx/AI.java:121-149 | on a well-formed board the moves generated for the player on move are exactly that player's legal piece moves |
| Rules.CandidatesOfOther | ataxx/AI.java:121-149 | no move is generated for the colour not on move |
| Rules.CanMoveHasCandidate | ataxx/Board.java:206-227 | if canMove holds, the move scan finds at least one move |
| Rules.CandidateGivesCanMove | ataxx/Board.java:206-227 | if the move scan finds a move, canMove holds |
| Rules.CanMoveIffCandidates | ataxx/Board.java:206-227 | canMove holds exactly when the move scan is non-empty, and only ever for the player on move |
| Rules.MoveFromGivesCanMove | ataxx/Board.java:209-220 | a piece of the colour with a legal offset move makes canMove true |
| Rules.AllStuckCannotMove | ataxx/Board.java:209-226 | if no square of the colour has a legal offset move, canMove is false |
| Rules.GameOverForMover | ataxx/Board.java:107-115 | the game is over exactly when the jump limit is reached, the player on move cannot move, or a colour has no pieces; the other colour can never move |
| Rules.PassLegalIffNoCandidates | ataxx/Board.java:190-192 | a pass is legal exactly when the move scan finds no move for the player on move |
| Effects.Apply | ataxx/Board.java:270-282 | a piece move yields a grid of the same size |
| Effects.StepGeometry | ataxx/Board.java:199-201 | a legal move's source and destination differ; an extend's destination is adjacent to its source and a jump's is not |
| Effects.ApplyAt | ataxx/Board.java:270-282 | after a move, each square holds the mover's colour if it is the destination or an opposing neighbour of it, empty if it is a jump's source, and its old content otherwise |
| Effects.Restore | ataxx/Board.java:307-310 | writing an undo record back keeps the grid's size |
| Effects.RecordUndo | ataxx/Board.java:354-362 | recording a square adds that square to the top undo record and keeps every other entry |
| Effects.PlacedKeepsAround | ataxx/Board.java:270-274 | placing the piece does not change which neighbours the flip then records |
| Effects.FrameAssembled | ataxx/Board.java:270-282 | the undo record built step by step is the placement record followed by the flip record |
| Effects.FrameRecordsChanges | ataxx/Board.java:348-362 | a legal move's undo record holds exactly the squares the move changes, each with its value before the move |
| Effects.UndoRestores | ataxx/Board.java:305-316 | writing back a legal move's undo record gives back the grid before the move |
| Effects.ApplyWellFormed | ataxx/Board.java:259-290 | a legal move keeps the border intact and produces an undo record that touches only playing squares |
| Effects.RestoreWellFormed | ataxx/Board.java:305-316 | writing back an undo record of playing squares keeps the border intact |
| BoardStates.InitialGrid | ataxx/Board.java:88-105 | the cleared grid spans the whole extended board |
| BoardStates.ClearSpec | ataxx/Board.java:88-105 | clear sets the starting grid and gives red the move; the move count, the jump counter, the undo stack and the move list are kept |
| BoardStates.MirrorCol | ataxx/Board.java:366 | the mirrored column is on the board, as far from g as the column is from a |
| BoardStates.MirrorRow | ataxx/Board.java:367 | the mirrored row is on the board, as far from 7 as the row is from 1 |
| BoardStates.Blocked4 | ataxx/Board.java:387-392 | placing the four blocks keeps the grid's size |
| BoardStates.InitialWellFormed | ataxx/Board.java:88-105 | the cleared grid has border exactly outside a1 to g7 |
| BoardStates.InitialPosition | ataxx/BoardTest.java:43-50 | the cleared board has two red and two blue pieces, red can move, and the game is not over |
| BoardStates.MakeMoveOutcome | ataxx/Board.java:258-303 | makeMove succeeds exactly on a legal move (a pass exactly when the player on move is stuck, null never); every failure changes nothing but the move list, and any non-null move is appended to it |
| BoardStates.MakeMoveLegalPiece | ataxx/Board.java:268-290 | a legal piece move applies the move, hands the move over, counts one move, advances or resets the jump counter and pushes the move's undo record |
| BoardStates.PassNotUndoable | ataxx/Board.java:292-303 | a successful pass changes only the player on move and the move list, so it leaves the undo stack unchanged |
| BoardStates.MakeMoveValid | ataxx/Board.java:259-290 | makeMove keeps the border intact and keeps every undo record on playing squares |
| BoardStates.UndoValid | ataxx/Board.java:305-316 | undo keeps the board state valid |
| BoardStates.UndoAfterMove | ataxx/Board.java:305-316 | undo right after a legal move gives back the grid, the player on move, the move count and the undo stack; the move list keeps the move and the jump counter is not restored |
| BoardStates.UndoTimesLast | ataxx/BoardTest.java:28-30 | the last of n + 1 undos is one undo after the first n |
| BoardStates.UndoIgnores | ataxx/Board.java:305-316 | undo does not read the jump counter or the move list, and does not change them |
| BoardStates.UndoChain | ataxx/BoardTest.java:23-35 | along a chain of states, each taken back to the previous one by a single undo, as many undos as steps lead back to the first state, except for the jump counter; the move list keeps every move |
| BoardStates.UndoLine | ataxx/BoardTest.java:23-35 | after any number of legal piece moves, undoing as many times restores the grid, the player on move, the move count and the undo stack; the move list holds the whole line and only the jump counter may differ |
| BoardStates.PassThenUndo | ataxx/Board.java:292-316 | after a legal move and a successful pass, one undo restores the grid, the move count and the undo stack but leaves the other player on move |
| BoardStates.JumpCounter | ataxx/Board.java:270-282 | an extend resets the jump counter, a jump adds one, and both add one to the move count |
| BoardStates.MirrorInvolution | ataxx/Board.java:366-367 | mirroring a square twice gives the square back |
| BoardStates.BlockSymmetric | ataxx/Board.java:364-370 | legalBlock gives the same answer for a square and for its reflections, and the four blocked squares are the same |
| BoardStates.BlockEffect | ataxx/Board.java:383-395 | setBlock turns exactly the square and its three reflections into blocks, and leaves the border intact |
| BoardStates.LegalBlockIff | ataxx/Board.java:364-370 | a block is accepted exactly when one of the four mirrored squares is empty |
| BoardStates.BlockExamples | ataxx/BoardTest.java:52-59 | on a cleared board a block is refused on a1 and g1 and accepted on b1 and c6, and after the one on c6 that square is blocked |
| BoardStates.BlockOverPieceAccepted | ataxx/Board.java:378-395 | after red extends a7-b7 from the start, a block on b7 is accepted and replaces the red piece there |
| Boards.UndoStack.constructor | ataxx/Board.java:58 | a new undo stack is empty |
| Boards.MoveList.constructor | ataxx/Board.java:54 | a new move list is empty |
| Boards.FlipsDone | ataxx/Board.java:335-346 | the 3×3 flip loop, run to the end, gives the grid with the destination's opposing neighbours recoloured and records each of them |
| Boards.Board.constructor | ataxx/Board.java:47-61 | a new board has the starting grid, red on move, no moves, no jumps, an empty undo stack and an empty move list |
| Boards.Board.Copy | ataxx/Board.java:63-75 | a copy has its own copy of the grid, the same player on move and jump counter, and a move count of 0, and it shares the undo stack and the move list |
| Boards.Board.EmptyPlayingArea | ataxx/Board.java:92-96 | the clearing loops empty every playing square and leave the border alone |
| Boards.Board.Clear | ataxx/Board.java:88-105 | clear brings the board to ClearSpec of its old state |
| Boards.Board.NumPieces | ataxx/Board.java:127-136 | numPieces returns how many squares hold the colour |
| Boards.Board.RedPieces | ataxx/Board.java:117-120 | redPieces is the count of red squares |
| Boards.Board.BluePieces | ataxx/Board.java:122-125 | bluePieces is the count of blue squares |
| Boards.Board.Get | ataxx/Board.java:147-152 | get returns the content of the square, which is border exactly off a1 to g7 |
| Boards.Board.LegalMove | ataxx/Board.java:183-204 | legalMove answers whether the move is legal for the player on move: never for null, a pass iff that player is stuck, a piece move iff it starts on that player's piece, ends on an empty square and is an extend or a jump |
| Boards.Board.CanMove | ataxx/Board.java:206-227 | canMove answers whether some square of the colour has a legal move |
| Boards.Board.MoveFromSquare | ataxx/Board.java:213-222 | the inner offset loops find a legal offset from the square, or establish that none of the 25 is legal |
| Boards.Board.GameOver | ataxx/Board.java:107-115 | gameOver holds exactly when the jump limit is reached, neither colour can move, or a colour has no pieces |
| Boards.Board.StartUndo | ataxx/Board.java:348-352 | startUndo pushes an empty record |
| Boards.Board.AddUndo | ataxx/Board.java:354-362 | addUndo records the square's old content in the top record, or EMPTY when the square is already recorded and the new colour is EMPTY |
| Boards.Board.Set | ataxx/Board.java:165-171 | an undoable set changes exactly one square and records it |
| Boards.Board.FlipNeighbor | ataxx/Board.java:337-345 | one step of the flip loop recolours the neighbour if it belongs to the opponent and records it |
| Boards.Board.FlipPieces | ataxx/Board.java:333-346 | flipPieces recolours every opposing neighbour of the destination and adds them to the top undo record |
| Boards.Board.Pass | ataxx/Board.java:292-303 | pass fails if the player on move can move, and otherwise only hands the move over |
| Boards.Board.MakeMove | ataxx/Board.java:258-290 | makeMove brings the board to MakeMoveSpec of its old state and returns its outcome, keeping the board valid |
| Boards.Board.PlayPiece | ataxx/Board.java:270-290 | a legal piece move applies the move, pushes its undo record, hands the move over and updates both counters |
| Boards.Board.PlacePiece | ataxx/Board.java:270-279 | the piece goes to the destination, a jump empties its source, and both squares are recorded |
| Boards.Board.MakeMoveAt | ataxx/Board.java:248-256 | makeMove on four characters is a pass when the first one is '-', and otherwise the move they spell |
| Boards.Board.RestoreCells | ataxx/Board.java:307-310 | the undo loop writes back every entry of the record and nothing else |
| Boards.Board.Undo | ataxx/Board.java:305-316 | undo brings the board to UndoSpec of its old state and fails on an empty stack |
| Boards.Board.LegalBlock | ataxx/Board.java:364-370 | legalBlock holds exactly when one of the four mirrored squares is empty |
| Boards.Board.SetBlock | ataxx/Board.java:383-395 | setBlock places the four mirrored blocks when legalBlock allows it, and otherwise fails with the grid unchanged |
| Boards.Board.Equals | ataxx/Board.java:413-417 | two boards are equal exactly when their grids are |
| Search.Play | ataxx/AI.java:69-71 | playing a legal candidate keeps the grid well formed and hands the move over |
| Search.FirstMove | ataxx/AI.java:67-69 | the first generated move is a legal piece move of the player on move, and there is none exactly when the scan is empty |
| Search.OverIsGameOver | ataxx/AI.java:58-61 | the search's end-of-game test is gameOver of the position |
| Search.ScoreBounded | ataxx/AI.java:110-114 | a static score is smaller in size than the winning value |
| Search.DecidedIff | ataxx/AI.java:56-61 | a position is won for the player on move exactly when the game is over and that player has more pieces, and lost exactly when the player has fewer |
| Search.InnerValue | ataxx/AI.java:65-104 | an undecided node with depth left takes its value from its first candidate's child only |
| Search.SearchBounded | ataxx/AI.java:53-106 | every search value lies between minus and plus the winning value |
| Search.NodeValueInside | ataxx/AI.java:74-82 | a node's value is its first child's value or 0, and the child's value under the full window |
| Search.TerminalValues | ataxx/AI.java:55-64 | a finished game is worth plus or minus the winning value by the piece counts, and depth 0 is worth the difference in pieces |
| Search.FullWindow | ataxx/AI.java:35-106 | with the root's full window the search value is the value of the first-candidate line, whatever the sense |
| Search.ClosedWindow | ataxx/AI.java:74-104 | a node whose window is already closed is cut off after its first candidate and is worth 0 |
| Search.FirstCandidateLegal | ataxx/AI.java:117-149 | the recorded move is a legal move of the player on move, and there is none exactly when the game is decided, the depth is 0 or the player cannot move |
| Search.AI.constructor | ataxx/AI.java:21-24 | a new AI plays its colour and has no recorded move |
| Search.AI.MyMove | ataxx/AI.java:26-31 | myMove returns the first candidate of the position at depth 5, or none; the live board's undo stack and move list only grow |
| Search.AI.FindMoveRoot | ataxx/AI.java:35-43 | the root search on a copy records the first candidate when there is one and returns the recorded move |
| Search.AI.FindMove | ataxx/AI.java:53-106 | findMove returns SearchValue of the position and records the first candidate exactly when asked to |
| Search.AI.ChildPosition | ataxx/AI.java:69-71 | the position after a candidate is well formed |
| Search.AI.PlayCopy | ataxx/AI.java:69-71 | a fresh copy with the candidate played holds the child position and shares the live board's undo stack and move list |
| Search.AI.MaxNode | ataxx/AI.java:65-83 | the maximizing loop returns 0 without candidates, and otherwise the node value of the first candidate's child, recording that move when asked to |
| Search.AI.MinNode | ataxx/AI.java:84-102 | the minimizing loop returns 0 without candidates, and otherwise the node value of the first candidate's child, recording that move when asked to |
| Search.AI.StaticScore | ataxx/AI.java:109-114 | staticScore is the piece count of the player on move minus the opponent's |
| Search.AI.BeginStoreMoves | ataxx/AI.java:121-133 | the scan returns the candidate list of the colour, rows from 7 down and columns from a up |
| Search.AI.StoreRow | ataxx/AI.java:124-130 | the column loop appends the moves of one row |
| Search.AI.StoredMoves | ataxx/AI.java:136-149 | the 5×5 offset loop returns the legal moves from one square in offset order |
| Games.Lower | ataxx/Game.java:206 | folding case yields a lower-case letter exactly for ASCII letters |
| Games.Players | ataxx/Game.java:60-72 | when setup ends, red is a computer player exactly when aiRed is set, and blue exactly when aiBlue is |
| Games.Game.constructor | ataxx/Game.java:31-39 | a new game has blue played by the computer and red by hand |
| Games.Game.CheckState | ataxx/Game.java:350-357 | checkState returns normally exactly when the state is one of those allowed, and otherwise fails naming the command |
| Games.Game.DoStart | ataxx/Game.java:264-267 | start moves from setup to playing, and is refused in any other state |
| Games.Game.DoAuto | ataxx/Game.java:204-211 | in setup, auto gives red to the computer for "red" in any case and blue for any other operand; refused otherwise |
| Games.Game.DoManual | ataxx/Game.java:249-256 | in setup, manual gives blue to a person for "blue" in any case and red for any other operand; refused otherwise |
| Games.Game.DoClear | ataxx/Game.java:289-292 | clear clears the board and returns to setup from any state |
| Games.Game.DoBlock | ataxx/Game.java:307-315 | block is refused outside setup, fails unless there is exactly one operand, and otherwise does what setBlock does |
| Games.Game.DoPass | ataxx/Game.java:283-286 | pass is refused unless playing, and otherwise is makeMove of a pass |
| Games.Game.ReportWinner | ataxx/Game.java:323-335 | red wins with more pieces, blue with more pieces, and equal counts are a draw |

## Left out

- Input and output are not modelled. This covers the command loop of `process`, `doCommand`, `getMoveCmnd`, the command sources, `doLoad`, `doHelp`, `doDump`, `doQuit`, `doSeed`, the `Reporter`, the random generator and the GUI. The model returns messages instead of printing them.
- `Command` parsing is not part of this model. Operands arrive already split.
- Games.Game.DoBlock: requires a single operand to name a playing square. The Java code would throw from `charAt` or read outside the board instead.
- Boards.Board.LegalBlock and Boards.Board.SetBlock require a playing square. For a square in the two-deep border ring, Java's legalBlock reads four border cells and answers false, and setBlock then fails with "illegal block placement"; the model does not cover that case.
- Games.Game.DoAuto and Games.Game.DoManual take the first operand itself, so a missing operand is not modelled.
- Games.EqualsIgnoreCase folds only ASCII letters, not all of Unicode.
- Games.Game.constructor sets the state to SETUP. The Java field starts as null, and `process` sets SETUP before any command runs.
- Manual players, `Move.java`, `PieceColor.java`, the observers (`setChanged`/`notifyObservers`), `toString`, `hashCode` and the getters are not part of this model. The one place the core depends on them beyond what the model states is `makeMove(c0, r0, c1, r1)`, which relies on when `Move.move` returns null; see the next line.
- Boards.Board.MakeMoveAt: always builds a piece move from the four characters. In Java, `Move.move` can return null for some characters, and then `makeMove` fails with "Null move." and appends nothing to the move list. Which characters give null is decided in `Move.java`, so the model does not capture those inputs.
- The piece counters `numRed`, `numBlue`, `numEmpty`, `numBlocks` and `playerPass` are not modelled. No core method reads them, and `numPieces` always recounts the array.
- The `assert` in `pass` is not modelled, since Java assertions are off by default. The exception that follows it is modelled.
- Boards.Board.Undo: an undo on an empty stack is modelled as a `Fail` outcome, not as Java's `EmptyStackException`.
- Boards.Board.LegalMove: for a pass, the Java code first reads the cells at the pass's from/to indices. Those reads have no effect on the result and are not modelled.
- Java's 32-bit `int` arithmetic is not modelled. Piece counts, the move counter and the jump counter are unbounded, and cannot reach 2^31 in a game on 49 squares.
- Several helpers are decompositions of one Java method, so that each proof stays small:
  - `Boards.Board.PlacePiece`, `Boards.Board.PlayPiece`, `Boards.Board.EmptyPlayingArea`, `Boards.Board.RestoreCells`, `Boards.Board.FlipNeighbor` and `Boards.Board.MoveFromSquare`;
  - `Search.AI.StoreRow`, `Search.AI.MaxNode`, `Search.AI.MinNode`, `Search.AI.PlayCopy` and `Search.AI.FindMoveRoot`.
