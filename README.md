# Fox and Geese rule engine in Dafny

This project models the rule engine of a terminal Fox and Geese game and proves
properties of it. The game is played on a 9x9 cross-shaped board: one fox and
eighteen geese. The fox moves one step in any direction or jumps over a goose,
capturing it. The geese move one step. The fox wins after ten captures; the
geese win when the fox has no open step or jump.

Modules:

- `Board` (`board.dfy`): the board of `Gameboard.py`.
  - Holds the cell marks (`' '` off the cross, `'-'` empty, `'G'`, `'F'`).
  - Holds the `GameBoard` class, whose `array2<char>` field is written in place.
  - Holds `CreateBoard`, its three loops proved against a cell-by-cell
    description of the starting position.
  - Proves the piece counts of the starting position.
- `PyText` (`pytext.dfy`): the parts of Python's `str.split()` and `int()`
  that the input check uses.
- `Engine` (`engine.dfy`): the `FoxAndGeese` class of `fox_and_geese.py`.
  - The validator `LogicValidMove` is a function over a board value.
  - It returns `None` where the Python method falls off its end.
  - The move methods (`MovePiece`, `FoxMove`, `GeeseMove`, `CurrentPlayersMove`)
    write the array in place. Each is proved to leave
    `ApplyMove(old board, start, end)` on an accepted move and to change
    nothing otherwise.
  - `CheckWin` runs the two candidate loops of the source. It is proved to
    report a geese win exactly when none of the sixteen candidates is open:
    no empty neighbour, and no neighbouring goose with an empty cell behind
    it in a straight or diagonal line.
  - Apart from the notch pairs, those candidates are exactly the fox's legal
    straight and diagonal moves (`StepCandidateIsLegal`,
    `JumpCandidateIsLegal`).
  - The object invariant `Valid()`:
    - the board is well formed: the cross cells are exactly the non-`' '`
      cells, every cell holds a known mark, and there is exactly one fox;
    - every goose is either on the board or counted in `geeseKicked`
      (18 in total);
    - the player is `'F'` or `'G'`;
    - a fox position is recorded whenever the geese are to move.
  - Every public move method (`MovePiece`, `FoxMove`, `GeeseMove`,
    `CurrentPlayersMove`) preserves `Valid()`. The helper `WriteMove` only
    performs the board writes.
- `Wrappers` (`wrappers.dfy`): `Option`.

The usual rules of the game differ from the code in four places. The model
follows the code each time.

- The usual rules use 13 geese. `create_board` places 18: rows 0..2 of
  columns 3..5 and all of row 3.
- The usual rules let the fox jump only in a straight or diagonal line.
  `logic_valid_move` accepts any fox displacement in which one coordinate
  changes by exactly 2, provided the floor midpoint holds a goose and the
  landing cell is empty. A move of (2, 1) is one example
  (`OffLineJumpAccepted`). `check_win` looks only at the sixteen straight
  and diagonal candidates, so such moves do not count towards the fox's
  mobility there.
- `check_win` counts a step across a notch (for example from (6,3) to
  (5,2)) as a way out for the fox, although `logic_valid_move` refuses that
  step (`NotchStepCounted`). A fox whose only way out is such a step is not
  declared beaten.
- A game with undo keeps a move history. The engine code keeps none.

## Model

| member | source | states |
|---|---|---|
| Board.GameBoard.CreateBoard | Gameboard.py:7-28 | The fresh 9x9 array holds the fox at (7,4), geese on rows 0..2 of columns 3..5 and on all of row 3, `'-'` on every other cross cell and `' '` off the cross; the later loops override the earlier ones |
| Board.GameBoard.constructor | Gameboard.py:4-5 | A new board object holds the starting position |
| Board.GameBoard.Set | fox_and_geese.py:102-108 | An item assignment `board[x][y] = v` changes exactly cell (x, y) of the board |
| Board.CountPut | fox_and_geese.py:102-108 | Overwriting one cell changes the count of a mark by the removed and added occurrences only |
| Board.InitialGridIsPicture | Gameboard.py:8-27 | The starting position, row by row: three rows with geese in the top arm, a full goose row, two empty rows, and the bottom arm with the fox in its middle row |
| Board.PictureCount | Gameboard.py:8-27 | The starting position has 18 geese, 1 fox, 26 empty cells and 36 cells off the cross |
| Board.InitialCounts | Gameboard.py:19-27 | The board that `create_board` builds has 18 geese, exactly one fox, 26 empty playable cells and 36 invalid cells |
| Board.InitialWellFormed | Gameboard.py:8-27 | The starting board is well formed: `' '` exactly off the cross, every cell one of the four marks, one fox |
| Engine.SanitizeValidInput | fox_and_geese.py:39-49 | The result is VALID_INPUT or NOT_VALID_INPUT; every keyword is accepted; any other input is accepted exactly when it splits into two tokens that `int()` reads as numbers in 0..8 (so "03 4" and "+3 4" are accepted too) |
| Engine.SanitizeAcceptsCoordinates | fox_and_geese.py:43-45 | Two decimal numbers in 0..8, separated by whitespace and optionally surrounded by it, are accepted |
| Engine.SanitizeRejectsOutOfRange | fox_and_geese.py:43-47 | Two decimal numbers of which one exceeds 8 are refused |
| Engine.SanitizeRejectsOneWord | fox_and_geese.py:40-49 | A single whitespace-free word that is not a keyword, such as "3,4", is refused |
| Engine.DigitTextNotKeyword | fox_and_geese.py:40 | Text that starts with a digit is never one of the keywords |
| Engine.LogicValidMove | fox_and_geese.py:52-95 | A notch pair is always refused, as is an end cell off the board. VALID_POSITION holds exactly for legal moves: not a notch pair, end on the board, end different from start and empty, start holding the mover's piece, and either one king step or, for the fox, a move with a coordinate changing by 2 over a goose at the floor midpoint. `None` is returned exactly on the unjudged inputs. |
| Engine.OffLineJumpAccepted | fox_and_geese.py:80-84 | The fox may move by (2, 1) over a goose at the floor midpoint, a displacement that is not a doubled king step |
| Engine.MidInside | fox_and_geese.py:82 | The floor midpoint of two cells on the board is on the board, and for a jump it differs from both ends |
| Engine.ApplyMove | fox_and_geese.py:102-108 | After a move the start cell is `'-'` and the end cell holds the start piece. On a jump over a goose the midpoint is `'-'`. Every other cell is unchanged. |
| Engine.AcceptedCapture | fox_and_geese.py:78-95 | On an accepted move a goose is captured exactly when a coordinate changes by 2, and only the fox's own moves capture |
| Engine.MoveCounts | fox_and_geese.py:102-109 | An accepted move keeps the fox count and lowers the goose count by one on a capture, otherwise keeping it |
| Engine.MoveKeepsWellFormed | fox_and_geese.py:101-108 | An accepted move keeps the board well formed (one fox, marks in place) |
| Engine.AcceptedMove | fox_and_geese.py:101-109 | After an accepted move a goose is removed exactly on a jump, and counting the removed goose keeps the game invariant |
| Engine.InitialValid | fox_and_geese.py:17-21 | The starting state (fox to move, nothing kicked, no recorded position) satisfies the game invariant |
| Engine.MoveKeepsConsistent | fox_and_geese.py:101-109 | An accepted move, with the kick counter advanced on a capture, keeps the game invariant: every goose is on the board or kicked |
| Engine.FoxAndGeese.constructor | fox_and_geese.py:17-21 | A new game holds the starting board, the fox to move, no geese kicked and no recorded position, and satisfies the object invariant |
| Engine.FoxAndGeese.MovePiece | fox_and_geese.py:97-109 | Accepted moves leave `ApplyMove` of the old board and advance `geeseKicked` by one exactly on a jump. Refused moves change nothing. The object invariant is kept. |
| Engine.FoxAndGeese.WriteMove | fox_and_geese.py:102-108 | The in-place writes of `move_piece` leave exactly `ApplyMove` of the old board and report whether a goose was removed |
| Engine.FoxAndGeese.FoxMove | fox_and_geese.py:111-117 | Accepted moves return FOX_MOVING and apply the move. The fox's end cell is recorded, and it holds the moved piece. The turn passes to the geese. Refused moves return None and change no field or cell. |
| Engine.FoxAndGeese.GeeseMove | fox_and_geese.py:120-125 | Accepted moves return GOOSE_MOVING, apply the move and pass the turn to the fox. Refused moves return None and change nothing. The recorded fox position is never touched. An accepted move needs a recorded fox position or ten kicked geese, because the `check_win` call that follows reads it. |
| Engine.FoxAndGeese.CurrentPlayersMove | fox_and_geese.py:129-133 | The turn alternates on every accepted move and stays put otherwise. The status names the side that moved. A fox move records its end cell; a goose move keeps the recorded position. The recorded position keeps holding the fox. |
| Engine.DirectionIsStep | fox_and_geese.py:140 | Each entry of `directions` is one of the eight king steps |
| Engine.StepIsDirection | fox_and_geese.py:140 | Each of the eight king steps is listed in `directions` |
| Engine.JumpDirectionIsDoubledStep | fox_and_geese.py:141 | Each entry of `jump_directions` is a king step doubled |
| Engine.DoubledStepIsJumpDirection | fox_and_geese.py:141 | Each doubled king step is listed in `jump_directions` |
| Engine.JumpAsCandidate | fox_and_geese.py:150-156 | A straight or diagonal jump over a goose into an empty cell passes the second loop's test |
| Engine.CandidateAsJump | fox_and_geese.py:150-156 | A jump direction passing the second loop's test is a straight or diagonal jump over a goose into an empty cell |
| Engine.CandidatesMatchMobility | fox_and_geese.py:140-156 | The fox can move exactly when some direction passes the first loop's test or some jump direction passes the second's |
| Engine.StepTargetsNonEmpty | fox_and_geese.py:145-148 | The first loop collects a cell exactly when some direction has an empty neighbour on the board |
| Engine.JumpTargetsNonEmpty | fox_and_geese.py:150-156 | The second loop collects a cell exactly when some jump direction has a goose to jump into an empty cell |
| Engine.StepTargetsAvoid | fox_and_geese.py:145-148 | No cell the first loop collects is the fox's own cell |
| Engine.JumpTargetsAvoid | fox_and_geese.py:150-156 | No cell the second loop collects is the fox's own cell |
| Engine.CandidatesMeanMobility | fox_and_geese.py:143-161 | `potential_moves` is non-empty exactly when the fox can step or jump |
| Engine.CandidatesAvoidFox | fox_and_geese.py:163-164 | The fox's own cell is never among the candidates, so the one-candidate tie-break never applies |
| Engine.StepCandidateIsLegal | fox_and_geese.py:145-148 | A step of the fox in a king direction is legal for the validator exactly when `check_win`'s first-loop test holds for it and it is not a notch pair |
| Engine.JumpCandidateIsLegal | fox_and_geese.py:150-156 | A straight or diagonal jump of the fox is legal for the validator exactly when the neighbour holds a goose, the cell behind is on the board and empty, and it is not a notch pair |
| Engine.NotchStepCounted | fox_and_geese.py:145-148 | With the fox at (6,3) and (5,2) empty, `check_win` counts the step to (5,2) as a way out while `logic_valid_move` refuses it |
| Engine.StepTurn | fox_and_geese.py:145-148 | One iteration of the first loop keeps the collected cells on course for the full list |
| Engine.JumpTurn | fox_and_geese.py:150-156 | One iteration of the second loop keeps the collected cells on course for the full list |
| Engine.JumpCandidateTest | fox_and_geese.py:151-155 | When the landing cell is on the board, so is the midpoint `fox_pos + d // 2`, and the source's test agrees with the jump condition; otherwise the test fails |
| Engine.FoxAndGeese.StepCandidates | fox_and_geese.py:143-148 | The first loop returns the empty on-board neighbours of the fox, in the order of `directions` |
| Engine.FoxAndGeese.StepTest | fox_and_geese.py:146-147 | The first loop's test on the board array holds exactly when the neighbour in that direction is on the board and empty |
| Engine.FoxAndGeese.JumpTest | fox_and_geese.py:151-155 | The second loop's test on the board array holds exactly when the landing cell is on the board and empty and the cell half-way holds a goose |
| Engine.FoxAndGeese.JumpCandidates | fox_and_geese.py:150-156 | The second loop returns the jump landing cells, in the order of `jump_directions` |
| Engine.FoxAndGeese.CheckWin | fox_and_geese.py:135-166 | FOX_WIN is returned exactly when at least ten geese are kicked, before any mobility test. Otherwise GEESE_WIN is returned exactly when the fox, at its recorded position, has no empty neighbour and no goose to jump into an empty cell. The result is one of FOX_WIN, GEESE_WIN and VALID_POSITION. |
| PyText.Split | fox_and_geese.py:43 | `str.split()` returns non-empty whitespace-free words whose concatenation is the input without its whitespace |
| PyText.SplitWord | fox_and_geese.py:43 | A word followed by whitespace or by nothing is split off whole |
| PyText.SplitAfterSpaces | fox_and_geese.py:43 | Leading whitespace does not change the split |
| PyText.SplitTwoWords | fox_and_geese.py:43 | Two words separated, and optionally surrounded, by whitespace split into exactly those two words |
| PyText.SplitTwoBareWords | fox_and_geese.py:43 | Two words separated by whitespace split into exactly those two words |
| PyText.NatToStringDigits | fox_and_geese.py:43 | The decimal rendering of a number consists of digits whose value is that number |
| PyText.ParseNatToString | fox_and_geese.py:43 | `int(str(n)) == n` for every natural number |

## Left out

- `Fox_And_Geese_Game.py` is not part of this model. It is a terminal driver: menus, keyboard input, replay pauses, screen clearing, JSON save and load, and undo by copying the engine's state. It also calls engine members that the engine does not define.
- `GameBoard.print_board` (Gameboard.py:30-36) is left out: it is terminal output and a shell call.
- Move history, undo, replay and serialisation are left out: the engine code keeps no history.
- The `check_win()` calls inside `fox_move` and `geese_move` (fox_and_geese.py:116, 124) are not modelled. Their results are discarded, and `check_win` changes no state. The call in `fox_move` runs after the end cell is recorded and cannot raise. The call in `geese_move` raises TypeError when no fox position is recorded and fewer than ten geese are kicked. `GeeseMove` therefore requires a recorded position or ten kicks for an accepted move, and `Valid()` keeps a recorded position whenever the geese are to move, so `CurrentPlayersMove` always meets that requirement.
- The read-only properties (fox_and_geese.py:23-37) are not modelled as members; the model reads the fields directly.
- The `GameStatus` enum is a datatype whose constructors follow the enum's order. The numeric values 1..9 are not modelled.
- Engine.LogicValidMove: requires the start cell on the board, and the end cell too when the start holds a goose, because Python would index with a negative or too-large coordinate there (a wrapped index or an IndexError). An end cell off the board is otherwise modelled and refused, as at fox_and_geese.py:72.
- Engine.FoxAndGeese.MovePiece: requires the same coordinate bounds as `LogicValidMove`, for the same reason; so do FoxMove, GeeseMove and CurrentPlayersMove.
- Engine.FoxAndGeese.MovePiece: the board writes and the capture test sit in the helper `WriteMove`, and the kick counter advances after it returns, under the same condition as in the source.
- Engine.FoxAndGeese.CheckWin: requires a recorded fox position when fewer than ten geese are kicked, because the source indexes `None` there and raises TypeError.
- Engine.FoxAndGeese.CheckWin: the two loops are the methods `StepCandidates` and `JumpCandidates`, each walking its own list, with the test of one iteration in `StepTest` and `JumpTest`. Their results are concatenated, where the source appends to one list. The resulting list is the same.
- Engine.FoxAndGeese.CurrentPlayersMove: promises that the recorded position holds the fox only for moves dispatched by turn. Calling `FoxMove` directly on the geese's turn records the end of a goose move, as the source does.
- Engine.SanitizeValidInput: requires ASCII input, because Unicode whitespace and Unicode digits, which Python's `split()` and `int()` also accept, are not modelled. Signs and single underscores between digits, which `int()` accepts, are modelled. The `isinstance(input, str)` test is always true in the model.
