# Tic-tac-toe against a voice agent: the game logic, verified

The repository lets a person play tic-tac-toe against an AI in a video meeting.
It keeps two independent copies of the game rules:

- **The browser client** (`client/src/App.tsx`). `MeetingView` holds a
  `GameState` record: board, current player, winner, game-over flag.
  - `handleMove` guards a move: the game is not over, the position is in 0..8
    and the cell is empty. It then writes the mark into a copy of the board and
    passes the turn. It runs `calculateWinner` and the draw test, and publishes
    `game_over` on the `GAME_MOVES` channel when the game ends.
  - `handleGameReset` publishes `reset` and restores `initialGameState`.
  - `onMessageReceived` dispatches inbound `move`, `game_over` and `reset`
    messages.
  - The board's `onMove` acts only on X's turn.
- **The move server** (`intelligence/intelligence.py`).
  - `check_winner` classifies a board as X, O, 'draw' or None.
  - `generate_server_response` chooses between a game-over answer and a move
    for O.
  - `_get_ai_move` plays the lowest empty cell where O wins at once. Otherwise
    it parses the language model's `"position|comment"` reply, and repairs the
    move when the position is not available.
  - `parse_move` reads the model's answer as a cell 0..8, or -1.

## Modules

- `option.dfy`, module `Optional`: the optional value used for cells, winners
  and parse results.
- `gameboard.dfy`, module `GameBoard`: the player, cell and board values both
  sides share, and counting of marks.
- `pytext.dfy`, module `PyText`: the Python built-ins the server relies on,
  written out. These are `str.strip()`, `str.split('|', 1)`, `str(i)` and
  `int(s)` for the strings the server hands to `int`: already stripped text
  and `str(n)`. A `ValueError` from `int` becomes `None`.
- `client.dfy`, module `Client`: `calculateWinner` as a loop proved against a
  scan function, the state transition of an accepted move, and the class
  `MeetingView`. Its field `outbox` collects every message handed to `publish`,
  oldest first.
- `intelligence.dfy`, module `Intelligence`: `check_winner`, the available
  positions, the immediate-win scan, reply parsing and repair,
  `generate_server_response` and `parse_move`. The model's reply is an
  arbitrary string parameter.
- `agreement.dfy`, module `Agreement`: the client's and the server's winner
  scans agree on every board.

## Model

| member | source | states |
|---|---|---|
| GameBoard.FullIffNoEmptyCell | intelligence/intelligence.py:81 | the server's `None not in board` holds exactly when every cell holds a mark, the client's full board |
| GameBoard.Opponent | client/src/App.tsx:97 | the turn passes to the other player: the result is never the mover |
| GameBoard.CountAbsent | client/src/App.tsx:18 | a board without a mark of `p`, such as the initial nine nulls, counts no mark of `p` |
| GameBoard.CountAfterWrite | client/src/App.tsx:78-79 | writing `p` into an empty cell of the copied board adds exactly one mark of `p` and none of the other player |
| Client.WinnerFromNone | client/src/App.tsx:133-138 | the line scan from line `k` returns null exactly when no line from `k` on has three equal non-null cells |
| Client.WinnerFromSome | client/src/App.tsx:133-136 | a non-null result of the scan is `board[a]` of the first line from `k` on whose three cells are equal and non-null |
| Client.WinnerFillsLine | client/src/App.tsx:134-135 | a winner is a mark filling a whole line; with no winner every line has a null first cell or two unequal cells, so three nulls never win |
| Client.CalculateWinner | client/src/App.tsx:121-139 | the loop with early return yields the scan's result, which is null iff no line is won |
| Client.IsFull | client/src/App.tsx:82 | `every(cell => cell !== null)` holds exactly when no cell is null, the server's `None not in board` |
| Client.AfterMove | client/src/App.tsx:77-101 | an accepted move changes only cell `position`, which then holds `player`; the turn passes to the other player; the game is over iff there is a winner or the board is full |
| Client.MovePublishes | client/src/App.tsx:84-93 | a move publishes at most one message, `game_over` carrying the winner and the final board, and does so iff it ended the game |
| Client.InitialStateIsConsistent | client/src/App.tsx:17-22 | `initialGameState` has no winner, is not over, and its winner and flag agree with its board |
| Client.InitialStateIsBalanced | client/src/App.tsx:17-22 | `initialGameState` has no marks and X to move |
| Client.MoveKeepsBalance | client/src/App.tsx:77-101 | a move by the player whose turn it is keeps the counts of X and O in step with the turn |
| Client.OnlyTheMoverCanWin | client/src/App.tsx:77-101 | from a consistent state that is not over, an accepted move leads to a consistent state, and its winner is either none or the mover |
| Client.MeetingView.constructor | client/src/App.tsx:35 | the view starts from `initialGameState` with nothing published |
| Client.MeetingView.HandleMove | client/src/App.tsx:65-102 | a finished game, a position outside 0..8 or an occupied cell changes nothing and publishes nothing; otherwise the state becomes `AfterMove` and `game_over` is published iff the game ended; consistency is preserved |
| Client.MeetingView.HandleGameReset | client/src/App.tsx:104-107 | publishes `reset`, then restores the initial state |
| Client.MeetingView.OnMessageReceived | client/src/App.tsx:38-62 | an inbound move is applied through `handleMove` only while the game is not over; `game_over` takes the sender's winner and board and ends the game; `reset` restores the initial state; other types change nothing; only a move can publish |
| Client.MeetingView.OnMove | client/src/App.tsx:213-226 | on X's turn publishes the move, then applies it as X; on O's turn does nothing; keeps the mark counts balanced and the state consistent |
| Intelligence.FirstCompleteNone | intelligence/intelligence.py:78-80 | the combination scan from `k` finds nothing exactly when no combination from `k` on is complete |
| Intelligence.FirstCompleteSome | intelligence/intelligence.py:78-80 | what the scan finds is the mark of the first complete combination, in the order rows, columns, diagonals |
| Intelligence.ClassifyMeaning | intelligence/intelligence.py:72-83 | X or O iff some combination is complete, with the mark of the first one; 'draw' iff none is complete and no cell is None; None iff none is complete and some cell is None |
| Intelligence.CheckWinner | intelligence/intelligence.py:72-83 | the loop with early return and the final draw test compute the classification |
| Intelligence.EmptyCellsFrom | intelligence/intelligence.py:87 | the cells from `i` on with `val is None`, each once, in increasing order, and all of them |
| Intelligence.AvailablePositions | intelligence/intelligence.py:87 | one entry per empty cell, in cell order, each the decimal form of its cell |
| Intelligence.NoneAvailableIffFull | intelligence/intelligence.py:89 | `available_positions` is empty exactly when every cell holds a mark |
| Intelligence.AvailableNamesEmptyCell | intelligence/intelligence.py:115 | `int(pos)` of every available position is the index of an empty cell |
| Intelligence.AvailableDistinct | intelligence/intelligence.py:87 | different available positions are different strings |
| Intelligence.AvailableIffEmpty | intelligence/intelligence.py:161 | `str(j)` is among the available positions exactly when cell `j` is empty |
| Intelligence.FirstWinNone | intelligence/intelligence.py:113-117 | the trial scan from `i` finds nothing exactly when no cell from `i` on lets O win |
| Intelligence.FirstWinSome | intelligence/intelligence.py:113-117 | what the trial scan finds is the first cell from `i` on at which O completes a combination |
| Intelligence.ScanStep | intelligence/intelligence.py:114-116 | the proof step of `GetAiMove`'s loop, not a property of its own: available position `i` names the `i`-th empty cell, and O placed on a copy there either wins, which ends the scan at `i`, or does not, which moves it on |
| Intelligence.ImmediateWin | intelligence/intelligence.py:113-117 | a found index names an empty cell at which O wins at once |
| Intelligence.ImmediateWinNone | intelligence/intelligence.py:113-117 | the scan finds nothing exactly when no empty cell lets O win at once |
| Intelligence.ImmediateWinLowest | intelligence/intelligence.py:113-117 | the cell found is empty, lets O win, and no lower empty cell does |
| Intelligence.ValidatedReply | intelligence/intelligence.py:160-163 | the move is always an available position; a proposed available position is kept with its comment, any other is replaced by the first available position and "Let me try again." |
| Intelligence.SplitAtBar | intelligence/intelligence.py:153 | `split('|', 1)` of a bar-free position, a bar and any comment gives back that position and that comment |
| Intelligence.ParseWellFormedReply | intelligence/intelligence.py:151-155 | the requested reply form `"<cell>|<comment>"`, with a comment unpadded by white space, parses back into that cell's string and that comment |
| Intelligence.WellFormedReplyIsKept | intelligence/intelligence.py:151-163 | a well-formed reply naming an empty cell passes validation unchanged |
| Intelligence.GetAiMove | intelligence/intelligence.py:110-165 | the returned position is always available; with an immediate win it is the lowest winning cell's position with the winning comment; otherwise it is the parsed and repaired reply |
| Intelligence.GenerateServerResponse | intelligence/intelligence.py:85-108 | a full board gets `game_over` with no winner and no comment, even when a line is complete; otherwise a complete combination gets `game_over` with its mark and that player's comment; otherwise a move for O into an empty cell, chosen as `_get_ai_move` chooses |
| Intelligence.DrawNeedsFullBoard | intelligence/intelligence.py:81-82 | on a board with an empty cell `check_winner` never answers 'draw', so the 'draw' branch at line 99 is unreachable |
| Intelligence.FullBoardWonByX | intelligence/intelligence.py:89-90 | a concrete full board on which X holds the top row: `check_winner` names X, yet the board has no available position |
| Intelligence.GenerateServerResponseWinnerFirst | intelligence/intelligence.py:92-108 | with `check_winner` consulted first, every outcome gets its own answer: X, O and 'draw' each get `game_over` with their comment; an open board gets a move for O into an empty cell |
| Intelligence.ParseMove | intelligence/intelligence.py:20-27 | the result is in -1..8; it is not -1 exactly when `int(content.strip())` succeeds with a value in 0..8, and then it is that value |
| Intelligence.ParseMoveOfNumber | intelligence/intelligence.py:20-25 | a number's decimal form, with white space around it, reads as that number when it is a cell, and as -1 otherwise |
| Intelligence.NoDigitNoGroups | intelligence/intelligence.py:21 | a stripped string without a digit is not a number, signed or unsigned |
| Intelligence.NoDigitNotInt | intelligence/intelligence.py:21 | `int()` raises on a stripped string with no digit |
| Intelligence.NoDigitNoMove | intelligence/intelligence.py:26-27 | a reply without a single digit makes `parse_move` return -1 instead of raising |
| PyText.DigitValue | intelligence/intelligence.py:21 | a digit character is worth 0..9 |
| PyText.DigitChar | intelligence/intelligence.py:87 | the digit character for 0..9 is a digit with that value |
| PyText.StripLeading | intelligence/intelligence.py:151 | `lstrip()` leaves a suffix, removes only white space, and stops at a character that is not white space |
| PyText.StripTrailing | intelligence/intelligence.py:151 | `rstrip()` leaves a prefix, removes only white space, and stops at a character that is not white space |
| PyText.Strip | intelligence/intelligence.py:151 | `strip()` returns no more characters than it got, with no white space at either end |
| PyText.LeadingSplit | intelligence/intelligence.py:151 | the input of `lstrip()` is white space followed by what it returns |
| PyText.TrailingSplit | intelligence/intelligence.py:151 | the input of `rstrip()` is what it returns followed by white space |
| PyText.StripRemovesOnlyEnds | intelligence/intelligence.py:154-155 | the input of `strip()` is white space, then the result as a contiguous slice, then white space |
| PyText.LeadingRemoved | intelligence/intelligence.py:21 | white space before a non-white first character is exactly what `lstrip()` removes |
| PyText.TrailingRemoved | intelligence/intelligence.py:21 | white space after a non-white last character is exactly what `rstrip()` removes |
| PyText.StripAround | intelligence/intelligence.py:21 | `strip()` of white space, a core without white space at its ends, and white space is that core |
| PyText.StripUnchanged | intelligence/intelligence.py:154 | a string without white space at its ends is its own `strip()` |
| PyText.IndexOf | intelligence/intelligence.py:153 | the first occurrence of the separator: it is there, and not before |
| PyText.IndexAfterPrefix | intelligence/intelligence.py:153 | after a prefix without the separator, the first separator is the one right after that prefix |
| PyText.SplitOnce | intelligence/intelligence.py:153 | `split('|', 1)` gives a bar-free head and a tail which, joined by a bar, rebuild the input |
| PyText.Str | intelligence/intelligence.py:87 | `str(n)` is a non-empty string of digits, a single digit below ten |
| PyText.StrDigits | intelligence/intelligence.py:104 | `str(n)` is a digit string spelling `n` |
| PyText.DigitIsPlain | intelligence/intelligence.py:21 | a digit is neither white space nor a sign |
| PyText.PyIntOfDigits | intelligence/intelligence.py:104 | `int()` reads an unsigned digit string as the number its digits spell |
| PyText.PyIntOfStr | intelligence/intelligence.py:115 | `int(str(n)) == n` |
| Agreement.ScansAgreeFrom | client/src/App.tsx:133-137 | from any line on, the client's scan and the server's combination loop return the same mark |
| Agreement.WinnerCopiesAgree | intelligence/intelligence.py:72-83 | `calculateWinner` returns a mark iff `check_winner` does, and the same one; without a winner the server answers 'draw' exactly on a full board |
| Agreement.ServerSeesClientOutcome | client/src/App.tsx:81-99 | after any accepted client move: the client's game is over iff `check_winner` answers something, both name the same winner, and a game over without a winner is the server's 'draw' |

## Left out

- PyText.PyInt: the white space it drops around the digits is the set
  `str.strip()` removes. CPython's `int()` skips only ASCII space and `\t\n\v\f\r`,
  so `int("\x1c5")` raises where `PyInt` gives 5. Every use in this model
  applies it to text `strip()` has already cleaned or to `str(n)`, where the two
  agree.

- The OpenAI chat-completion calls are not modelled. Their results (the reply
  to the move prompt, the answer in `parse_move`) are arbitrary string
  parameters.
- The prompts, `generate_chat_response` (it only picks a prompt), speech to text
  (`stt/deepgram.py`), speech synthesis (`tts/elevenlabs.py`), the HTTP endpoint
  and the meeting join (`main.py`, `agent/ai_agent.py`) are I/O and are not part
  of this model.
- Rendering, toasts, axios, `createMeeting` and `inviteAI` are left out. A
  refused move only shows a toast, so the model leaves the state and the outbox
  unchanged.
- `publish` is an append to `outbox`. Delivery, persistence and the meeting's
  other participants are left out. JSON encoding and decoding are left out too:
  inbound messages arrive already decoded as `Message` values.
- React's asynchronous state updates are left out. `handleMove` reads
  `gameState` from its closure but updates from `prev`; the model lets both
  act on the same state.
- A cell holds X, O or null. The JavaScript board type also allows other
  strings, and these are left out.
- A `game_over` message always carries a nine-cell board. A malformed one
  without `finalBoard` is left out.
- A `move` position is an integer. JavaScript non-integer positions such as
  1.5, which index `undefined`, are left out.
- `board.copy()` in the trial scan is implicit: the board is a value, so the
  trials cannot alter the caller's board.
- `int()` accepts ASCII digits only. Python also accepts other Unicode decimal
  digits; those are left out.
- A move received from the channel is not checked against whose turn it is.
  The model follows the code here, not a per-turn rule.
- The server's `self.game_moves` list is never read or written after
  construction, so it is left out.

## Findings

| source | as written | input that shows it | evidently intended | confidence | as-written member | corrected member |
|---|---|---|---|---|---|---|
| intelligence/intelligence.py:89-99 | The test for available positions comes before `check_winner`. So every full board is answered `game_over` with winner None, even when a line is complete, and the 'draw' branch with "It's a draw!" can never run. | Board `X X X / O O X / X O O` (full, X holds the top row): the answer is `{"type": "game_over", "winner": None}` instead of X | Consult `check_winner` first, so that a completed line is reported with its mark and a full board without one gets the 'draw' answer | medium, not executed | Intelligence.FullBoardWonByX | Intelligence.GenerateServerResponseWinnerFirst |
