/** The move server's copy of the game (intelligence/intelligence.py): the
    board classification, the choice between a game-over answer and a move for
    O, the immediate-win scan, and the validation and repair of the position a
    language model proposes. The model's reply is an arbitrary string. */
module Intelligence {

  import opened Optional
  import opened GameBoard
  import opened PyText

  /** What `check_winner` returns: 'X' or 'O', 'draw', or None. */
  datatype Outcome = Won(mark: Player) | Draw | NoResult

  /** The winning combinations in the order the server scans them: rows,
      columns, then the two diagonals. */
  const WinningCombinations: seq<(Index, Index, Index)> :=
    [(0, 1, 2), (3, 4, 5), (6, 7, 8), (0, 3, 6), (1, 4, 7), (2, 5, 8), (0, 4, 8), (2, 4, 6)]

  /** Combination `k` is complete: its three cells are equal and not None. */
  predicate Complete(b: Board, k: nat)
    requires k < |WinningCombinations|
  {
    var (c0, c1, c2) := WinningCombinations[k];
    b[c0] == b[c1] && b[c1] == b[c2] && b[c0] != None
  }

  /** The mark on the first complete combination among `WinningCombinations[k..]`. */
  function FirstComplete(b: Board, k: nat): Option<Player>
    requires k <= |WinningCombinations|
    decreases |WinningCombinations| - k
  {
    if k == |WinningCombinations| then None
    else if Complete(b, k) then b[WinningCombinations[k].0]
    else FirstComplete(b, k + 1)
  }

  /** The scan from combination `k` finds nothing exactly when none from `k` on
      is complete. */
  lemma {:induction false} FirstCompleteNone(b: Board, k: nat)
    requires k <= |WinningCombinations|
    decreases |WinningCombinations| - k
    ensures FirstComplete(b, k).None? <==> forall j :: k <= j < |WinningCombinations| ==> !Complete(b, j)
  {
    if k < |WinningCombinations| {
      FirstCompleteNone(b, k + 1);
    }
  }

  /** What the scan from combination `k` finds is the mark of the first complete one. */
  lemma {:induction false} FirstCompleteSome(b: Board, k: nat)
    requires k <= |WinningCombinations|
    decreases |WinningCombinations| - k
    ensures FirstComplete(b, k).Some? ==>
              exists j :: k <= j < |WinningCombinations| && Complete(b, j)
                          && FirstComplete(b, k) == b[WinningCombinations[j].0]
                          && forall i :: k <= i < j ==> !Complete(b, i)
  {
    if k < |WinningCombinations| && !Complete(b, k) {
      FirstCompleteSome(b, k + 1);
    }
  }

  /** The answer of `check_winner` for `b`. */
  function Classify(b: Board): Outcome
  {
    match FirstComplete(b, 0)
    case Some(p) => Won(p)
    case None => if None !in b then Draw else NoResult
  }

  /** `check_winner` names a mark exactly when some combination is complete, and
      then the mark of the first complete one in scan order; it answers 'draw'
      only when no combination is complete and no cell is None, and None when
      no combination is complete and some cell is None. */
  lemma ClassifyMeaning(b: Board)
    ensures Classify(b).Won? <==> exists k :: 0 <= k < |WinningCombinations| && Complete(b, k)
    ensures Classify(b).Won? ==>
              exists k :: 0 <= k < |WinningCombinations| && Complete(b, k)
                          && b[WinningCombinations[k].0] == Some(Classify(b).mark)
                          && forall i :: 0 <= i < k ==> !Complete(b, i)
    ensures Classify(b) == Draw <==> (forall k :: 0 <= k < |WinningCombinations| ==> !Complete(b, k)) && Full(b)
    ensures Classify(b) == NoResult <==> (forall k :: 0 <= k < |WinningCombinations| ==> !Complete(b, k)) && !Full(b)
  {
    FirstCompleteNone(b, 0);
    FirstCompleteSome(b, 0);
  }

  /** `check_winner`: the loop over the combinations with its early return,
      then the draw test. */
  method CheckWinner(board: Board) returns (r: Outcome)
    ensures r == Classify(board)
  {
    var k := 0;
    while k < |WinningCombinations|
      invariant 0 <= k <= |WinningCombinations|
      invariant FirstComplete(board, k) == FirstComplete(board, 0)
    {
      var combo := WinningCombinations[k];
      if board[combo.0] == board[combo.1] && board[combo.1] == board[combo.2] && board[combo.0] != None {
        return Won(board[combo.0].value);
      }
      k := k + 1;
    }
    if None !in board {
      return Draw;
    }
    return NoResult;
  }

  /** The indices of the empty cells of `b` from `i` on, lowest first: the
      cells `enumerate(board)` yields with `val is None`. */
  function EmptyCellsFrom(b: Board, i: nat): (cells: seq<Index>)
    requires i <= 9
    decreases 9 - i
    ensures forall k :: 0 <= k < |cells| ==> i <= cells[k] && b[cells[k]] == None
    ensures forall k, l :: 0 <= k < l < |cells| ==> cells[k] < cells[l]
    ensures forall j :: i <= j < 9 && b[j] == None ==> j in cells
  {
    if i == 9 then []
    else if b[i] == None then [i as Index] + EmptyCellsFrom(b, i + 1)
    else EmptyCellsFrom(b, i + 1)
  }

  function EmptyCells(b: Board): seq<Index>
  {
    EmptyCellsFrom(b, 0)
  }

  /** `available_positions`: `str(i)` for every empty cell `i`, lowest first. */
  function AvailablePositions(b: Board): (available: seq<string>)
    ensures |available| == |EmptyCells(b)|
    ensures forall k :: 0 <= k < |available| ==> available[k] == Str(EmptyCells(b)[k])
  {
    var cells := EmptyCells(b);
    seq(|cells|, k requires 0 <= k < |cells| => Str(cells[k]))
  }

  /** No position is available exactly when the board is full. */
  lemma NoneAvailableIffFull(b: Board)
    ensures AvailablePositions(b) == [] <==> Full(b)
  {
    if !Full(b) {
      var j :| 0 <= j < 9 && b[j] == None;
      assert j in EmptyCells(b);
    }
  }

  /** Every available position reads back with `int()` as the index of an empty cell. */
  lemma AvailableNamesEmptyCell(b: Board, k: nat)
    requires k < |AvailablePositions(b)|
    ensures PyInt(AvailablePositions(b)[k]) == Some(EmptyCells(b)[k] as int)
    ensures b[EmptyCells(b)[k]] == None
  {
    PyIntOfStr(EmptyCells(b)[k]);
  }

  /** Different available positions name different cells. */
  lemma {:induction false} AvailableDistinct(b: Board, k: nat, l: nat)
    requires k < l < |AvailablePositions(b)|
    ensures AvailablePositions(b)[k] != AvailablePositions(b)[l]
  {
    var cells := EmptyCells(b);
    PyIntOfStr(cells[k]);
    PyIntOfStr(cells[l]);
  }

  /** A cell is empty exactly when its decimal form is an available position. */
  lemma {:induction false} AvailableIffEmpty(b: Board, j: Index)
    ensures Str(j) in AvailablePositions(b) <==> b[j] == None
  {
    var available := AvailablePositions(b);
    var cells := EmptyCells(b);
    if b[j] == None {
      var k :| 0 <= k < |cells| && cells[k] == j;
      assert available[k] == Str(j);
    }
    if Str(j) in available {
      var k :| 0 <= k < |available| && available[k] == Str(j);
      PyIntOfStr(j);
      PyIntOfStr(cells[k]);
    }
  }

  /** The trial in the immediate-win scan: O written into cell `j` of a copy of
      `b` completes a combination for O. */
  predicate WinsForO(b: Board, j: Index)
  {
    Classify(b[j := Some(O)]) == Won(O)
  }

  /** The index in `cells[i..]` of the first cell at which O wins at once. */
  function FirstWinFrom(b: Board, cells: seq<Index>, i: nat): Option<nat>
    requires i <= |cells|
    decreases |cells| - i
  {
    if i == |cells| then None
    else if WinsForO(b, cells[i]) then Some(i)
    else FirstWinFrom(b, cells, i + 1)
  }

  /** The scan from `i` finds nothing exactly when no cell from `i` on wins for O. */
  lemma {:induction false} FirstWinNone(b: Board, cells: seq<Index>, i: nat)
    requires i <= |cells|
    decreases |cells| - i
    ensures FirstWinFrom(b, cells, i).None? <==> forall k :: i <= k < |cells| ==> !WinsForO(b, cells[k])
  {
    if i < |cells| {
      FirstWinNone(b, cells, i + 1);
    }
  }

  /** What the scan from `i` finds is the first cell from `i` on at which O wins. */
  lemma {:induction false} FirstWinSome(b: Board, cells: seq<Index>, i: nat)
    requires i <= |cells|
    decreases |cells| - i
    ensures FirstWinFrom(b, cells, i).Some? ==>
              var w := FirstWinFrom(b, cells, i).value;
              i <= w < |cells| && WinsForO(b, cells[w]) && forall k :: i <= k < w ==> !WinsForO(b, cells[k])
  {
    if i < |cells| && !WinsForO(b, cells[i]) {
      FirstWinSome(b, cells, i + 1);
    }
  }

  /** One step of the immediate-win scan: available position `i` names cell
      `EmptyCells(b)[i]`, and O written there either wins, so the scan stops at
      `i`, or does not, so the scan goes on from `i + 1`. */
  lemma ScanStep(b: Board, i: nat)
    requires i < |AvailablePositions(b)|
    ensures PyInt(AvailablePositions(b)[i]) == Some(EmptyCells(b)[i] as int)
    ensures Classify(b[EmptyCells(b)[i] := Some(O)]) == Won(O) ==>
              FirstWinFrom(b, EmptyCells(b), i) == Some(i)
    ensures Classify(b[EmptyCells(b)[i] := Some(O)]) != Won(O) ==>
              FirstWinFrom(b, EmptyCells(b), i) == FirstWinFrom(b, EmptyCells(b), i + 1)
  {
    AvailableNamesEmptyCell(b, i);
  }

  /** The index in `available_positions` of the lowest empty cell at which O wins at once. */
  function ImmediateWin(b: Board): (w: Option<nat>)
    ensures w.Some? ==> w.value < |EmptyCells(b)| && WinsForO(b, EmptyCells(b)[w.value])
  {
    FirstWinSome(b, EmptyCells(b), 0);
    FirstWinFrom(b, EmptyCells(b), 0)
  }

  /** An empty cell below the `w`-th empty cell is one of the first `w`. */
  lemma EmptyCellBefore(b: Board, w: nat, j: Index)
    requires w < |EmptyCells(b)| && j < EmptyCells(b)[w] && b[j] == None
    ensures exists k :: 0 <= k < w && EmptyCells(b)[k] == j
  {
    var cells := EmptyCells(b);
    assert j in cells;
    var k :| 0 <= k < |cells| && cells[k] == j;
    SortedPositions(cells, k, w);
  }

  /** In a strictly increasing sequence a smaller element comes first. */
  lemma SortedPositions(s: seq<Index>, k: nat, w: nat)
    requires forall x, y :: 0 <= x < y < |s| ==> s[x] < s[y]
    requires k < |s| && w < |s| && s[k] < s[w]
    ensures k < w
  {
  }

  /** The scan finds nothing exactly when no empty cell lets O win at once. */
  lemma ImmediateWinNone(b: Board)
    ensures ImmediateWin(b).None? <==> forall j :: 0 <= j < 9 && b[j] == None ==> !WinsForO(b, j)
  {
    var cells := EmptyCells(b);
    FirstWinNone(b, cells, 0);
    if ImmediateWin(b).None? {
      forall j | 0 <= j < 9 && b[j] == None
        ensures !WinsForO(b, j)
      {
        assert j in cells;
      }
    }
  }

  /** What the scan finds is the lowest empty cell at which O wins at once. */
  lemma ImmediateWinLowest(b: Board)
    ensures ImmediateWin(b).Some? ==>
              var cell := EmptyCells(b)[ImmediateWin(b).value];
              b[cell] == None && WinsForO(b, cell)
              && forall j :: 0 <= j < cell && b[j] == None ==> !WinsForO(b, j)
  {
    var cells := EmptyCells(b);
    FirstWinSome(b, cells, 0);
    if ImmediateWin(b).Some? {
      var w := ImmediateWin(b).value;
      forall j | 0 <= j < cells[w] && b[j] == None
        ensures !WinsForO(b, j)
      {
        EmptyCellBefore(b, w, j);
        var k :| 0 <= k < w && cells[k] == j;
        assert !WinsForO(b, cells[k]);
      }
    }
  }

  const WinComment := "Huh, I knew you were such a loser."
  const XWinsComment := "Better luck next time!"
  const DrawComment := "It's a draw!"
  const DefaultComment := "Making my move."
  const RetryComment := "Let me try again."

  /** The position and comment a reply proposes, before validation: the reply is
      stripped and split at its first '|', both parts stripped; a reply without
      '|' is all position, with the default comment. */
  function ParseReply(reply: string): (string, string)
  {
    var response := Strip(reply);
    if '|' in response then
      var (position, comment) := SplitOnce(response, '|');
      (Strip(position), Strip(comment))
    else (response, DefaultComment)
  }

  /** The proposal after validation: kept when its position is one of
      `available`, otherwise the first available position with the retry comment. */
  function ValidatedReply(reply: string, available: seq<string>): (move: (string, string))
    requires available != []
    ensures move.0 in available
    ensures ParseReply(reply).0 in available ==> move == ParseReply(reply)
    ensures ParseReply(reply).0 !in available ==> move == (available[0], RetryComment)
  {
    var (position, comment) := ParseReply(reply);
    if position in available then (position, comment) else (available[0], RetryComment)
  }

  /** `split('|', 1)` cuts at the bar that follows a bar-free prefix. */
  lemma SplitAtBar(position: string, comment: string)
    requires '|' !in position
    ensures SplitOnce(position + "|" + comment, '|') == (position, comment)
  {
    var reply := position + "|" + comment;
    IndexAfterPrefix(position, '|', comment);
    assert reply[..|position|] == position;
    assert reply[|position| + 1..] == comment;
  }

  /** The requested form "position|comment", with a comment that has no white
      space at either end, parses back into that position and comment. */
  lemma ParseWellFormedReply(j: nat, comment: string)
    requires comment == [] || (!IsSpace(comment[0]) && !IsSpace(comment[|comment| - 1]))
    ensures ParseReply(Str(j) + "|" + comment) == (Str(j), comment)
  {
    var position := Str(j);
    var reply := position + "|" + comment;
    assert !IsSpace(position[0]) && !IsSpace(position[|position| - 1]) by {
      assert IsDigit(position[0]) && IsDigit(position[|position| - 1]);
    }
    assert '|' !in position by {
      assert forall k :: 0 <= k < |position| ==> IsDigit(position[k]);
    }
    assert reply[0] == position[0];
    assert reply[|position|] == '|';
    assert reply[|reply| - 1] == if comment == [] then '|' else comment[|comment| - 1];
    StripUnchanged(reply);
    SplitAtBar(position, comment);
    StripUnchanged(position);
    StripUnchanged(comment);
  }

  /** A well-formed reply naming an empty cell passes validation unchanged. */
  lemma WellFormedReplyIsKept(b: Board, j: Index, comment: string)
    requires b[j] == None
    requires comment == [] || (!IsSpace(comment[0]) && !IsSpace(comment[|comment| - 1]))
    ensures ValidatedReply(Str(j) + "|" + comment, AvailablePositions(b)) == (Str(j), comment)
  {
    ParseWellFormedReply(j, comment);
    AvailableIffEmpty(b, j);
  }

  /** `_get_ai_move`: first the lowest-index available position at which O wins
      at once, with the winning comment; otherwise the model's reply, validated
      and repaired. The position returned is always one of `available`. */
  method GetAiMove(board: Board, available: seq<string>, reply: string)
    returns (position: string, comment: string)
    requires available == AvailablePositions(board) && available != []
    ensures position in available
    ensures ImmediateWin(board).Some? ==>
              position == available[ImmediateWin(board).value] && comment == WinComment
    ensures ImmediateWin(board).None? ==> (position, comment) == ValidatedReply(reply, available)
  {
    ghost var cells := EmptyCells(board);
    var i := 0;
    while i < |available|
      invariant 0 <= i <= |available|
      invariant FirstWinFrom(board, cells, i) == ImmediateWin(board)
    {
      var pos := available[i];
      ScanStep(board, i);
      var boardCopy := board[PyInt(pos).value := Some(O)];
      var winner := CheckWinner(boardCopy);
      if winner == Won(O) {
        return pos, WinComment;
      }
      i := i + 1;
    }

    var aiResponse := Strip(reply);
    var aiPosition, aiComment;
    if '|' in aiResponse {
      aiPosition, aiComment := SplitOnce(aiResponse, '|').0, SplitOnce(aiResponse, '|').1;
      aiPosition := Strip(aiPosition);
      aiComment := Strip(aiComment);
    } else {
      aiPosition := aiResponse;
      aiComment := DefaultComment;
    }

    assert (aiPosition, aiComment) == ParseReply(reply);
    if aiPosition !in available {
      aiPosition := available[0];
      aiComment := RetryComment;
    }
    return aiPosition, aiComment;
  }

  /** The server's answers. */
  datatype Response =
    | GameOverResponse(winner: Option<Player>, closingComment: Option<string>)
    | MoveResponse(position: int, player: Player, comment: string)

  /** `generate_server_response`: on a board with no empty cell, game over with
      no winner and no comment (whether or not a line is complete); on a board
      with a complete combination, game over naming its mark with that player's
      comment; otherwise a move for O into an empty cell. */
  method GenerateServerResponse(board: Board, reply: string) returns (r: Response)
    ensures Full(board) ==> r == GameOverResponse(None, None)
    ensures !Full(board) && Classify(board) == Won(O) ==> r == GameOverResponse(Some(O), Some(WinComment))
    ensures !Full(board) && Classify(board) == Won(X) ==> r == GameOverResponse(Some(X), Some(XWinsComment))
    ensures !Full(board) && !Classify(board).Won? ==>
              r.MoveResponse? && r.player == O && 0 <= r.position < 9 && board[r.position] == None
    ensures !Full(board) && !Classify(board).Won? ==>
              var available := AvailablePositions(board);
              var win := ImmediateWin(board);
              r.MoveResponse?
              && Str(r.position) == (if win.Some? then available[win.value] else ValidatedReply(reply, available).0)
              && r.comment == (if win.Some? then WinComment else ValidatedReply(reply, available).1)
  {
    var available := AvailablePositions(board);
    NoneAvailableIffFull(board);
    if available == [] {
      return GameOverResponse(None, None);
    }

    var winner := CheckWinner(board);
    if winner != NoResult {
      match winner
      case Won(O) =>
        return GameOverResponse(Some(O), Some(WinComment));
      case Won(X) =>
        return GameOverResponse(Some(X), Some(XWinsComment));
      case Draw =>
        return GameOverResponse(None, Some(DrawComment));
    }

    var aiPosition, aiComment := GetAiMove(board, available, reply);
    ghost var k :| 0 <= k < |available| && available[k] == aiPosition;
    AvailableNamesEmptyCell(board, k);
    return MoveResponse(PyInt(aiPosition).value, O, aiComment);
  }

  /** On a board with an empty cell `check_winner` never answers 'draw', so the
      'draw' branch of `generate_server_response` is never taken: a full board
      has already been answered by the test for available positions. */
  lemma DrawNeedsFullBoard(board: Board)
    requires !Full(board)
    ensures Classify(board) != Draw
  {
    ClassifyMeaning(board);
  }

  /** A full board on which X has completed the top row: `check_winner` names
      X, but `generate_server_response` answers it as a game over without a
      winner, since the board has no available position. */
  lemma FullBoardWonByX()
    ensures var b: Board := [Some(X), Some(X), Some(X), Some(O), Some(O), Some(X), Some(X), Some(O), Some(O)];
            Full(b) && Classify(b) == Won(X)
  {
    var b: Board := [Some(X), Some(X), Some(X), Some(O), Some(O), Some(X), Some(X), Some(O), Some(O)];
    assert Complete(b, 0);
  }

  /** `generate_server_response` with `check_winner` consulted before the test
      for available positions: every outcome, 'draw' included, gets its own
      game-over answer, and only a board that is still open gets a move. */
  method GenerateServerResponseWinnerFirst(board: Board, reply: string) returns (r: Response)
    ensures Classify(board) == Won(O) ==> r == GameOverResponse(Some(O), Some(WinComment))
    ensures Classify(board) == Won(X) ==> r == GameOverResponse(Some(X), Some(XWinsComment))
    ensures Classify(board) == Draw ==> r == GameOverResponse(None, Some(DrawComment))
    ensures Classify(board) == NoResult ==>
              r.MoveResponse? && r.player == O && 0 <= r.position < 9 && board[r.position] == None
    ensures Classify(board) == NoResult ==>
              var available := AvailablePositions(board);
              var win := ImmediateWin(board);
              r.MoveResponse?
              && Str(r.position) == (if win.Some? then available[win.value] else ValidatedReply(reply, available).0)
              && r.comment == (if win.Some? then WinComment else ValidatedReply(reply, available).1)
  {
    var winner := CheckWinner(board);
    match winner
    case Won(O) =>
      return GameOverResponse(Some(O), Some(WinComment));
    case Won(X) =>
      return GameOverResponse(Some(X), Some(XWinsComment));
    case Draw =>
      return GameOverResponse(None, Some(DrawComment));
    case NoResult =>
      var available := AvailablePositions(board);
      ClassifyMeaning(board);
      NoneAvailableIffFull(board);
      var aiPosition, aiComment := GetAiMove(board, available, reply);
      ghost var k :| 0 <= k < |available| && available[k] == aiPosition;
      AvailableNamesEmptyCell(board, k);
      return MoveResponse(PyInt(aiPosition).value, O, aiComment);
  }

  /** `parse_move`: the model's answer read with `int()` after `strip()`; a
      number from 0 to 8 is the move, anything else, including text `int()`
      rejects, is -1. */
  function ParseMove(content: string): (move: int)
    ensures -1 <= move <= 8
    ensures move != -1 <==> PyInt(Strip(content)).Some? && 0 <= PyInt(Strip(content)).value <= 8
    ensures move != -1 ==> PyInt(Strip(content)) == Some(move)
  {
    match PyInt(Strip(content))
    case Some(n) => if 0 <= n <= 8 then n else -1
    case None => -1
  }

  /** The decimal form of a number, with white space around it, parses to that
      number when it is a cell and to -1 when it is not. */
  lemma ParseMoveOfNumber(n: nat, lead: string, trail: string)
    requires AllSpace(lead) && AllSpace(trail)
    ensures ParseMove(lead + Str(n) + trail) == if n <= 8 then n else -1
  {
    var s := Str(n);
    DigitIsPlain(s[0]);
    DigitIsPlain(s[|s| - 1]);
    StripAround(lead, s, trail);
    PyIntOfStr(n);
    StripUnchanged(s);
  }

  /** Without a digit there are no digit groups, signed or not. */
  lemma NoDigitNoGroups(t: string)
    requires forall k :: 0 <= k < |t| ==> !IsDigit(t[k])
    ensures IntOfStripped(t) == None
  {
    if t != [] {
      assert !IsDigit(t[|t| - 1]);
      assert !DigitGroups(t);
      if |t| > 1 {
        assert t[1..][|t| - 2] == t[|t| - 1];
      }
      assert !DigitGroups(t[1..]);
    }
  }

  /** `int()` rejects a stripped string without a digit. */
  lemma NoDigitNotInt(t: string)
    requires t == [] || (!IsSpace(t[0]) && !IsSpace(t[|t| - 1]))
    requires forall k :: 0 <= k < |t| ==> !IsDigit(t[k])
    ensures PyInt(t) == None
  {
    StripUnchanged(t);
    NoDigitNoGroups(t);
  }

  /** A reply without a single digit is not a move. */
  lemma NoDigitNoMove(content: string)
    requires forall k :: 0 <= k < |content| ==> !IsDigit(content[k])
    ensures ParseMove(content) == -1
  {
    var l := StripLeading(content);
    var t := StripTrailing(l);
    assert t == Strip(content);
    var i := |content| - |l|;
    forall k | 0 <= k < |t|
      ensures !IsDigit(t[k])
    {
      assert t[k] == l[k] == content[i + k];
    }
    NoDigitNotInt(t);
  }
}
