/** The browser client's copy of the game (client/src/App.tsx): the winner scan,
    the game-state record, and the meeting view that owns that record and the
    messages it publishes on the "GAME_MOVES" channel. */
module Client {

  import opened Optional
  import opened GameBoard

  /** The eight lines of three cells, in the order the client scans them:
      rows, columns, then the two diagonals. */
  const Lines: seq<(Index, Index, Index)> :=
    [(0, 1, 2), (3, 4, 5), (6, 7, 8), (0, 3, 6), (1, 4, 7), (2, 5, 8), (0, 4, 8), (2, 4, 6)]

  /** Line `k` wins: its first cell holds a mark and the other two hold the same one. */
  predicate LineWon(b: Board, k: nat)
    requires k < |Lines|
  {
    var (x, y, z) := Lines[k];
    b[x].Some? && b[x] == b[y] && b[x] == b[z]
  }

  /** The mark on the first winning line among `Lines[k..]`, or `None`. */
  function WinnerFrom(b: Board, k: nat): Option<Player>
    requires k <= |Lines|
    decreases |Lines| - k
  {
    if k == |Lines| then None
    else if LineWon(b, k) then b[Lines[k].0]
    else WinnerFrom(b, k + 1)
  }

  /** What `calculateWinner` answers for `b`. */
  function WinnerOf(b: Board): Option<Player>
  {
    WinnerFrom(b, 0)
  }

  /** The scan from line `k` finds nothing exactly when none of the lines from
      `k` on is won. */
  lemma {:induction false} WinnerFromNone(b: Board, k: nat)
    requires k <= |Lines|
    decreases |Lines| - k
    ensures WinnerFrom(b, k).None? <==> forall j :: k <= j < |Lines| ==> !LineWon(b, j)
  {
    if k < |Lines| {
      WinnerFromNone(b, k + 1);
    }
  }

  /** What the scan from line `k` finds is the mark of the first won line. */
  lemma {:induction false} WinnerFromSome(b: Board, k: nat)
    requires k <= |Lines|
    decreases |Lines| - k
    ensures WinnerFrom(b, k).Some? ==>
              exists j :: k <= j < |Lines| && LineWon(b, j) && WinnerFrom(b, k) == b[Lines[j].0]
                          && forall i :: k <= i < j ==> !LineWon(b, i)
  {
    if k < |Lines| && !LineWon(b, k) {
      WinnerFromSome(b, k + 1);
    }
  }

  /** A line of three empty cells never wins, so a winner is a mark that fills a
      whole line; and no winner means no line is filled by one mark. */
  lemma WinnerFillsLine(b: Board)
    ensures WinnerOf(b).Some? ==>
              exists j :: 0 <= j < |Lines| && b[Lines[j].0] == b[Lines[j].1] == b[Lines[j].2] == WinnerOf(b)
    ensures WinnerOf(b).None? ==>
              forall j :: 0 <= j < |Lines| ==>
                b[Lines[j].0] == None || b[Lines[j].0] != b[Lines[j].1] || b[Lines[j].0] != b[Lines[j].2]
  {
    WinnerFromNone(b, 0);
    WinnerFromSome(b, 0);
  }

  /** `calculateWinner`: scans the lines in order and returns the mark of the
      first one whose three cells hold the same mark; `None` when there is none. */
  method CalculateWinner(board: Board) returns (w: Option<Player>)
    ensures w == WinnerOf(board)
    ensures w.None? <==> forall j :: 0 <= j < |Lines| ==> !LineWon(board, j)
  {
    WinnerFromNone(board, 0);
    var k := 0;
    while k < |Lines|
      invariant 0 <= k <= |Lines|
      invariant WinnerFrom(board, k) == WinnerOf(board)
    {
      var (a, b, c) := Lines[k];
      if board[a].Some? && board[a] == board[b] && board[a] == board[c] {
        return board[a];
      }
      k := k + 1;
    }
    return None;
  }

  /** `newBoard.every((cell) => cell !== null)`. */
  function IsFull(board: Board): (full: bool)
    ensures full <==> None !in board
  {
    forall i | 0 <= i < 9 :: board[i] != None
  }

  /** The client's `GameState` record. */
  datatype GameState = GameState(board: Board, currentPlayer: Player, winner: Option<Player>, isGameOver: bool)

  /** `initialGameState`: nine empty cells, X to move, no winner, not over. */
  const InitialGameState := GameState(EmptyBoard, X, None, false)

  /** The messages of the "GAME_MOVES" channel, as the client reads and writes them. */
  datatype Message =
    | Move(position: int, player: Player)
    | GameOver(winner: Option<Player>, finalBoard: Board)
    | Reset
    | Other   // any other `type`: the client's switch has no case for it

  /** The three guards of `handleMove`: the game is not over, the position is on
      the board, and its cell is empty. */
  predicate MoveAccepted(s: GameState, position: int)
  {
    !s.isGameOver && 0 <= position <= 8 && s.board[position] == None
  }

  /** The state the updater of `handleMove` computes from `s`: the copied board
      with `player` in cell `position`, the turn handed to the other player, and
      the winner and game-over flag taken from the new board. */
  function AfterMove(s: GameState, position: Index, player: Player): (t: GameState)
    ensures t.board[position] == Some(player)
    ensures forall i :: 0 <= i < 9 && i != position ==> t.board[i] == s.board[i]
    ensures t.currentPlayer != player
    ensures t.winner == WinnerOf(t.board)
    ensures t.isGameOver <==> t.winner.Some? || Full(t.board)
  {
    var newBoard := s.board[position := Some(player)];
    var winner := WinnerOf(newBoard);
    var isDraw := winner.None? && IsFull(newBoard);
    FullIffNoEmptyCell(newBoard);
    GameState(newBoard, Opponent(player), winner, winner.Some? || isDraw)
  }

  /** What an accepted move publishes: one `game_over` message carrying the
      winner and the final board when the move ended the game, nothing otherwise. */
  function MovePublishes(t: GameState): (out: seq<Message>)
    ensures |out| <= 1
    ensures out != [] <==> t.isGameOver
    ensures out != [] ==> out[0] == GameOver(t.winner, t.board)
  {
    if t.isGameOver then [GameOver(t.winner, t.board)] else []
  }

  /** The winner and game-over flag agree with the board; every state reached
      from `initialGameState` by moves and resets is consistent. */
  predicate Consistent(s: GameState)
  {
    s.winner == WinnerOf(s.board) && (s.isGameOver <==> s.winner.Some? || Full(s.board))
  }

  /** The counts of marks match whose turn it is: equal when X is to move, one
      more X when O is to move. */
  predicate Balanced(s: GameState)
  {
    if s.currentPlayer == X then Count(s.board, X) == Count(s.board, O)
    else Count(s.board, X) == Count(s.board, O) + 1
  }

  /** `initialGameState` has no winner and is not over. */
  lemma InitialStateIsConsistent()
    ensures Consistent(InitialGameState)
  {
    assert forall i :: 0 <= i < 9 ==> EmptyBoard[i] == None;
    assert forall j :: 0 <= j < |Lines| ==> !LineWon(EmptyBoard, j);
    WinnerFromNone(EmptyBoard, 0);
    assert !Full(EmptyBoard) by { assert EmptyBoard[0] == None; }
  }

  /** `initialGameState` has no marks, with X to move. */
  lemma InitialStateIsBalanced()
    ensures Balanced(InitialGameState)
  {
    CountAbsent(EmptyBoard, X);
    CountAbsent(EmptyBoard, O);
  }

  /** An accepted move by the player whose turn it is keeps the mark counts in step. */
  lemma {:induction false} MoveKeepsBalance(s: GameState, position: Index)
    requires Balanced(s) && MoveAccepted(s, position)
    ensures Balanced(AfterMove(s, position, s.currentPlayer))
  {
    var p := s.currentPlayer;
    CountAfterWrite(s.board, position, p, X);
    CountAfterWrite(s.board, position, p, O);
  }

  /** In a consistent state that is not over, no line is complete, so a move
      can only complete lines through its own cell and the winner is the mover. */
  lemma {:induction false} OnlyTheMoverCanWin(s: GameState, position: Index, player: Player)
    requires Consistent(s) && MoveAccepted(s, position)
    ensures Consistent(AfterMove(s, position, player))
    ensures AfterMove(s, position, player).winner in {None, Some(player)}
  {
    var t := AfterMove(s, position, player);
    WinnerFromNone(s.board, 0);
    WinnerFromSome(t.board, 0);
    if t.winner.Some? {
      var j :| 0 <= j < |Lines| && LineWon(t.board, j) && t.winner == t.board[Lines[j].0];
      assert !LineWon(s.board, j);
      var (x, y, z) := Lines[j];
      assert position == x || position == y || position == z;
    }
  }

  /** The meeting view: the game state it renders and the messages it has
      handed to `publish`, oldest first. */
  class MeetingView {
    var gameState: GameState
    var outbox: seq<Message>

    constructor ()
      ensures gameState == InitialGameState && outbox == []
    {
      gameState := InitialGameState;
      outbox := [];
    }

    /** `handleMove`: a move that fails a guard changes nothing and publishes
        nothing; an accepted move replaces the state by `AfterMove` and
        publishes `game_over` exactly when the move ends the game. */
    method HandleMove(position: int, player: Player)
      modifies this
      ensures !MoveAccepted(old(gameState), position) ==>
                gameState == old(gameState) && outbox == old(outbox)
      ensures MoveAccepted(old(gameState), position) ==>
                gameState == AfterMove(old(gameState), position, player)
                && outbox == old(outbox) + MovePublishes(gameState)
      ensures Consistent(old(gameState)) ==> Consistent(gameState)
    {
      if Consistent(gameState) && MoveAccepted(gameState, position) {
        OnlyTheMoverCanWin(gameState, position, player);
      }
      if gameState.isGameOver {
        return;
      }
      if position < 0 || position > 8 || gameState.board[position] != None {
        return;
      }
      var newBoard := gameState.board[position := Some(player)];
      var winner := CalculateWinner(newBoard);
      var isDraw := winner.None? && IsFull(newBoard);
      if winner.Some? || isDraw {
        outbox := outbox + [GameOver(winner, newBoard)];
      }
      gameState := GameState(newBoard, Opponent(player), winner, winner.Some? || isDraw);
    }

    /** `handleGameReset`: publishes `reset`, then restores `initialGameState`. */
    method HandleGameReset()
      modifies this
      ensures gameState == InitialGameState
      ensures outbox == old(outbox) + [Reset]
    {
      outbox := outbox + [Reset];
      gameState := InitialGameState;
    }

    /** `onMessageReceived`: an inbound move goes through `handleMove` only while
        the game is not over; `game_over` takes the sender's winner and board and
        ends the game; `reset` restores `initialGameState`; nothing else changes
        anything, and only the move case can publish. */
    method OnMessageReceived(message: Message)
      modifies this
      ensures message.Move? && MoveAccepted(old(gameState), message.position) ==>
                gameState == AfterMove(old(gameState), message.position, message.player)
                && outbox == old(outbox) + MovePublishes(gameState)
      ensures message.Move? && !MoveAccepted(old(gameState), message.position) ==>
                gameState == old(gameState) && outbox == old(outbox)
      ensures message.GameOver? ==>
                gameState == old(gameState).(winner := message.winner, isGameOver := true,
                                             board := message.finalBoard)
                && outbox == old(outbox)
      ensures message.Reset? ==> gameState == InitialGameState && outbox == old(outbox)
      ensures message.Other? ==> gameState == old(gameState) && outbox == old(outbox)
    {
      match message
      case Move(position, player) =>
        if !gameState.isGameOver {
          HandleMove(position, player);
        }
      case GameOver(winner, finalBoard) =>
        gameState := gameState.(winner := winner, isGameOver := true, board := finalBoard);
      case Reset =>
        gameState := InitialGameState;
      case Other =>
    }

    /** The board's `onMove`: only on X's turn, publishes the move and then plays
        it through `handleMove` as X; on O's turn does nothing. */
    method OnMove(position: int)
      modifies this
      ensures old(gameState).currentPlayer != X ==>
                gameState == old(gameState) && outbox == old(outbox)
      ensures old(gameState).currentPlayer == X && MoveAccepted(old(gameState), position) ==>
                gameState == AfterMove(old(gameState), position, X)
                && outbox == old(outbox) + [Move(position, X)] + MovePublishes(gameState)
      ensures old(gameState).currentPlayer == X && !MoveAccepted(old(gameState), position) ==>
                gameState == old(gameState) && outbox == old(outbox) + [Move(position, X)]
      ensures Consistent(old(gameState)) ==> Consistent(gameState)
      ensures Balanced(old(gameState)) ==> Balanced(gameState)
    {
      if Balanced(gameState) && gameState.currentPlayer == X && MoveAccepted(gameState, position) {
        MoveKeepsBalance(gameState, position);
      }
      if gameState.currentPlayer == X {
        outbox := outbox + [Move(position, X)];
        HandleMove(position, X);
      }
    }
  }
}
