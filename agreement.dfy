/** The browser client and the move server each keep their own copy of the
    winner scan (client/src/App.tsx and intelligence/intelligence.py). This
    module shows that the two copies agree on every board, so both sides see
    the same end of the game after any move. */
module Agreement {

  import opened Optional
  import opened GameBoard
  import Client
  import Intelligence

  /** The two scans run over the same lines in the same order, and a line wins
      on the client exactly when it is complete on the server; so from any
      line on they return the same mark. */
  lemma {:induction false} ScansAgreeFrom(b: Board, k: nat)
    requires k <= |Client.Lines|
    decreases |Client.Lines| - k
    ensures Client.WinnerFrom(b, k) == Intelligence.FirstComplete(b, k)
  {
    assert Client.Lines == Intelligence.WinningCombinations;
    if k < |Client.Lines| {
      assert Client.LineWon(b, k) <==> Intelligence.Complete(b, k);
      ScansAgreeFrom(b, k + 1);
    }
  }

  /** `calculateWinner` returns a mark exactly when `check_winner` does, and the
      same one; where the client sees no winner the server answers 'draw' on a
      full board and None otherwise. */
  lemma WinnerCopiesAgree(b: Board)
    ensures forall p :: Client.WinnerOf(b) == Some(p) <==> Intelligence.Classify(b) == Intelligence.Won(p)
    ensures Client.WinnerOf(b).None? ==>
              Intelligence.Classify(b) == (if Full(b) then Intelligence.Draw else Intelligence.NoResult)
  {
    ScansAgreeFrom(b, 0);
    FullIffNoEmptyCell(b);
  }

  /** After any move the client accepts, the server reads the new board as the
      client does: the game is over for the client exactly when `check_winner`
      answers something, the client's winner is the server's, and a game over
      without a winner is the server's 'draw'. */
  lemma ServerSeesClientOutcome(s: Client.GameState, position: Index, player: Player)
    requires Client.MoveAccepted(s, position)
    ensures var t := Client.AfterMove(s, position, player);
            && (t.isGameOver <==> Intelligence.Classify(t.board) != Intelligence.NoResult)
            && (forall p :: t.winner == Some(p) <==> Intelligence.Classify(t.board) == Intelligence.Won(p))
            && (t.isGameOver && t.winner.None? <==> Intelligence.Classify(t.board) == Intelligence.Draw)
  {
    var t := Client.AfterMove(s, position, player);
    WinnerCopiesAgree(t.board);
  }
}
