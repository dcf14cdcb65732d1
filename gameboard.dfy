/** Values shared by the browser client and the move server: the two players,
    a cell of the 3x3 grid and the grid itself, stored row by row (cell
    3 * row + column), as both sides store it. */
module GameBoard {

  import opened Optional

  datatype Player = X | O

  /** The player who moves after `p`. */
  function Opponent(p: Player): (q: Player)
    ensures q != p
  {
    if p == X then O else X
  }

  /** A cell is empty (`null` in the client, `None` on the server) or holds a mark. */
  type Cell = Option<Player>

  /** A position on the board. */
  type Index = i: nat | i < 9

  type Board = b: seq<Cell> | |b| == 9
    witness [None, None, None, None, None, None, None, None, None]

  const EmptyBoard: Board := seq(9, _ => None)

  /** Every cell holds a mark. */
  predicate Full(b: Board)
  {
    forall i :: 0 <= i < 9 ==> b[i].Some?
  }

  /** A board is full exactly when no cell is empty. */
  lemma FullIffNoEmptyCell(b: Board)
    ensures Full(b) <==> None !in b
  {
    if !Full(b) {
      var i :| 0 <= i < 9 && b[i].None?;
      assert b[i] == None;
    }
  }

  /** The number of cells of `s` marked by `p`. */
  function Count(s: seq<Cell>, p: Player): (n: nat)
    ensures n <= |s|
  {
    if s == [] then 0
    else (if s[0] == Some(p) then 1 else 0) + Count(s[1..], p)
  }

  /** A sequence without a mark of `p` counts none. */
  lemma {:induction false} CountAbsent(s: seq<Cell>, p: Player)
    requires Some(p) !in s
    ensures Count(s, p) == 0
  {
    if s != [] {
      assert s[0] != Some(p);
      CountAbsent(s[1..], p);
    }
  }

  /** Writing `p` into an empty cell adds one mark of `p` and no mark of anyone else. */
  lemma {:induction false} CountAfterWrite(s: seq<Cell>, i: nat, p: Player, q: Player)
    requires i < |s| && s[i] == None
    ensures Count(s[i := Some(p)], q) == Count(s, q) + (if q == p then 1 else 0)
  {
    if i > 0 {
      CountAfterWrite(s[1..], i - 1, p, q);
      assert s[i := Some(p)][1..] == s[1..][i - 1 := Some(p)];
    }
  }
}
