/** The game's event handlers over a board: the win scan, the long press
    that toggles a flag, and the click that either loses the game on a pig
    or runs the flood fill and then the win scan. Each handler works on its
    own copy of the board and returns the board the game shows next; the
    reveal of the whole board that the game schedules after a loss or a win
    happens here at once. */
module Game {
  import opened Board
  import opened Reveal

  /** The win scan: rows in order, each row's cells in order, answering
      false at the first cell that is neither a pig nor clicked. */
  method CheckForWin(board: Grid) returns (won: bool)
    ensures won <==> AllSafeClicked(board)
  {
    for i := 0 to |board|
      invariant forall r, c :: 0 <= r < i && 0 <= c < |board[r]| ==> board[r][c].value == Pig || board[r][c].clicked
    {
      for j := 0 to |board[i]|
        invariant forall c :: 0 <= c < j ==> board[i][c].value == Pig || board[i][c].clicked
      {
        if board[i][j].value != Pig && !board[i][j].clicked {
          return false;
        }
      }
    }
    return true;
  }

  /** The end-of-game update: every cell of every row clicked, values and
      flags kept. */
  function RevealAll(b: Grid): (r: Grid)
    ensures |r| == |b| && forall i :: 0 <= i < |b| ==> |r[i]| == |b[i]|
    ensures forall i, j :: 0 <= i < |b| && 0 <= j < |b[i]| ==>
      r[i][j].clicked && r[i][j].value == b[i][j].value && r[i][j].flagged == b[i][j].flagged
  {
    seq(|b|, i requires 0 <= i < |b| => seq(|b[i]|, j requires 0 <= j < |b[i]| => b[i][j].(clicked := true)))
  }

  /** Revealing a board that is already fully revealed changes nothing. */
  lemma RevealAllKeepsRevealedBoard(b: Grid)
    requires WellFormed(b) && AllClicked(b)
    ensures RevealAll(b) == b
  {
    var r := RevealAll(b);
    forall i | 0 <= i < SIZE ensures r[i] == b[i] {
      forall j | 0 <= j < SIZE ensures r[i][j] == b[i][j] {
        assert InRange(i, j);
      }
    }
  }

  /** A long press on (x, y): on an unclicked cell the flag flips; a clicked
      cell, and every other cell, stays as it was. */
  function HandleLongPress(b: Grid, x: int, y: int): (r: Grid)
    requires WellFormed(b) && InRange(x, y)
    ensures WellFormed(r)
    ensures forall i, j :: InRange(i, j) && (i, j) != (x, y) ==> r[i][j] == b[i][j]
    ensures r[x][y].value == b[x][y].value && r[x][y].clicked == b[x][y].clicked
    ensures r[x][y].flagged == if b[x][y].clicked then b[x][y].flagged else !b[x][y].flagged
    ensures b[x][y].clicked ==> r == b
  {
    if b[x][y].clicked then b
    else b[x := b[x][y := b[x][y].(flagged := !b[x][y].flagged)]]
  }

  /** Two long presses on the same cell give back the board of before. */
  lemma LongPressTwice(b: Grid, x: int, y: int)
    requires WellFormed(b) && InRange(x, y)
    ensures HandleLongPress(HandleLongPress(b, x, y), x, y) == b
  {
    var r := HandleLongPress(HandleLongPress(b, x, y), x, y);
    forall i | 0 <= i < SIZE ensures r[i] == b[i] {
      forall j | 0 <= j < SIZE ensures r[i][j] == b[i][j] {
        assert InRange(i, j);
      }
    }
  }

  /** A long press moves no pig, leaves every count right and keeps the
      pigs apart. */
  lemma LongPressKeepsPigs(b: Grid, x: int, y: int)
    requires WellFormed(b) && InRange(x, y)
    ensures PigCells(HandleLongPress(b, x, y)) == PigCells(b)
    ensures CountsCorrect(b) ==> CountsCorrect(HandleLongPress(b, x, y))
    ensures NoAdjacentPigs(b) ==> NoAdjacentPigs(HandleLongPress(b, x, y))
  {
    SameValuesKeepPigs(b, HandleLongPress(b, x, y));
  }

  /** A click on (x, y). A click that just ended a long press only clears
      that state. A click on a pig clicks it and then the whole board. Any
      other click runs the flood fill from (x, y), and if then every non-pig
      cell is clicked the whole board is clicked. Returns the new board and
      the new long-press state. */
  method HandleClick(b: Grid, longPressDetected: bool, x: int, y: int) returns (nb: Grid, pressed: bool)
    requires WellFormed(b) && InRange(x, y)
    ensures !pressed
    ensures WellFormed(nb) && ClickedOnly(b, nb)
    ensures longPressDetected ==> nb == b
    ensures !longPressDetected && b[x][y].value == Pig ==> AllClicked(nb)
    ensures !longPressDetected && b[x][y].value != Pig ==>
      nb == if AllSafeClicked(FloodFill(b, x, y)) then RevealAll(FloodFill(b, x, y)) else FloodFill(b, x, y)
    ensures AllSafeClicked(nb) ==> AllClicked(nb) || longPressDetected
    ensures !longPressDetected && CountsCorrect(b) && b[x][y].value != Pig ==>
      AllClicked(nb) || forall i, j :: InRange(i, j) && b[i][j].value == Pig ==> nb[i][j].clicked == b[i][j].clicked
    ensures AllClicked(b) ==> nb == b
  {
    pressed := false;
    if longPressDetected {
      return b, pressed;
    }
    if b[x][y].value == Pig {
      nb := b[x := b[x][y := b[x][y].(clicked := true)]];
      if AllClicked(b) {
        assert b[x][y].clicked;
        assert b[x][y].(clicked := true) == b[x][y];
        assert b[x][y := b[x][y]] == b[x];
        RevealAllKeepsRevealedBoard(b);
      }
      nb := RevealAll(nb);
      return;
    }
    nb := RevealSurrounding(b, x, y);
    if CountsCorrect(b) {
      FloodFillAvoidsPigs(b, x, y);
    }
    if AllClicked(b) {
      FloodFillIdle(b, x, y);
      RevealAllKeepsRevealedBoard(b);
    }
    var won := CheckForWin(nb);
    if won {
      nb := RevealAll(nb);
    }
  }
}
