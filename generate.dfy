/** Building a new board: an all-hidden grid of zero cells, then PIG_TOTAL
    pigs, each put on a cell that still shows 0 and followed by a bump of
    the counts of its non-pig neighbours. The random sample of the game is a
    nondeterministic choice among the cells that show 0: a sample that hits
    any other cell changes nothing and is simply drawn again. */
module Generate {
  import opened Board

  /** A non-pig cell whose count has gone up by one. */
  function Bump(c: Cell): Cell
    requires c.value.Count?
  {
    c.(value := Count(c.value.n + 1))
  }

  /** Cell (i, j) once a pig is put at (x, y): that cell becomes a pig and
      each neighbour that is not a pig counts one more. */
  function PlacedCell(b: Grid, x: int, y: int, i: int, j: int): Cell
    requires WellFormed(b) && InRange(i, j)
  {
    if (i, j) == (x, y) then b[i][j].(value := Pig)
    else if Adjacent(x, y, i, j) && b[i][j].value != Pig then Bump(b[i][j])
    else b[i][j]
  }

  /** The board once a pig is put at (x, y). */
  function WithPig(b: Grid, x: int, y: int): (r: Grid)
    requires WellFormed(b) && InRange(x, y)
    ensures WellFormed(r)
    ensures forall i, j :: InRange(i, j) ==> r[i][j] == PlacedCell(b, x, y, i, j)
    ensures b[x][y].value != Pig ==> OnePigAdded(b, r, x, y)
    ensures forall i, j :: InRange(i, j) ==>
      r[i][j].clicked == b[i][j].clicked && r[i][j].flagged == b[i][j].flagged
  {
    seq(SIZE, i requires 0 <= i < SIZE => seq(SIZE, j requires 0 <= j < SIZE => PlacedCell(b, x, y, i, j)))
  }

  /** Cell (i, j) once (x, y) is a pig and the first k directions have
      been walked. */
  function PartlyPlacedCell(b: Grid, x: int, y: int, k: int, i: int, j: int): Cell
    requires WellFormed(b) && InRange(i, j) && 0 <= k <= |DIRECTIONS|
  {
    if (i, j) == (x, y) then b[i][j].(value := Pig)
    else if (i - x, j - y) in DIRECTIONS[..k] && b[i][j].value != Pig then Bump(b[i][j])
    else b[i][j]
  }

  /** The loop invariant of the placement pass after k directions. */
  ghost predicate PartlyPlaced(b: Grid, board: Grid, x: int, y: int, k: int)
    requires WellFormed(b) && 0 <= k <= |DIRECTIONS|
  {
    WellFormed(board) &&
    forall i, j :: InRange(i, j) ==> board[i][j] == PartlyPlacedCell(b, x, y, k, i, j)
  }

  /** Walking direction k, to (nx, ny), bumps that cell if it is an
      in-range non-pig, and so keeps the invariant with k + 1. */
  lemma PlaceStep(b: Grid, board: Grid, next: Grid, x: int, y: int, k: int, nx: int, ny: int)
    requires WellFormed(b) && 0 <= k < |DIRECTIONS| && PartlyPlaced(b, board, x, y, k)
    requires nx == x + DIRECTIONS[k].0 && ny == y + DIRECTIONS[k].1
    requires next == if InRange(nx, ny) && board[nx][ny].value != Pig
                     then board[nx := board[nx][ny := board[nx][ny].(value := Count(board[nx][ny].value.n + 1))]]
                     else board
    ensures PartlyPlaced(b, next, x, y, k + 1)
  {
    DirectionsAreDistinct();
    DirectionIsAdjacent(x, y, k);
    var d := (nx - x, ny - y);
    assert DIRECTIONS[..k + 1] == DIRECTIONS[..k] + [d];
    assert d !in DIRECTIONS[..k] by {
      forall m | 0 <= m < k ensures DIRECTIONS[..k][m] != d {
        assert DIRECTIONS[..k][m] == DIRECTIONS[m];
      }
    }
  }

  /** Once all eight directions are walked the pass has built WithPig. */
  lemma PlaceDone(b: Grid, board: Grid, x: int, y: int)
    requires WellFormed(b) && InRange(x, y) && PartlyPlaced(b, board, x, y, |DIRECTIONS|)
    ensures board == WithPig(b, x, y)
  {
    assert DIRECTIONS[..|DIRECTIONS|] == DIRECTIONS;
    var w := WithPig(b, x, y);
    forall i | 0 <= i < SIZE ensures board[i] == w[i] {
      forall j | 0 <= j < SIZE ensures board[i][j] == w[i][j] {
        DirectionsAreAdjacency(x, y, i, j);
      }
    }
  }

  /** One successful pass of the placement loop: mark (x, y) as a pig, then
      walk the eight directions and bump every in-range non-pig neighbour. */
  method PlacePig(b: Grid, x: int, y: int) returns (board: Grid)
    requires WellFormed(b) && InRange(x, y) && b[x][y].value == Count(0)
    ensures board == WithPig(b, x, y)
  {
    board := b[x := b[x][y := b[x][y].(value := Pig)]];
    for k := 0 to |DIRECTIONS|
      invariant PartlyPlaced(b, board, x, y, k)
    {
      var nx, ny := x + DIRECTIONS[k].0, y + DIRECTIONS[k].1;
      ghost var prev := board;
      if nx >= 0 && ny >= 0 && nx < SIZE && ny < SIZE && board[nx][ny].value != Pig {
        board := board[nx := board[nx][ny := board[nx][ny].(value := Count(board[nx][ny].value.n + 1))]];
      }
      PlaceStep(b, prev, board, x, y, k, nx, ny);
    }
    PlaceDone(b, board, x, y);
  }

  /** After a pig goes on a cell showing 0, a non-pig cell (i, j) still
      shows the number of pigs around it. */
  lemma WithPigCountAt(b: Grid, x: int, y: int, i: int, j: int)
    requires WellFormed(b) && CountsCorrect(b)
    requires InRange(x, y) && b[x][y].value == Count(0)
    requires InRange(i, j) && WithPig(b, x, y)[i][j].value != Pig
    ensures WithPig(b, x, y)[i][j].value == Count(PigNeighbours(WithPig(b, x, y), i, j))
  {
    var r := WithPig(b, x, y);
    assert (i, j) != (x, y);
    assert b[i][j].value != Pig;
    DirectionsAreAdjacency(i, j, x, y);
    DirectionsAreDistinct();
    CountPigsAfterNewPig(b, r, x, y, i, j, DIRECTIONS);
    assert Adjacent(x, y, i, j) == Adjacent(i, j, x, y);
  }

  /** A pig put on a cell showing 0 keeps every count right. */
  lemma WithPigKeepsCounts(b: Grid, x: int, y: int)
    requires WellFormed(b) && CountsCorrect(b)
    requires InRange(x, y) && b[x][y].value == Count(0)
    ensures CountsCorrect(WithPig(b, x, y))
  {
    forall i, j | InRange(i, j) && WithPig(b, x, y)[i][j].value != Pig
      ensures WithPig(b, x, y)[i][j].value == Count(PigNeighbours(WithPig(b, x, y), i, j))
    {
      WithPigCountAt(b, x, y, i, j);
    }
  }

  /** A pig put on a cell showing 0 touches no other pig. */
  lemma WithPigKeepsPigsApart(b: Grid, x: int, y: int)
    requires WellFormed(b) && CountsCorrect(b) && NoAdjacentPigs(b)
    requires InRange(x, y) && b[x][y].value == Count(0)
    ensures NoAdjacentPigs(WithPig(b, x, y))
  {
    var r: Grid := WithPig(b, x, y);
    forall i: int, j: int, u: int, v: int | InRange(i, j) && InRange(u, v) && r[i][j].value == Pig && r[u][v].value == Pig
      ensures !Adjacent(i, j, u, v)
    {
      if (i, j) == (x, y) && (u, v) != (x, y) {
        if Adjacent(i, j, u, v) { NoPigNextToZero(b, x, y, u, v); }
      } else if (u, v) == (x, y) && (i, j) != (x, y) {
        if Adjacent(i, j, u, v) { NoPigNextToZero(b, x, y, i, j); }
      }
    }
  }

  /** Putting a pig on a cell showing 0 adds exactly that cell to the pigs,
      so the number of pigs goes up by exactly one. */
  lemma WithPigAddsOnePig(b: Grid, x: int, y: int)
    requires WellFormed(b) && InRange(x, y) && b[x][y].value == Count(0)
    ensures (x, y) !in PigCells(b)
    ensures PigCells(WithPig(b, x, y)) == PigCells(b) + {(x, y)}
    ensures |PigCells(WithPig(b, x, y))| == |PigCells(b)| + 1
  {
    var r: Grid := WithPig(b, x, y);
    forall p | p in PigCells(r) ensures p in PigCells(b) + {(x, y)} {
      assert InRange(p.0, p.1);
    }
    forall p | p in PigCells(b) + {(x, y)} ensures p in PigCells(r) {
      assert InRange(p.0, p.1);
    }
  }

  /** The anchors are the 16 cells whose row and column are both in
      {0, 3, 6, 9}, numbered 0..15 row by row. AnchorOf(x, y) is the number
      of the only anchor that can lie at or next to (x, y). */
  function AnchorOf(x: int, y: int): int {
    ((x + 1) / 3) * 4 + (y + 1) / 3
  }

  function AnchorRow(a: int): int { 3 * (a / 4) }

  function AnchorCol(a: int): int { 3 * (a % 4) }

  /** Every cell at or next to an anchor maps back to that anchor. */
  lemma AnchorOfNear(a: int, i: int, j: int)
    requires 0 <= a < 16
    requires -1 <= i - AnchorRow(a) <= 1 && -1 <= j - AnchorCol(a) <= 1
    ensures AnchorOf(i, j) == a
  {
    var r, c := a / 4, a % 4;
    assert 3 * r <= i + 1 < 3 * r + 3;
    assert (i + 1) / 3 == r;
    assert 3 * c <= j + 1 < 3 * c + 3;
    assert (j + 1) / 3 == c;
  }

  /** The anchors that some pig could sit at or next to. */
  function Anchors(pigs: set<Pos>): set<int> {
    set p | p in pigs :: AnchorOf(p.0, p.1)
  }

  lemma {:induction false} AnchorsAtMostPigs(pigs: set<Pos>)
    ensures |Anchors(pigs)| <= |pigs|
    decreases pigs
  {
    if pigs != {} {
      var p :| p in pigs;
      AnchorsAtMostPigs(pigs - {p});
      assert Anchors(pigs) == Anchors(pigs - {p}) + {AnchorOf(p.0, p.1)};
    }
  }

  /** Fewer than n numbers cannot cover all of 0..n-1. */
  lemma {:induction false} SomeIndexFree(used: set<int>, n: nat)
    requires |used| < n
    ensures exists a :: 0 <= a < n && a !in used
  {
    if n - 1 in used {
      SomeIndexFree(used - {n - 1}, n - 1);
      var a :| 0 <= a < n - 1 && a !in used - {n - 1};
      assert a !in used;
    }
  }

  /** A cell of a board with correct counts that has no pig at or around it
      shows 0. */
  lemma NoPigAroundMeansZero(b: Grid, x: int, y: int)
    requires WellFormed(b) && CountsCorrect(b) && InRange(x, y)
    requires forall i, j :: InRange(i, j) && -1 <= i - x <= 1 && -1 <= j - y <= 1 ==> b[i][j].value != Pig
    ensures b[x][y].value == Count(0)
  {
    forall k | 0 <= k < |DIRECTIONS| && InRange(x + DIRECTIONS[k].0, y + DIRECTIONS[k].1)
      ensures b[x + DIRECTIONS[k].0][y + DIRECTIONS[k].1].value != Pig
    {
      DirectionIsAdjacent(x, y, k);
    }
    assert PigNeighbours(b, x, y) == 0;
  }

  /** An anchor that no pig maps to has no pig at or around it. */
  lemma AnchorClear(b: Grid, a: int)
    requires WellFormed(b) && 0 <= a < 16 && a !in Anchors(PigCells(b))
    ensures InRange(AnchorRow(a), AnchorCol(a))
    ensures forall i, j :: InRange(i, j) && -1 <= i - AnchorRow(a) <= 1 && -1 <= j - AnchorCol(a) <= 1 ==>
      b[i][j].value != Pig
  {
    assert 0 <= a / 4 < 4 && 0 <= a % 4 < 4;
    var pigs := PigCells(b);
    forall i, j | InRange(i, j) && -1 <= i - AnchorRow(a) <= 1 && -1 <= j - AnchorCol(a) <= 1
      ensures b[i][j].value != Pig
    {
      assert b[i][j].value == Pig ==> (i, j) in pigs;
      AnchorOfNear(a, i, j);
    }
  }

  /** While fewer than 16 pigs are on a board with correct counts, some cell
      still shows 0, so the placement loop can always go on. */
  lemma ZeroCellExists(b: Grid)
    requires WellFormed(b) && CountsCorrect(b) && |PigCells(b)| < 16
    ensures exists x, y :: InRange(x, y) && b[x][y].value == Count(0)
  {
    AnchorsAtMostPigs(PigCells(b));
    SomeIndexFree(Anchors(PigCells(b)), 16);
    var a :| 0 <= a < 16 && a !in Anchors(PigCells(b));
    AnchorClear(b, a);
    NoPigAroundMeansZero(b, AnchorRow(a), AnchorCol(a));
  }

  /** A new game's board: SIZE by SIZE, nothing clicked or flagged, exactly
      PIG_TOTAL pigs, no two of them touching, and every other cell showing
      the number of pigs around it. */
  method GenerateBoard() returns (board: Grid)
    ensures WellFormed(board) && Hidden(board)
    ensures |PigCells(board)| == PIG_TOTAL
    ensures CountsCorrect(board)
    ensures forall i, j :: InRange(i, j) && board[i][j].value != Pig ==> board[i][j].value.n <= 8
    ensures NoAdjacentPigs(board)
  {
    board := [];
    for i := 0 to SIZE
      invariant |board| == i
      invariant forall r :: 0 <= r < i ==> |board[r]| == SIZE
      invariant forall r, c :: 0 <= r < i && 0 <= c < SIZE ==> board[r][c] == BLANK
    {
      var row: seq<Cell> := [];
      for j := 0 to SIZE
        invariant |row| == j
        invariant forall c :: 0 <= c < j ==> row[c] == BLANK
      {
        row := row + [BLANK];
      }
      board := board + [row];
    }
    assert PigCells(board) == {};
    forall i, j | InRange(i, j) ensures PigNeighbours(board, i, j) == 0 {
    }

    var pigsPlaced := 0;
    while pigsPlaced < PIG_TOTAL
      invariant 0 <= pigsPlaced <= PIG_TOTAL
      invariant WellFormed(board) && Hidden(board)
      invariant CountsCorrect(board) && NoAdjacentPigs(board)
      invariant |PigCells(board)| == pigsPlaced
      decreases PIG_TOTAL - pigsPlaced
    {
      ZeroCellExists(board);
      var x, y :| 0 <= x < SIZE && 0 <= y < SIZE && board[x][y].value == Count(0);
      WithPigKeepsCounts(board, x, y);
      WithPigKeepsPigsApart(board, x, y);
      WithPigAddsOnePig(board, x, y);
      board := PlacePig(board, x, y);
      pigsPlaced := pigsPlaced + 1;
    }
  }
}
