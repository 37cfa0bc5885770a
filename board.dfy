/** Cells and boards of the game, and the facts about pigs and neighbour
    counts that the rest of the model is stated in.

    A board is SIZE rows of SIZE cells, read as board[x][y] with x the row
    and y the column. A cell's value is either the number of pigs among its
    in-range neighbours or the pig marker. */
module Board {

  /** Side length of the square board. */
  const SIZE: int := 10

  /** Number of pigs a new board receives. */
  const PIG_TOTAL: int := 10

  /** What a cell shows once clicked: a neighbour count or a pig. */
  datatype Value = Count(n: nat) | Pig

  datatype Cell = Cell(value: Value, clicked: bool, flagged: bool)

  type Grid = seq<seq<Cell>>

  /** A (row, column) pair, or a (row, column) offset. */
  type Pos = (int, int)

  /** The eight neighbour offsets, in the order both neighbour loops of the
      game visit them. */
  const DIRECTIONS: seq<Pos> :=
    [(0, 1), (1, 0), (0, -1), (-1, 0), (-1, -1), (-1, 1), (1, -1), (1, 1)]

  /** The cell every position of a fresh board starts as. */
  const BLANK: Cell := Cell(Count(0), false, false)

  predicate InRange(x: int, y: int) {
    0 <= x < SIZE && 0 <= y < SIZE
  }

  /** SIZE rows of SIZE cells each. */
  predicate WellFormed(b: Grid) {
    |b| == SIZE && forall i :: 0 <= i < SIZE ==> |b[i]| == SIZE
  }

  /** (i, j) is one of the eight cells around (x, y). */
  predicate Adjacent(x: int, y: int, i: int, j: int) {
    (i, j) != (x, y) && -1 <= i - x <= 1 && -1 <= j - y <= 1
  }

  /** The offsets are exactly those of the eight neighbours ... */
  lemma DirectionsAreAdjacency(x: int, y: int, i: int, j: int)
    ensures (i - x, j - y) in DIRECTIONS <==> Adjacent(x, y, i, j)
  {
  }

  /** ... and each appears once. */
  lemma DirectionsAreDistinct()
    ensures Distinct(DIRECTIONS)
  {
  }

  /** The k-th offset leads to a neighbour. */
  lemma DirectionIsAdjacent(x: int, y: int, k: int)
    requires 0 <= k < |DIRECTIONS|
    ensures Adjacent(x, y, x + DIRECTIONS[k].0, y + DIRECTIONS[k].1)
  {
    DirectionsAreAdjacency(x, y, x + DIRECTIONS[k].0, y + DIRECTIONS[k].1);
    assert DIRECTIONS[k] in DIRECTIONS;
  }

  /** Number of pigs at the in-range positions (x, y) + d for d in ds: the
      count that the increments of the placement's direction loop build up
      at (x, y). */
  function CountPigs(b: Grid, x: int, y: int, ds: seq<Pos>): (r: nat)
    requires WellFormed(b)
    ensures r <= |ds|
    ensures r == 0 <==> forall k :: 0 <= k < |ds| && InRange(x + ds[k].0, y + ds[k].1) ==>
                                      b[x + ds[k].0][y + ds[k].1].value != Pig
  {
    if ds == [] then 0
    else
      PigAt(b, x, y, ds[0]) + CountPigs(b, x, y, ds[1..])
  }

  /** Number of pigs among the in-range neighbours of (x, y). */
  function PigNeighbours(b: Grid, x: int, y: int): nat
    requires WellFormed(b)
  {
    CountPigs(b, x, y, DIRECTIONS)
  }

  /** Every non-pig cell shows the number of pigs around it. */
  ghost predicate CountsCorrect(b: Grid)
    requires WellFormed(b)
  {
    forall i, j :: InRange(i, j) && b[i][j].value != Pig ==>
      b[i][j].value == Count(PigNeighbours(b, i, j))
  }

  /** No two pigs touch, not even diagonally. */
  ghost predicate NoAdjacentPigs(b: Grid)
    requires WellFormed(b)
  {
    forall i, j, u, v :: InRange(i, j) && InRange(u, v) && b[i][j].value == Pig && b[u][v].value == Pig
      ==> !Adjacent(i, j, u, v)
  }

  /** The positions that hold a pig. */
  function PigCells(b: Grid): set<Pos>
    requires WellFormed(b)
  {
    set i, j | 0 <= i < SIZE && 0 <= j < SIZE && b[i][j].value == Pig :: (i, j)
  }

  /** No cell is clicked and none is flagged. */
  ghost predicate Hidden(b: Grid)
    requires WellFormed(b)
  {
    forall i, j :: InRange(i, j) ==> !b[i][j].clicked && !b[i][j].flagged
  }

  ghost predicate AllClicked(b: Grid)
    requires WellFormed(b)
  {
    forall i, j :: InRange(i, j) ==> b[i][j].clicked
  }

  /** The winning condition: every cell that is not a pig is clicked. Stated
      over whatever rows the board has, as the win scan reads it. */
  ghost predicate AllSafeClicked(b: Grid) {
    forall i, j :: 0 <= i < |b| && 0 <= j < |b[i]| ==> b[i][j].value == Pig || b[i][j].clicked
  }

  /** nb has the same values and flags as b, and every cell clicked in b is
      clicked in nb: clicked only ever goes from false to true. */
  ghost predicate ClickedOnly(b: Grid, nb: Grid)
    requires WellFormed(b) && WellFormed(nb)
  {
    forall i, j :: InRange(i, j) ==>
      nb[i][j].value == b[i][j].value && nb[i][j].flagged == b[i][j].flagged &&
      (b[i][j].clicked ==> nb[i][j].clicked)
  }

  /** The index of the offset that leads from (x, y) to a neighbour (i, j). */
  lemma DirectionOf(x: int, y: int, i: int, j: int) returns (k: int)
    requires Adjacent(x, y, i, j)
    ensures 0 <= k < |DIRECTIONS| && x + DIRECTIONS[k].0 == i && y + DIRECTIONS[k].1 == j
  {
    DirectionsAreAdjacency(x, y, i, j);
    k :| 0 <= k < |DIRECTIONS| && DIRECTIONS[k] == (i - x, j - y);
  }

  /** A count of 0 over the offsets ds rules out a pig at each of them. */
  lemma NoPigAtZeroCount(b: Grid, x: int, y: int, ds: seq<Pos>, k: int)
    requires WellFormed(b) && CountPigs(b, x, y, ds) == 0
    requires 0 <= k < |ds| && InRange(x + ds[k].0, y + ds[k].1)
    ensures b[x + ds[k].0][y + ds[k].1].value != Pig
  {
  }

  /** On a board whose counts are right, a cell showing 0 has no pig around it. */
  lemma NoPigNextToZero(b: Grid, x: int, y: int, i: int, j: int)
    requires WellFormed(b) && CountsCorrect(b)
    requires InRange(x, y) && b[x][y].value == Count(0)
    requires InRange(i, j) && Adjacent(x, y, i, j)
    ensures b[i][j].value != Pig
  {
    assert PigNeighbours(b, x, y) == 0;
    var k := DirectionOf(x, y, i, j);
    NoPigAtZeroCount(b, x, y, DIRECTIONS, k);
  }

  /** b and r agree on where the pigs are, except that (x, y) has become one. */
  ghost predicate OnePigAdded(b: Grid, r: Grid, x: int, y: int)
    requires WellFormed(b) && WellFormed(r)
  {
    InRange(x, y) && b[x][y].value != Pig && r[x][y].value == Pig &&
    forall u, v :: InRange(u, v) && (u, v) != (x, y) ==> (r[u][v].value == Pig <==> b[u][v].value == Pig)
  }

  /** Whether the offset d from (i, j) lands on a pig of b, as 0 or 1. */
  function PigAt(b: Grid, i: int, j: int, d: Pos): (r: nat)
    requires WellFormed(b)
    ensures r <= 1
  {
    if InRange(i + d.0, j + d.1) && b[i + d.0][j + d.1].value == Pig then 1 else 0
  }

  /** One offset's share of a count, before and after a pig is added. */
  lemma PigAtAfterNewPig(b: Grid, r: Grid, x: int, y: int, i: int, j: int, d: Pos)
    requires WellFormed(b) && WellFormed(r) && OnePigAdded(b, r, x, y)
    ensures PigAt(r, i, j, d) == PigAt(b, i, j, d) + (if (x - i, y - j) == d then 1 else 0)
  {
  }

  ghost predicate Distinct(ds: seq<Pos>) {
    forall m, n :: 0 <= m < n < |ds| ==> ds[m] != ds[n]
  }

  /** Adding one pig raises the count at (i, j) by one exactly when the new
      pig is at one of the offsets counted. */
  lemma {:induction false} CountPigsAfterNewPig(b: Grid, r: Grid, x: int, y: int, i: int, j: int, ds: seq<Pos>)
    requires WellFormed(b) && WellFormed(r) && OnePigAdded(b, r, x, y)
    requires Distinct(ds)
    ensures CountPigs(r, i, j, ds) == CountPigs(b, i, j, ds) + (if (x - i, y - j) in ds then 1 else 0)
  {
    if ds != [] {
      var t := (x - i, y - j);
      var d, rest := ds[0], ds[1..];
      assert CountPigs(r, i, j, ds) == PigAt(r, i, j, d) + CountPigs(r, i, j, rest);
      assert CountPigs(b, i, j, ds) == PigAt(b, i, j, d) + CountPigs(b, i, j, rest);
      PigAtAfterNewPig(b, r, x, y, i, j, d);
      assert Distinct(rest) by {
        forall m, n | 0 <= m < n < |rest| ensures rest[m] != rest[n] {
          assert rest[m] == ds[m + 1] && rest[n] == ds[n + 1];
        }
      }
      CountPigsAfterNewPig(b, r, x, y, i, j, rest);
      assert ds == [d] + rest;
      if t == d {
        forall n | 0 <= n < |rest| ensures rest[n] != t {
          assert rest[n] == ds[n + 1];
        }
      }
    }
  }

  /** b and nb show the same value in every cell. */
  ghost predicate SameValues(b: Grid, nb: Grid)
    requires WellFormed(b) && WellFormed(nb)
  {
    forall i, j :: InRange(i, j) ==> nb[i][j].value == b[i][j].value
  }

  lemma {:induction false} CountPigsSameValues(b: Grid, nb: Grid, x: int, y: int, ds: seq<Pos>)
    requires WellFormed(b) && WellFormed(nb) && SameValues(b, nb)
    ensures CountPigs(nb, x, y, ds) == CountPigs(b, x, y, ds)
  {
    if ds != [] {
      CountPigsSameValues(b, nb, x, y, ds[1..]);
    }
  }

  /** A step that changes no value keeps the pigs where they are, keeps
      every count right and keeps the pigs apart. A click changes no value
      (ClickedOnly in HandleClick's contract implies SameValues), and neither
      does a long press. */
  lemma SameValuesKeepPigs(b: Grid, nb: Grid)
    requires WellFormed(b) && WellFormed(nb) && SameValues(b, nb)
    ensures PigCells(nb) == PigCells(b)
    ensures CountsCorrect(b) ==> CountsCorrect(nb)
    ensures NoAdjacentPigs(b) ==> NoAdjacentPigs(nb)
  {
    forall i, j | InRange(i, j) ensures PigNeighbours(nb, i, j) == PigNeighbours(b, i, j) {
      CountPigsSameValues(b, nb, i, j, DIRECTIONS);
    }
  }
}
