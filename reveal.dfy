/** The flood fill a click on a non-pig cell starts. The fill clicks its
    start cell and, when that cell shows 0, restarts at each of the eight
    neighbours; it stops at positions out of range and at cells already
    clicked. It reads neither the flags nor, except for the 0 test, the
    values, so a flagged cell in its way is clicked like any other.

    Its result is specified by FloodFill: exactly the cells reachable from
    the start along a path of unclicked cells, each but the last showing 0,
    become clicked. */
module Reveal {
  import opened Board

  /** The positions not yet clicked; the fill strictly shrinks this set
      before every call it makes. */
  function Unclicked(b: Grid): set<Pos>
    requires WellFormed(b)
  {
    set i, j | 0 <= i < SIZE && 0 <= j < SIZE && !b[i][j].clicked :: (i, j)
  }

  lemma UnclickedShrinks(b: Grid, nb: Grid)
    requires WellFormed(b) && WellFormed(nb) && ClickedOnly(b, nb)
    ensures Unclicked(nb) <= Unclicked(b)
  {
    forall p | p in Unclicked(nb) ensures p in Unclicked(b) {
      assert InRange(p.0, p.1);
    }
  }

  /** A path the fill can follow over b: every cell on it is in range and
      unclicked in b, each cell touches the next, and every cell but the
      last shows 0. */
  ghost predicate FillPath(b: Grid, p: seq<Pos>)
    requires WellFormed(b)
  {
    |p| > 0 &&
    (forall k :: 0 <= k < |p| ==> InRange(p[k].0, p[k].1) && !b[p[k].0][p[k].1].clicked) &&
    (forall k :: 0 <= k < |p| - 1 ==>
      b[p[k].0][p[k].1].value == Count(0) && Adjacent(p[k].0, p[k].1, p[k + 1].0, p[k + 1].1))
  }

  /** The fill started at (x, y) on b reaches (i, j). */
  ghost predicate Reachable(b: Grid, x: int, y: int, i: int, j: int)
    requires WellFormed(b)
  {
    exists p :: FillPath(b, p) && p[0] == (x, y) && p[|p| - 1] == (i, j)
  }

  /** The board the fill started at (x, y) leaves behind: b with every
      reachable cell clicked. */
  ghost function FloodFill(b: Grid, x: int, y: int): (r: Grid)
    requires WellFormed(b)
    ensures WellFormed(r) && ClickedOnly(b, r)
    ensures forall i, j :: InRange(i, j) ==> (r[i][j].clicked <==> b[i][j].clicked || Reachable(b, x, y, i, j))
  {
    seq(SIZE, i requires 0 <= i < SIZE => seq(SIZE, j requires 0 <= j < SIZE =>
      b[i][j].(clicked := b[i][j].clicked || Reachable(b, x, y, i, j))))
  }

  /** (i, j) was clicked by the step from b to nb. */
  ghost predicate Newly(b: Grid, nb: Grid, i: int, j: int)
    requires WellFormed(b) && WellFormed(nb)
  {
    InRange(i, j) && nb[i][j].clicked && !b[i][j].clicked
  }

  ghost predicate NeighboursClicked(b: Grid, i: int, j: int)
    requires WellFormed(b)
  {
    forall u, v :: InRange(u, v) && Adjacent(i, j, u, v) ==> b[u][v].clicked
  }

  /** Every cell showing 0 that the step from b to nb clicked, except
      perhaps (x, y), has all its neighbours clicked in nb. */
  ghost predicate ClosedBut(b: Grid, nb: Grid, x: int, y: int)
    requires WellFormed(b) && WellFormed(nb)
  {
    forall i, j :: Newly(b, nb, i, j) && (i, j) != (x, y) && nb[i][j].value == Count(0) ==>
      NeighboursClicked(nb, i, j)
  }

  /** Every cell the step from b to nb clicked is reachable from (x, y). */
  ghost predicate Sound(b: Grid, nb: Grid, x: int, y: int)
    requires WellFormed(b) && WellFormed(nb)
  {
    forall i, j :: Newly(b, nb, i, j) ==> Reachable(b, x, y, i, j)
  }

  /** A fill started out of range or on a clicked cell changes nothing. */
  lemma FloodFillIdle(b: Grid, x: int, y: int)
    requires WellFormed(b) && (!InRange(x, y) || b[x][y].clicked)
    ensures FloodFill(b, x, y) == b
  {
    forall p: seq<Pos> | FillPath(b, p) ensures p[0] != (x, y) {
      assert InRange(p[0].0, p[0].1) && !b[p[0].0][p[0].1].clicked;
    }
    var r := FloodFill(b, x, y);
    forall i | 0 <= i < SIZE ensures r[i] == b[i] {
      forall j | 0 <= j < SIZE ensures r[i][j] == b[i][j] {
        assert !Reachable(b, x, y, i, j);
      }
    }
  }

  /** A fill started on an unclicked in-range cell clicks it. */
  lemma FloodFillClicksStart(b: Grid, x: int, y: int)
    requires WellFormed(b) && InRange(x, y)
    ensures FloodFill(b, x, y)[x][y].clicked
  {
    if !b[x][y].clicked {
      assert FillPath(b, [(x, y)]);
    }
  }

  /** The fill never looks at flags: on two boards that differ only in
      their flags it clicks the same cells, so a flagged cell in its way is
      clicked as well. */
  lemma FloodFillIgnoresFlags(b: Grid, b2: Grid, x: int, y: int)
    requires WellFormed(b) && WellFormed(b2)
    requires forall i, j :: InRange(i, j) ==> b2[i][j].value == b[i][j].value && b2[i][j].clicked == b[i][j].clicked
    ensures forall i, j :: InRange(i, j) ==> FloodFill(b2, x, y)[i][j].clicked == FloodFill(b, x, y)[i][j].clicked
  {
  }

  /** A cell showing 0 that the fill clicks has all its neighbours clicked
      afterwards: the fill never stops at a 0. */
  lemma FloodFillClosed(b: Grid, x: int, y: int, i: int, j: int, u: int, v: int)
    requires WellFormed(b)
    requires Newly(b, FloodFill(b, x, y), i, j) && b[i][j].value == Count(0)
    requires InRange(u, v) && Adjacent(i, j, u, v)
    ensures FloodFill(b, x, y)[u][v].clicked
  {
    if !b[u][v].clicked {
      var p: seq<Pos> :| FillPath(b, p) && p[0] == (x, y) && p[|p| - 1] == (i, j);
      var q := p + [(u, v)];
      assert FillPath(b, q) by {
        forall k | 0 <= k < |q| - 1
          ensures b[q[k].0][q[k].1].value == Count(0) && Adjacent(q[k].0, q[k].1, q[k + 1].0, q[k + 1].1)
        {
          if k < |p| - 1 { assert q[k] == p[k] && q[k + 1] == p[k + 1]; }
        }
      }
      assert q[0] == (x, y) && q[|q| - 1] == (u, v);
    }
  }

  /** On a board whose counts are right, a fill path that starts on a
      non-pig cell never reaches a pig. */
  lemma {:induction false} FillPathAvoidsPigs(b: Grid, p: seq<Pos>)
    requires WellFormed(b) && CountsCorrect(b) && FillPath(b, p)
    requires b[p[0].0][p[0].1].value != Pig
    ensures forall k :: 0 <= k < |p| ==> b[p[k].0][p[k].1].value != Pig
  {
    if |p| > 1 {
      var q := p[..|p| - 1];
      assert FillPath(b, q) by {
        forall k | 0 <= k < |q| - 1
          ensures b[q[k].0][q[k].1].value == Count(0) && Adjacent(q[k].0, q[k].1, q[k + 1].0, q[k + 1].1)
        {
          assert q[k] == p[k] && q[k + 1] == p[k + 1];
        }
      }
      FillPathAvoidsPigs(b, q);
      var n := |p| - 2;
      assert q[n] == p[n];
      NoPigNextToZero(b, p[n].0, p[n].1, p[n + 1].0, p[n + 1].1);
      forall k | 0 <= k < |p| ensures b[p[k].0][p[k].1].value != Pig {
        if k < |q| { assert p[k] == q[k]; }
      }
    }
  }

  /** Given correct counts, a fill started on a non-pig cell clicks no pig. */
  lemma FloodFillAvoidsPigs(b: Grid, x: int, y: int)
    requires WellFormed(b) && CountsCorrect(b)
    requires InRange(x, y) && b[x][y].value != Pig
    ensures forall i, j :: InRange(i, j) && b[i][j].value == Pig ==>
      FloodFill(b, x, y)[i][j].clicked == b[i][j].clicked
  {
    forall p: seq<Pos> | FillPath(b, p) && p[0] == (x, y)
      ensures b[p[|p| - 1].0][p[|p| - 1].1].value != Pig
    {
      FillPathAvoidsPigs(b, p);
    }
  }

  /** A path the fill can follow over an intermediate board prev, preceded
      by the start (x, y) of the outer call, is a path over the board b the
      outer call began with. */
  lemma PrependStart(b: Grid, prev: Grid, x: int, y: int, p: seq<Pos>)
    requires WellFormed(b) && WellFormed(prev) && ClickedOnly(b, prev)
    requires FillPath(prev, p)
    requires InRange(x, y) && !b[x][y].clicked && b[x][y].value == Count(0)
    requires Adjacent(x, y, p[0].0, p[0].1)
    ensures FillPath(b, [(x, y)] + p)
  {
    var q := [(x, y)] + p;
    forall k | 0 <= k < |q| ensures InRange(q[k].0, q[k].1) && !b[q[k].0][q[k].1].clicked {
      if k > 0 { assert q[k] == p[k - 1]; }
    }
    forall k | 0 <= k < |q| - 1
      ensures b[q[k].0][q[k].1].value == Count(0) && Adjacent(q[k].0, q[k].1, q[k + 1].0, q[k + 1].1)
    {
      if k > 0 { assert q[k] == p[k - 1] && q[k + 1] == p[k]; }
    }
  }

  /** If nb clicked the start and no 0 it newly clicked stopped the fill,
      then every cell reachable from the start is clicked in nb. */
  lemma {:induction false} ClosedIsComplete(b: Grid, nb: Grid, x: int, y: int, p: seq<Pos>)
    requires WellFormed(b) && WellFormed(nb) && ClickedOnly(b, nb)
    requires InRange(x, y) && nb[x][y].clicked
    requires ClosedBut(b, nb, x, y) && (nb[x][y].value == Count(0) ==> NeighboursClicked(nb, x, y))
    requires FillPath(b, p) && p[0] == (x, y)
    ensures nb[p[|p| - 1].0][p[|p| - 1].1].clicked
  {
    if |p| > 1 {
      var q := p[..|p| - 1];
      assert FillPath(b, q) by {
        forall k | 0 <= k < |q| - 1
          ensures b[q[k].0][q[k].1].value == Count(0) && Adjacent(q[k].0, q[k].1, q[k + 1].0, q[k + 1].1)
        {
          assert q[k] == p[k] && q[k + 1] == p[k + 1];
        }
      }
      ClosedIsComplete(b, nb, x, y, q);
      var n := |p| - 2;
      assert q[|q| - 1] == p[n];
      var c := p[n];
      assert nb[c.0][c.1].clicked && !b[c.0][c.1].clicked && nb[c.0][c.1].value == Count(0);
      assert NeighboursClicked(nb, c.0, c.1);
      assert InRange(p[n + 1].0, p[n + 1].1) && Adjacent(c.0, c.1, p[n + 1].0, p[n + 1].1);
    }
  }

  /** The invariants the fill keeps pin its result down to FloodFill. */
  lemma FillCharacterised(b: Grid, nb: Grid, x: int, y: int)
    requires WellFormed(b) && WellFormed(nb) && ClickedOnly(b, nb)
    requires InRange(x, y) && !b[x][y].clicked && nb[x][y].clicked
    requires ClosedBut(b, nb, x, y) && (nb[x][y].value == Count(0) ==> NeighboursClicked(nb, x, y))
    requires Sound(b, nb, x, y)
    ensures nb == FloodFill(b, x, y)
  {
    var r := FloodFill(b, x, y);
    forall i | 0 <= i < SIZE ensures nb[i] == r[i] {
      forall j | 0 <= j < SIZE ensures nb[i][j] == r[i][j] {
        if Reachable(b, x, y, i, j) {
          var p: seq<Pos> :| FillPath(b, p) && p[0] == (x, y) && p[|p| - 1] == (i, j);
          ClosedIsComplete(b, nb, x, y, p);
        }
        assert nb[i][j].clicked == r[i][j].clicked;
      }
    }
  }

  /** The recursive call at a neighbour (nx, ny) of the start keeps every
      0 the outer call clicked, bar the start, closed. */
  lemma FillStepClosed(b: Grid, prev: Grid, x: int, y: int, nx: int, ny: int)
    requires WellFormed(b) && WellFormed(prev) && ClickedOnly(b, prev)
    requires ClosedBut(b, prev, x, y)
    ensures ClosedBut(b, FloodFill(prev, nx, ny), x, y)
  {
    var nb := FloodFill(prev, nx, ny);
    forall i, j | Newly(b, nb, i, j) && (i, j) != (x, y) && nb[i][j].value == Count(0)
      ensures NeighboursClicked(nb, i, j)
    {
      forall u, v | InRange(u, v) && Adjacent(i, j, u, v) ensures nb[u][v].clicked {
        if prev[i][j].clicked {
          assert Newly(b, prev, i, j);
          assert NeighboursClicked(prev, i, j);
          assert prev[u][v].clicked;
        } else {
          FloodFillClosed(prev, nx, ny, i, j, u, v);
        }
      }
    }
  }

  /** Everything the recursive call at a neighbour (nx, ny) of the start
      clicks is reachable from the start. */
  lemma FillStepSound(b: Grid, prev: Grid, x: int, y: int, nx: int, ny: int)
    requires WellFormed(b) && WellFormed(prev) && ClickedOnly(b, prev)
    requires InRange(x, y) && !b[x][y].clicked && b[x][y].value == Count(0)
    requires Adjacent(x, y, nx, ny)
    requires Sound(b, prev, x, y)
    ensures Sound(b, FloodFill(prev, nx, ny), x, y)
  {
    var nb := FloodFill(prev, nx, ny);
    forall i, j | Newly(b, nb, i, j) ensures Reachable(b, x, y, i, j) {
      if !prev[i][j].clicked {
        var p: seq<Pos> :| FillPath(prev, p) && p[0] == (nx, ny) && p[|p| - 1] == (i, j);
        PrependStart(b, prev, x, y, p);
        var q := [(x, y)] + p;
        assert q[0] == (x, y) && q[|q| - 1] == (i, j);
      } else {
        assert Newly(b, prev, i, j);
      }
    }
  }

  lemma ClickedOnlyTrans(a: Grid, b: Grid, c: Grid)
    requires WellFormed(a) && WellFormed(b) && WellFormed(c)
    requires ClickedOnly(a, b) && ClickedOnly(b, c)
    ensures ClickedOnly(a, c)
  {
  }

  /** The neighbours the direction loop has visited in its first k passes
      are clicked. */
  ghost predicate VisitedClicked(nb: Grid, x: int, y: int, k: int)
    requires WellFormed(nb) && 0 <= k <= |DIRECTIONS|
  {
    forall d :: 0 <= d < k && InRange(x + DIRECTIONS[d].0, y + DIRECTIONS[d].1) ==>
      nb[x + DIRECTIONS[d].0][y + DIRECTIONS[d].1].clicked
  }

  lemma VisitedClickedStep(prev: Grid, nb: Grid, x: int, y: int, k: int)
    requires WellFormed(prev) && WellFormed(nb) && ClickedOnly(prev, nb)
    requires 0 <= k < |DIRECTIONS| && VisitedClicked(prev, x, y, k)
    requires InRange(x + DIRECTIONS[k].0, y + DIRECTIONS[k].1) ==> nb[x + DIRECTIONS[k].0][y + DIRECTIONS[k].1].clicked
    ensures VisitedClicked(nb, x, y, k + 1)
  {
    forall d | 0 <= d < k + 1 && InRange(x + DIRECTIONS[d].0, y + DIRECTIONS[d].1)
      ensures nb[x + DIRECTIONS[d].0][y + DIRECTIONS[d].1].clicked
    {
      if d < k {
        assert prev[x + DIRECTIONS[d].0][y + DIRECTIONS[d].1].clicked;
      }
    }
  }

  /** Once all eight directions are visited, every neighbour is clicked. */
  lemma VisitedAll(nb: Grid, x: int, y: int)
    requires WellFormed(nb) && VisitedClicked(nb, x, y, |DIRECTIONS|)
    ensures NeighboursClicked(nb, x, y)
  {
    forall u, v | InRange(u, v) && Adjacent(x, y, u, v) ensures nb[u][v].clicked {
      var d := DirectionOf(x, y, u, v);
    }
  }

  /** Clicking the start cell begins a step from b that keeps every loop
      invariant of the fill and shrinks the unclicked set. */
  lemma FillStart(b: Grid, x: int, y: int)
    requires WellFormed(b) && InRange(x, y) && !b[x][y].clicked
    ensures FillInvariant(b, b[x := b[x][y := b[x][y].(clicked := true)]], x, y, 0)
  {
    var nb := b[x := b[x][y := b[x][y].(clicked := true)]];
    UnclickedShrinks(b, nb);
    assert (x, y) in Unclicked(b) && (x, y) !in Unclicked(nb);
    assert FillPath(b, [(x, y)]);
  }

  /** The loop invariant of the fill started at (x, y) on b, after k of
      the eight directions: nb only added clicks to b, (x, y) among them,
      the visited neighbours are clicked, no newly clicked 0 other than the
      start stopped the fill, and every new click is reachable. */
  ghost predicate FillInvariant(b: Grid, nb: Grid, x: int, y: int, k: int)
    requires WellFormed(b)
  {
    WellFormed(nb) && ClickedOnly(b, nb) && InRange(x, y) && nb[x][y].clicked &&
    Unclicked(nb) < Unclicked(b) && 0 <= k <= |DIRECTIONS| && VisitedClicked(nb, x, y, k) &&
    ClosedBut(b, nb, x, y) && Sound(b, nb, x, y)
  }

  /** What the outer fill knows when it descends in direction k, to
      (nx, ny), from a started 0 cell. */
  ghost predicate BeforeStep(b: Grid, prev: Grid, x: int, y: int, k: int, nx: int, ny: int)
    requires WellFormed(b)
  {
    FillInvariant(b, prev, x, y, k) && k < |DIRECTIONS| && !b[x][y].clicked && b[x][y].value == Count(0) &&
    nx == x + DIRECTIONS[k].0 && ny == y + DIRECTIONS[k].1
  }

  lemma FillStepFrame(b: Grid, prev: Grid, x: int, y: int, k: int, nx: int, ny: int)
    requires WellFormed(b) && BeforeStep(b, prev, x, y, k, nx, ny)
    ensures var nb := FloodFill(prev, nx, ny);
      ClickedOnly(b, nb) && nb[x][y].clicked && Unclicked(nb) < Unclicked(b)
  {
    var nb := FloodFill(prev, nx, ny);
    ClickedOnlyTrans(b, prev, nb);
    UnclickedShrinks(prev, nb);
  }

  lemma FillStepVisited(b: Grid, prev: Grid, x: int, y: int, k: int, nx: int, ny: int)
    requires WellFormed(b) && BeforeStep(b, prev, x, y, k, nx, ny)
    ensures VisitedClicked(FloodFill(prev, nx, ny), x, y, k + 1)
  {
    if InRange(nx, ny) { FloodFillClicksStart(prev, nx, ny); }
    VisitedClickedStep(prev, FloodFill(prev, nx, ny), x, y, k);
  }

  lemma FillStepSoundAt(b: Grid, prev: Grid, x: int, y: int, k: int, nx: int, ny: int)
    requires WellFormed(b) && BeforeStep(b, prev, x, y, k, nx, ny)
    ensures Sound(b, FloodFill(prev, nx, ny), x, y)
  {
    DirectionIsAdjacent(x, y, k);
    FillStepSound(b, prev, x, y, nx, ny);
  }

  /** The fill from the k-th neighbour (nx, ny) of a started 0 cell keeps
      the loop invariant of the outer fill, one more direction visited. */
  lemma FillStep(b: Grid, prev: Grid, nb: Grid, x: int, y: int, k: int, nx: int, ny: int)
    requires WellFormed(b) && FillInvariant(b, prev, x, y, k) && k < |DIRECTIONS|
    requires !b[x][y].clicked && b[x][y].value == Count(0)
    requires nx == x + DIRECTIONS[k].0 && ny == y + DIRECTIONS[k].1
    requires nb == FloodFill(prev, nx, ny)
    ensures FillInvariant(b, nb, x, y, k + 1)
  {
    assert BeforeStep(b, prev, x, y, k, nx, ny);
    FillStepFrame(b, prev, x, y, k, nx, ny);
    FillStepVisited(b, prev, x, y, k, nx, ny);
    FillStepClosed(b, prev, x, y, nx, ny);
    FillStepSoundAt(b, prev, x, y, k, nx, ny);
  }

  /** The flood fill of the game, run on the board copy a click works on:
      stop out of range or at a clicked cell; otherwise click the cell and,
      if it shows 0, fill from each of its eight neighbours in turn. */
  method RevealSurrounding(b: Grid, x: int, y: int) returns (nb: Grid)
    requires WellFormed(b)
    ensures nb == FloodFill(b, x, y)
    decreases Unclicked(b)
  {
    if x < 0 || y < 0 || x >= SIZE || y >= SIZE || b[x][y].clicked {
      FloodFillIdle(b, x, y);
      return b;
    }
    nb := b[x := b[x][y := b[x][y].(clicked := true)]];
    FillStart(b, x, y);
    if nb[x][y].value == Count(0) {
      assert b[x][y].value == Count(0);
      for k := 0 to |DIRECTIONS|
        invariant FillInvariant(b, nb, x, y, k)
      {
        ghost var prev := nb;
        var nx, ny := x + DIRECTIONS[k].0, y + DIRECTIONS[k].1;
        nb := RevealSurrounding(nb, nx, ny);
        FillStep(b, prev, nb, x, y, k, nx, ny);
      }
      VisitedAll(nb, x, y);
    }
    FillCharacterised(b, nb, x, y);
  }
}
