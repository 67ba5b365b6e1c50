/**
 * Force computation of a gravity grid (src/gravity_grid.rs, `compute_gravity`,
 * `devide_and_conquer`, `compute_force`), as functions on values: the clamped
 * neighbour window of a cell, the filtered list of interacting cell pairs built in
 * row-major order, and the recursive halving reduction that sums their forces.
 */
module Interaction {
  import opened Binning

  /** The fixed neighbour radius, in cells. */
  const RADIUS: int := 5

  /** A 2D force, `[f32; 2]` in the source. */
  datatype Force = Force(x: real, y: real)

  const ZeroForce: Force := Force(0.0, 0.0)

  function Add(a: Force, b: Force): Force
  {
    Force(a.x + b.x, a.y + b.y)
  }

  /** One interacting cell pair: the columns, rows and masses of both cells and the cell edge. */
  datatype Permutation = Permutation(x1: int, y1: int, mass1: real, x2: int, y2: int, mass2: real, cellSize: real)

  /**
   * The pairwise force of `compute_gravity`, as a function of (cell edge, x1, y1, mass1, x2, y2, mass2).
   * Its inverse-square body is floating-point trigonometry and is not part of this model.
   */
  type GravityLaw = (real, int, int, real, int, int, real) -> Force

  function Gravity(law: GravityLaw, p: Permutation): Force
  {
    law(p.cellSize, p.x1, p.y1, p.mass1, p.x2, p.y2, p.mass2)
  }

  // ---------------------------------------------------------------------------
  // The reduction

  /** The plain sequential sum of the pair forces, from the first pair to the last. */
  function SeqSum(law: GravityLaw, ps: seq<Permutation>): Force
  {
    if ps == [] then ZeroForce else Add(Gravity(law, ps[0]), SeqSum(law, ps[1..]))
  }

  /** `devide_and_conquer`: split at the middle, reduce both halves, add; a single pair is evaluated directly. */
  function DivideAndConquer(law: GravityLaw, ps: seq<Permutation>): Force
    requires |ps| >= 1
    decreases |ps|
  {
    if |ps| >= 2 then
      var mid := |ps| / 2;
      Add(DivideAndConquer(law, ps[..mid]), DivideAndConquer(law, ps[mid..]))
    else
      Gravity(law, ps[0])
  }

  lemma {:induction false} SumAppend(law: GravityLaw, a: seq<Permutation>, b: seq<Permutation>)
    ensures SeqSum(law, a + b) == Add(SeqSum(law, a), SeqSum(law, b))
  {
    if a != [] {
      assert (a + b)[1..] == a[1..] + b;
      SumAppend(law, a[1..], b);
    } else {
      assert a + b == b;
    }
  }

  /** Partition invariance: splitting the pair list anywhere and adding the two partial sums gives the whole sum. */
  lemma SumSplit(law: GravityLaw, ps: seq<Permutation>, k: nat)
    requires k <= |ps|
    ensures SeqSum(law, ps) == Add(SeqSum(law, ps[..k]), SeqSum(law, ps[k..]))
  {
    assert ps == ps[..k] + ps[k..];
    SumAppend(law, ps[..k], ps[k..]);
  }

  /** The recursive reduction equals the sequential sum of the pair forces. */
  lemma {:induction false} DivideAndConquerIsSum(law: GravityLaw, ps: seq<Permutation>)
    requires |ps| >= 1
    ensures DivideAndConquer(law, ps) == SeqSum(law, ps)
    decreases |ps|
  {
    if |ps| >= 2 {
      var mid := |ps| / 2;
      DivideAndConquerIsSum(law, ps[..mid]);
      DivideAndConquerIsSum(law, ps[mid..]);
      SumSplit(law, ps, mid);
    } else {
      assert ps[1..] == [];
    }
  }

  // ---------------------------------------------------------------------------
  // The neighbour window and the pair list

  /** Column and row bounds of the neighbours searched for a cell; each upper bound is exclusive. */
  datatype Window = Window(xLow: int, xHigh: int, yLow: int, yHigh: int)

  /** The window of `compute_force`: radius 5 around the cell, clamped to 0 below and to the last column or row above. */
  function NeighbourWindow(d: Dims, x1: int, y1: int): Window
  {
    Window(
      if x1 - RADIUS < 0 then 0 else x1 - RADIUS,
      if x1 + RADIUS > d.width - 1 then d.width - 1 else x1 + RADIUS,
      if y1 - RADIUS < 0 then 0 else y1 - RADIUS,
      if y1 + RADIUS > d.height - 1 then d.height - 1 else y1 + RADIUS)
  }

  /** The window of a cell of the grid is a well-formed range of cells of the grid. */
  predicate WindowFits(d: Dims, win: Window)
  {
    0 <= win.xLow <= win.xHigh <= d.width && 0 <= win.yLow <= win.yHigh <= d.height
  }

  /**
   * A cell lies in a cell's window exactly when it is at most 5 cells before and fewer than 5 cells
   * after it on each axis, and not in the last column or the last row: the exclusive upper bound,
   * clamped to width - 1 (height - 1), leaves those out.
   */
  lemma WindowMembers(d: Dims, x1: int, y1: int, x2: int, y2: int)
    requires 0 <= x1 < d.width && 0 <= y1 < d.height
    ensures WindowFits(d, NeighbourWindow(d, x1, y1))
    ensures var win := NeighbourWindow(d, x1, y1);
      (win.xLow <= x2 < win.xHigh && win.yLow <= y2 < win.yHigh) <==>
      (0 <= x2 < d.width - 1 && x1 - RADIUS <= x2 < x1 + RADIUS &&
       0 <= y2 < d.height - 1 && y1 - RADIUS <= y2 < y1 + RADIUS)
  {
  }

  /** The cell masses of a grid: one per cell. */
  predicate MassesFit(d: Dims, m: seq<real>)
  {
    ValidDims(d) && |m| == Cells(d)
  }

  /** The mass of the cell in column x and row y. */
  function MassAt(d: Dims, m: seq<real>, x: nat, y: nat): real
    requires MassesFit(d, m) && x < d.width && y < d.height
  {
    IndexBelow(d.width, d.height, x, y);
    m[y * d.width + x]
  }

  /** The record `compute_force` builds for cell (x1, y1) and neighbour (x2, y2). */
  function PairOf(d: Dims, m: seq<real>, x1: nat, y1: nat, x2: nat, y2: nat): Permutation
    requires MassesFit(d, m) && x1 < d.width && y1 < d.height && x2 < d.width && y2 < d.height
  {
    Permutation(x1, y1, MassAt(d, m, x1, y1), x2, y2, MassAt(d, m, x2, y2), d.cellSize)
  }

  /** The filter of `compute_force`: both masses non-zero and two different cell indices. */
  predicate Kept(d: Dims, m: seq<real>, x1: nat, y1: nat, x2: nat, y2: nat)
    requires MassesFit(d, m) && x1 < d.width && y1 < d.height && x2 < d.width && y2 < d.height
  {
    MassAt(d, m, x1, y1) != 0.0 && MassAt(d, m, x2, y2) != 0.0 && y1 * d.width + x1 != y2 * d.width + x2
  }

  /** What scanning neighbour (x2, y2) of cell (x1, y1) adds to the list. */
  function Candidate(d: Dims, m: seq<real>, x1: nat, y1: nat, x2: nat, y2: nat): seq<Permutation>
    requires MassesFit(d, m) && x1 < d.width && y1 < d.height && x2 < d.width && y2 < d.height
  {
    if Kept(d, m, x1, y1, x2, y2) then [PairOf(d, m, x1, y1, x2, y2)] else []
  }

  /** The pairs recorded while scanning row y2 of the window from column xLow up to (not including) column x. */
  function RowPermutations(d: Dims, m: seq<real>, x1: nat, y1: nat, y2: nat, xLow: nat, x: nat): seq<Permutation>
    requires MassesFit(d, m) && x1 < d.width && y1 < d.height && y2 < d.height && xLow <= x <= d.width
    decreases x - xLow
  {
    if x == xLow then [] else RowPermutations(d, m, x1, y1, y2, xLow, x - 1) + Candidate(d, m, x1, y1, x - 1, y2)
  }

  /** The pairs recorded while scanning the window's rows from its lowest up to (not including) row y. */
  function WindowPermutations(d: Dims, m: seq<real>, x1: nat, y1: nat, win: Window, y: nat): seq<Permutation>
    requires MassesFit(d, m) && x1 < d.width && y1 < d.height && WindowFits(d, win) && win.yLow <= y <= d.height
    decreases y - win.yLow
  {
    if y == win.yLow then []
    else WindowPermutations(d, m, x1, y1, win, y - 1) + RowPermutations(d, m, x1, y1, y - 1, win.xLow, win.xHigh)
  }

  /** The `permutations` list `compute_force` builds for cell (x1, y1). */
  function Permutations(d: Dims, m: seq<real>, x1: nat, y1: nat): seq<Permutation>
    requires MassesFit(d, m) && x1 < d.width && y1 < d.height
  {
    var win := NeighbourWindow(d, x1, y1);
    WindowMembers(d, x1, y1, 0, 0);
    WindowPermutations(d, m, x1, y1, win, win.yHigh)
  }

  /** What a recorded pair of cell (x1, y1) with neighbour (x2, y2) is: both masses read from the grid, both non-zero, and two different cells. */
  ghost predicate Recorded(d: Dims, m: seq<real>, x1: nat, y1: nat, p: Permutation)
    requires MassesFit(d, m) && x1 < d.width && y1 < d.height
  {
    p.x1 == x1 && p.y1 == y1 && p.cellSize == d.cellSize &&
    0 <= p.x2 < d.width && 0 <= p.y2 < d.height &&
    p.mass1 == MassAt(d, m, x1, y1) && p.mass2 == MassAt(d, m, p.x2, p.y2) &&
    p.mass1 != 0.0 && p.mass2 != 0.0 && (p.x2 != x1 || p.y2 != y1)
  }

  lemma {:induction false} RowSound(d: Dims, m: seq<real>, x1: nat, y1: nat, y2: nat, xLow: nat, x: nat, p: Permutation)
    requires MassesFit(d, m) && x1 < d.width && y1 < d.height && y2 < d.height && xLow <= x <= d.width
    requires p in RowPermutations(d, m, x1, y1, y2, xLow, x)
    ensures Recorded(d, m, x1, y1, p) && p.y2 == y2 && xLow <= p.x2 < x
    decreases x - xLow
  {
    var rest := RowPermutations(d, m, x1, y1, y2, xLow, x - 1);
    if p in rest {
      RowSound(d, m, x1, y1, y2, xLow, x - 1, p);
    } else {
      IndexBelow(d.width, d.height, x - 1, y2);
    }
  }

  lemma {:induction false} WindowSound(d: Dims, m: seq<real>, x1: nat, y1: nat, win: Window, y: nat, p: Permutation)
    requires MassesFit(d, m) && x1 < d.width && y1 < d.height && WindowFits(d, win) && win.yLow <= y <= d.height
    requires p in WindowPermutations(d, m, x1, y1, win, y)
    ensures Recorded(d, m, x1, y1, p) && win.xLow <= p.x2 < win.xHigh && win.yLow <= p.y2 < y
    decreases y - win.yLow
  {
    if p in WindowPermutations(d, m, x1, y1, win, y - 1) {
      WindowSound(d, m, x1, y1, win, y - 1, p);
    } else {
      RowSound(d, m, x1, y1, y - 1, win.xLow, win.xHigh, p);
    }
  }

  /**
   * Every recorded pair of cell (x1, y1) has its neighbour inside the window (so its index is inside the
   * cell arrays, and it is never in the last column or row), both masses non-zero, and two different cells.
   */
  lemma PermutationsSound(d: Dims, m: seq<real>, x1: nat, y1: nat, p: Permutation)
    requires MassesFit(d, m) && x1 < d.width && y1 < d.height
    requires p in Permutations(d, m, x1, y1)
    ensures Recorded(d, m, x1, y1, p)
    ensures 0 <= p.x2 < d.width - 1 && x1 - RADIUS <= p.x2 < x1 + RADIUS
    ensures 0 <= p.y2 < d.height - 1 && y1 - RADIUS <= p.y2 < y1 + RADIUS
  {
    var win := NeighbourWindow(d, x1, y1);
    WindowMembers(d, x1, y1, p.x2, p.y2);
    WindowSound(d, m, x1, y1, win, win.yHigh, p);
  }

  lemma {:induction false} RowComplete(d: Dims, m: seq<real>, x1: nat, y1: nat, y2: nat, xLow: nat, x: nat, x2: nat)
    requires MassesFit(d, m) && x1 < d.width && y1 < d.height && y2 < d.height && xLow <= x2 < x <= d.width
    requires Kept(d, m, x1, y1, x2, y2)
    ensures PairOf(d, m, x1, y1, x2, y2) in RowPermutations(d, m, x1, y1, y2, xLow, x)
    decreases x - xLow
  {
    if x2 < x - 1 {
      RowComplete(d, m, x1, y1, y2, xLow, x - 1, x2);
    }
  }

  lemma {:induction false} WindowComplete(d: Dims, m: seq<real>, x1: nat, y1: nat, win: Window, y: nat, x2: nat, y2: nat)
    requires MassesFit(d, m) && x1 < d.width && y1 < d.height && WindowFits(d, win) && win.yLow <= y <= d.height
    requires win.xLow <= x2 < win.xHigh && win.yLow <= y2 < y
    requires Kept(d, m, x1, y1, x2, y2)
    ensures PairOf(d, m, x1, y1, x2, y2) in WindowPermutations(d, m, x1, y1, win, y)
    decreases y - win.yLow
  {
    if y2 < y - 1 {
      WindowComplete(d, m, x1, y1, win, y - 1, x2, y2);
    } else {
      RowComplete(d, m, x1, y1, y - 1, win.xLow, win.xHigh, x2);
    }
  }

  /** Every neighbour in the window with non-zero mass, other than the cell itself, is recorded when the cell's own mass is non-zero. */
  lemma PermutationsComplete(d: Dims, m: seq<real>, x1: nat, y1: nat, x2: nat, y2: nat)
    requires MassesFit(d, m) && x1 < d.width && y1 < d.height
    requires x2 < d.width - 1 && x1 - RADIUS <= x2 < x1 + RADIUS
    requires y2 < d.height - 1 && y1 - RADIUS <= y2 < y1 + RADIUS
    requires x2 != x1 || y2 != y1
    requires MassAt(d, m, x1, y1) != 0.0 && MassAt(d, m, x2, y2) != 0.0
    ensures Permutation(x1, y1, MassAt(d, m, x1, y1), x2, y2, MassAt(d, m, x2, y2), d.cellSize) in Permutations(d, m, x1, y1)
  {
    var win := NeighbourWindow(d, x1, y1);
    WindowMembers(d, x1, y1, x2, y2);
    if y1 * d.width + x1 == y2 * d.width + x2 {
      RowMajorInjective(d.width, x1, y1, x2, y2);
      assert false;
    }
    WindowComplete(d, m, x1, y1, win, win.yHigh, x2, y2);
  }

  /** The neighbours of a pair list come in strictly increasing row-major order: by row, then by column. */
  ghost predicate RowMajorOrdered(ps: seq<Permutation>)
  {
    forall i, j :: 0 <= i < j < |ps| ==>
      ps[i].y2 < ps[j].y2 || (ps[i].y2 == ps[j].y2 && ps[i].x2 < ps[j].x2)
  }

  lemma {:induction false} RowOrdered(d: Dims, m: seq<real>, x1: nat, y1: nat, y2: nat, xLow: nat, x: nat)
    requires MassesFit(d, m) && x1 < d.width && y1 < d.height && y2 < d.height && xLow <= x <= d.width
    ensures RowMajorOrdered(RowPermutations(d, m, x1, y1, y2, xLow, x))
    decreases x - xLow
  {
    if x > xLow {
      var rest := RowPermutations(d, m, x1, y1, y2, xLow, x - 1);
      var ps := RowPermutations(d, m, x1, y1, y2, xLow, x);
      RowOrdered(d, m, x1, y1, y2, xLow, x - 1);
      forall p | p in rest
        ensures p.y2 == y2 && p.x2 < x - 1
      {
        RowSound(d, m, x1, y1, y2, xLow, x - 1, p);
      }
      assert ps == rest + Candidate(d, m, x1, y1, x - 1, y2);
      forall i, j | 0 <= i < j < |ps|
        ensures ps[i].y2 < ps[j].y2 || (ps[i].y2 == ps[j].y2 && ps[i].x2 < ps[j].x2)
      {
        if j >= |rest| {
          assert ps[i] in rest;
          assert ps[j] == PairOf(d, m, x1, y1, x - 1, y2);
        }
      }
    }
  }

  lemma {:induction false} WindowOrdered(d: Dims, m: seq<real>, x1: nat, y1: nat, win: Window, y: nat)
    requires MassesFit(d, m) && x1 < d.width && y1 < d.height && WindowFits(d, win) && win.yLow <= y <= d.height
    ensures RowMajorOrdered(WindowPermutations(d, m, x1, y1, win, y))
    decreases y - win.yLow
  {
    if y > win.yLow {
      var rest := WindowPermutations(d, m, x1, y1, win, y - 1);
      var row := RowPermutations(d, m, x1, y1, y - 1, win.xLow, win.xHigh);
      var ps := WindowPermutations(d, m, x1, y1, win, y);
      WindowOrdered(d, m, x1, y1, win, y - 1);
      RowOrdered(d, m, x1, y1, y - 1, win.xLow, win.xHigh);
      forall p | p in rest
        ensures p.y2 < y - 1
      {
        WindowSound(d, m, x1, y1, win, y - 1, p);
      }
      forall p | p in row
        ensures p.y2 == y - 1
      {
        RowSound(d, m, x1, y1, y - 1, win.xLow, win.xHigh, p);
      }
      assert ps == rest + row;
      forall i, j | 0 <= i < j < |ps|
        ensures ps[i].y2 < ps[j].y2 || (ps[i].y2 == ps[j].y2 && ps[i].x2 < ps[j].x2)
      {
        if j < |rest| {
          assert ps[i] == rest[i] && ps[j] == rest[j];
        } else if i >= |rest| {
          assert ps[i] == row[i - |rest|] && ps[j] == row[j - |rest|];
        } else {
          assert ps[i] in rest && ps[j] in row;
        }
      }
    }
  }

  /** The cell index `index2` of a pair's neighbour, in a grid w cells wide. */
  function NeighbourIndex(w: nat, p: Permutation): int
  {
    p.y2 * w + p.x2
  }

  /** Row-major order of two cells inside a grid w cells wide is the order of their indices. */
  lemma IndexOrder(w: nat, p: Permutation, q: Permutation)
    requires 0 <= p.x2 < w && 0 <= q.x2 < w
    requires p.y2 < q.y2 || (p.y2 == q.y2 && p.x2 < q.x2)
    ensures NeighbourIndex(w, p) < NeighbourIndex(w, q)
  {
    if p.y2 < q.y2 {
      assert (q.y2 - p.y2) * w >= w by {
        var k := q.y2 - p.y2;
        assert k >= 1;
        MulMonotone(1, k, w);
      }
      assert q.y2 * w - p.y2 * w == (q.y2 - p.y2) * w;
    }
  }

  /**
   * The pair list of a cell holds its neighbours in strictly increasing cell index `index2`,
   * so no neighbour is recorded twice and the cell's force counts each qualifying neighbour once.
   */
  lemma PermutationsOrdered(d: Dims, m: seq<real>, x1: nat, y1: nat)
    requires MassesFit(d, m) && x1 < d.width && y1 < d.height
    ensures var ps := Permutations(d, m, x1, y1);
      forall i, j :: 0 <= i < j < |ps| ==> NeighbourIndex(d.width, ps[i]) < NeighbourIndex(d.width, ps[j])
    ensures var ps := Permutations(d, m, x1, y1);
      forall i, j :: 0 <= i < j < |ps| ==> ps[i].x2 != ps[j].x2 || ps[i].y2 != ps[j].y2
  {
    var ps := Permutations(d, m, x1, y1);
    var win := NeighbourWindow(d, x1, y1);
    WindowMembers(d, x1, y1, 0, 0);
    WindowOrdered(d, m, x1, y1, win, win.yHigh);
    assert RowMajorOrdered(ps);
    forall i, j | 0 <= i < j < |ps|
      ensures NeighbourIndex(d.width, ps[i]) < NeighbourIndex(d.width, ps[j])
      ensures ps[i].x2 != ps[j].x2 || ps[i].y2 != ps[j].y2
    {
      PermutationsSound(d, m, x1, y1, ps[i]);
      PermutationsSound(d, m, x1, y1, ps[j]);
      IndexOrder(d.width, ps[i], ps[j]);
    }
  }

  /**
   * The pair lists are one-sided: for two massive cells 5 columns apart in the same row (away from the
   * last column and row), the right cell records the left one but the left cell never records the right
   * one, because the window's upper bound is exclusive. So whatever the law, the force on a cell from a
   * neighbour is not in general matched by an opposite force on the neighbour.
   */
  lemma OneSidedPairs(d: Dims, m: seq<real>, x: nat, y: nat)
    requires MassesFit(d, m) && x + RADIUS < d.width - 1 && y < d.height - 1
    requires MassAt(d, m, x, y) != 0.0 && MassAt(d, m, x + RADIUS, y) != 0.0
    ensures PairOf(d, m, x + RADIUS, y, x, y) in Permutations(d, m, x + RADIUS, y)
    ensures forall p :: p in Permutations(d, m, x, y) ==> !(p.x2 == x + RADIUS && p.y2 == y)
  {
    PermutationsComplete(d, m, x + RADIUS, y, x, y);
    forall p | p in Permutations(d, m, x, y)
      ensures !(p.x2 == x + RADIUS && p.y2 == y)
    {
      PermutationsSound(d, m, x, y, p);
    }
  }

  // ---------------------------------------------------------------------------
  // The resultant force of a cell

  /** The force `compute_force` writes for cell (x1, y1): zero with no recorded pair, else the reduction over the pairs. */
  function CellForce(law: GravityLaw, d: Dims, m: seq<real>, x1: nat, y1: nat): Force
    requires MassesFit(d, m) && x1 < d.width && y1 < d.height
  {
    var ps := Permutations(d, m, x1, y1);
    if |ps| == 0 then ZeroForce else DivideAndConquer(law, ps)
  }

  /** A cell's force is the sequential sum of the forces of its recorded pairs (zero when there are none). */
  lemma CellForceIsSum(law: GravityLaw, d: Dims, m: seq<real>, x1: nat, y1: nat)
    requires MassesFit(d, m) && x1 < d.width && y1 < d.height
    ensures CellForce(law, d, m, x1, y1) == SeqSum(law, Permutations(d, m, x1, y1))
  {
    var ps := Permutations(d, m, x1, y1);
    if |ps| > 0 {
      DivideAndConquerIsSum(law, ps);
    }
  }

  /** A cell without mass records no pair and so gets the zero force. */
  lemma EmptyCellNoForce(law: GravityLaw, d: Dims, m: seq<real>, x1: nat, y1: nat)
    requires MassesFit(d, m) && x1 < d.width && y1 < d.height
    requires MassAt(d, m, x1, y1) == 0.0
    ensures Permutations(d, m, x1, y1) == []
    ensures CellForce(law, d, m, x1, y1) == ZeroForce
  {
    var ps := Permutations(d, m, x1, y1);
    if ps != [] {
      PermutationsSound(d, m, x1, y1, ps[0]);
      assert false;
    }
  }

  /** The force of the cell with array index c. */
  function CellForceAt(law: GravityLaw, d: Dims, m: seq<real>, c: nat): Force
    requires MassesFit(d, m) && c < Cells(d)
  {
    IndexDecodes(d.width, d.height, c);
    CellForce(law, d, m, c % d.width, c / d.width)
  }

  /** The `cell_forces` array after `compute_force`: one force per cell. */
  function Forces(law: GravityLaw, d: Dims, m: seq<real>): (r: seq<Force>)
    requires MassesFit(d, m)
    ensures |r| == |m|
  {
    seq(Cells(d), c requires 0 <= c < Cells(d) => CellForceAt(law, d, m, c))
  }

  /** A buffer holding at each cell's slot the force of that cell is the forces. */
  lemma ForcesByCell(law: GravityLaw, d: Dims, m: seq<real>, s: seq<Force>)
    requires MassesFit(d, m) && |s| == Cells(d)
    requires forall y, x :: 0 <= y < d.height && 0 <= x < d.width ==>
      Slot(d.width, x, y) < |s| && s[Slot(d.width, x, y)] == CellForce(law, d, m, x, y)
    ensures s == Forces(law, d, m)
  {
    forall c | 0 <= c < |s|
      ensures s[c] == Forces(law, d, m)[c]
    {
      var x, y := SlotOf(d.width, d.height, c);
    }
  }

  /** Slot y * width + x of the forces holds the force of the cell in column x and row y. */
  lemma ForcesAt(law: GravityLaw, d: Dims, m: seq<real>, x: nat, y: nat)
    requires MassesFit(d, m) && x < d.width && y < d.height
    ensures y * d.width + x < |Forces(law, d, m)|
    ensures Forces(law, d, m)[y * d.width + x] == CellForce(law, d, m, x, y)
  {
    IndexBelow(d.width, d.height, x, y);
    RowMajor(d.width, x, y);
  }
}
