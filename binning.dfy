/**
 * Cell indexing and mass binning of a gravity grid (src/gravity_grid.rs, `get_index`,
 * `zero_mass`, `compute_mass`), as functions on values. Cells are numbered row-major:
 * the cell in column x and row y has index y * width + x.
 */
module Binning {
  import opened Options
  import opened Particles

  /** One past the largest `u32`. */
  const U32_LIMIT: int := 0x1_0000_0000

  /** The shape of a grid: cells across, cells down, and the world-space edge of one cell. */
  datatype Dims = Dims(width: nat, height: nat, cellSize: real)

  /** The number of cells of a grid, which is the length of both of its buffers. */
  function Cells(d: Dims): nat
  {
    d.width * d.height
  }

  /** Shapes a grid is built with: `u32` dimensions whose product fits a `u32`, and a positive cell edge. */
  predicate ValidDims(d: Dims)
  {
    d.width < U32_LIMIT && d.height < U32_LIMIT && Cells(d) < U32_LIMIT && d.cellSize > 0.0
  }

  // ---------------------------------------------------------------------------
  // Row-major index arithmetic

  lemma MulMonotone(a: nat, b: nat, w: nat)
    requires a <= b
    ensures a * w <= b * w
  {
  }

  /** A column and row inside the grid give an index inside the cell arrays. */
  lemma IndexBelow(w: nat, h: nat, x: nat, y: nat)
    requires x < w && y < h
    ensures 0 <= y * w + x < w * h
  {
    MulMonotone(y + 1, h, w);
    assert (y + 1) * w == y * w + w;
  }

  /** The array index of the cell in column x and row y of a grid w cells wide (row-major order). */
  function Slot(w: nat, x: nat, y: nat): nat
  {
    y * w + x
  }

  /** The cells of the first k rows have the indices below k * w. */
  lemma SlotsBelow(w: nat, k: nat)
    ensures forall y, x :: 0 <= y < k && 0 <= x < w ==> Slot(w, x, y) < k * w
  {
    forall y, x | 0 <= y < k && 0 <= x < w
      ensures Slot(w, x, y) < k * w
    {
      IndexBelow(w, k, x, y);
    }
  }

  /** A cell of row y1 and a cell of any other row have different slots. */
  lemma RowsApart(w: nat, y1: nat)
    ensures forall y, x, x1 :: 0 <= x < w && 0 <= x1 < w && y != y1 ==> Slot(w, x, y) != Slot(w, x1, y1)
  {
    forall y, x, x1 | 0 <= x < w && 0 <= x1 < w && y != y1
      ensures Slot(w, x, y) != Slot(w, x1, y1)
    {
      RowMajor(w, x, y);
      RowMajor(w, x1, y1);
    }
  }

  /** An index inside the cell arrays is the slot of the cell in column c % w and row c / w. */
  lemma SlotOf(w: nat, h: nat, c: nat) returns (x: nat, y: nat)
    requires c < w * h
    ensures x == c % w && y == c / w
    ensures x < w && y < h && Slot(w, x, y) == c
  {
    IndexDecodes(w, h, c);
    x, y := c % w, c / w;
  }

  /** The index y * w + x gives back its column and its row. */
  lemma RowMajor(w: nat, x: nat, y: nat)
    requires x < w
    ensures (y * w + x) / w == y && (y * w + x) % w == x
  {
    var c := y * w + x;
    var q := c / w;
    if q > y {
      MulMonotone(y + 1, q, w);
      assert false;
    } else if q < y {
      MulMonotone(q + 1, y, w);
      assert false;
    }
  }

  /** Two cells with the same index are the same cell. */
  lemma RowMajorInjective(w: nat, x1: nat, y1: nat, x2: nat, y2: nat)
    requires x1 < w && x2 < w && y1 * w + x1 == y2 * w + x2
    ensures x1 == x2 && y1 == y2
  {
    RowMajor(w, x1, y1);
    RowMajor(w, x2, y2);
  }

  /** An index inside the cell arrays names a column and a row inside the grid. */
  lemma IndexDecodes(w: nat, h: nat, c: nat)
    requires c < w * h
    ensures w > 0 && c % w < w && c / w < h && (c / w) * w + c % w == c
  {
  }

  // ---------------------------------------------------------------------------
  // get_index

  /** Rust's `as u32` on a float: negative values become 0 and values past the range become its largest value. */
  function SaturatingU32(v: int): (r: nat)
    ensures r < U32_LIMIT
    ensures 0 <= v < U32_LIMIT ==> r == v
    ensures v < 0 ==> r == 0
    ensures v >= U32_LIMIT ==> r == U32_LIMIT - 1
  {
    if v < 0 then 0 else if v >= U32_LIMIT then U32_LIMIT - 1 else v
  }

  /** The column or row of a world-space coordinate: its floor-division by the cell edge, cast to `u32`. */
  function CellCoordinate(d: Dims, v: real): (r: nat)
    requires d.cellSize > 0.0
    ensures r < U32_LIMIT
    ensures v < 0.0 ==> r == 0
    ensures 0.0 <= v && (v / d.cellSize).Floor < U32_LIMIT ==> r == (v / d.cellSize).Floor
    ensures (v / d.cellSize).Floor >= U32_LIMIT ==> r == U32_LIMIT - 1
  {
    SaturatingU32((v / d.cellSize).Floor)
  }

  /** The cell index `get_index` returns for a position, `None` when the cast coordinates are off the grid. */
  function CellOf(d: Dims, x: real, y: real): (r: Option<nat>)
    requires ValidDims(d)
    ensures r.Some? ==> r.value < Cells(d)
  {
    var xIndex := CellCoordinate(d, x);
    var yIndex := CellCoordinate(d, y);
    if xIndex < d.width && yIndex < d.height then
      IndexBelow(d.width, d.height, xIndex, yIndex);
      Some(yIndex * d.width + xIndex)
    else
      None
  }

  /** A coordinate of at least zero is inside n cells exactly when it lies below n cell edges. */
  lemma CoordinateInside(d: Dims, v: real, n: nat)
    requires ValidDims(d) && v >= 0.0 && n < U32_LIMIT
    ensures CellCoordinate(d, v) < n <==> v < n as real * d.cellSize
  {
    var q := v / d.cellSize;
    assert q * d.cellSize == v;
    assert q >= 0.0;
    if v < n as real * d.cellSize {
      assert q < n as real;
    } else {
      assert q >= n as real;
    }
  }

  /** For a position with non-negative coordinates, a cell is found exactly when the position lies inside the grid's world-space rectangle. */
  lemma CellOfInside(d: Dims, x: real, y: real)
    requires ValidDims(d) && x >= 0.0 && y >= 0.0
    ensures CellOf(d, x, y).Some? <==> x < d.width as real * d.cellSize && y < d.height as real * d.cellSize
  {
    CoordinateInside(d, x, d.width);
    CoordinateInside(d, y, d.height);
  }

  /** A negative coordinate is cast to column (or row) 0: it is binned as if it were 0, not excluded. */
  lemma CellOfNegative(d: Dims, x: real, y: real)
    requires ValidDims(d)
    ensures CellOf(d, x, y) == CellOf(d, if x < 0.0 then 0.0 else x, if y < 0.0 then 0.0 else y)
  {
    if x < 0.0 {
      assert (x / d.cellSize) < 0.0;
      assert CellCoordinate(d, x) == 0 == CellCoordinate(d, 0.0);
    }
    if y < 0.0 {
      assert (y / d.cellSize) < 0.0;
      assert CellCoordinate(d, y) == 0 == CellCoordinate(d, 0.0);
    }
  }

  /** The cell found for a position with non-negative coordinates is the one whose square holds it. */
  lemma CellOfContains(d: Dims, x: real, y: real)
    requires ValidDims(d) && x >= 0.0 && y >= 0.0 && CellOf(d, x, y).Some?
    ensures var c := CellOf(d, x, y).value;
      d.width > 0 &&
      (c % d.width) as real * d.cellSize <= x < (c % d.width + 1) as real * d.cellSize &&
      (c / d.width) as real * d.cellSize <= y < (c / d.width + 1) as real * d.cellSize
  {
    var xIndex, yIndex := CellCoordinate(d, x), CellCoordinate(d, y);
    var c := CellOf(d, x, y).value;
    assert c == yIndex * d.width + xIndex;
    RowMajor(d.width, xIndex, yIndex);
    CoordinateContains(d, x, c % d.width);
    CoordinateContains(d, y, c / d.width);
  }

  /** A non-negative coordinate lies between its cast coordinate's cell edge and the next one, as long as the cast did not saturate. */
  lemma CoordinateContains(d: Dims, v: real, c: nat)
    requires d.cellSize > 0.0 && v >= 0.0 && (v / d.cellSize).Floor < U32_LIMIT && c == CellCoordinate(d, v)
    ensures c as real * d.cellSize <= v < (c + 1) as real * d.cellSize
  {
    var q := v / d.cellSize;
    assert c == q.Floor;
    assert c as real <= q < c as real + 1.0;
    calc {
      c as real * d.cellSize;
    <=
      q * d.cellSize;
    ==
      v;
    }
    calc {
      v;
    ==
      q * d.cellSize;
    <
      (c as real + 1.0) * d.cellSize;
    ==
      (c + 1) as real * d.cellSize;
    }
  }

  /** The particle after `get_index`: the found cell is recorded, and a particle off the grid keeps its old index. */
  function Reindex(d: Dims, s: PState): (r: PState)
    requires ValidDims(d)
    ensures r.(index := s.index) == s
    ensures CellOf(d, s.xPos, s.yPos).Some? ==> r.index == CellOf(d, s.xPos, s.yPos)
    ensures CellOf(d, s.xPos, s.yPos).None? ==> r == s
  {
    match CellOf(d, s.xPos, s.yPos)
    case Some(c) => s.(index := Some(c))
    case None => s
  }

  function Reindexed(d: Dims, ps: seq<PState>): (r: seq<PState>)
    requires ValidDims(d)
    ensures |r| == |ps| && forall k :: 0 <= k < |ps| ==> r[k] == Reindex(d, ps[k])
  {
    seq(|ps|, k requires 0 <= k < |ps| => Reindex(d, ps[k]))
  }

  // ---------------------------------------------------------------------------
  // zero_mass and compute_mass

  function Zeros(n: nat): (r: seq<real>)
    ensures |r| == n && forall i :: 0 <= i < n ==> r[i] == 0.0
  {
    seq(n, _ => 0.0)
  }

  /** The cell masses after one particle is binned: its mass goes to its cell, or nowhere when it is off the grid. */
  function Deposit(d: Dims, m: seq<real>, s: PState): (r: seq<real>)
    requires ValidDims(d) && |m| == Cells(d)
    ensures |r| == |m|
  {
    match CellOf(d, s.xPos, s.yPos)
    case Some(c) => m[c := m[c] + s.mass]
    case None => m
  }

  /** Binning one particle adds its mass to the cell it is found in and leaves every other cell as it was. */
  lemma DepositAt(d: Dims, m: seq<real>, s: PState, c: nat)
    requires ValidDims(d) && |m| == Cells(d) && c < |m|
    ensures Deposit(d, m, s)[c] == m[c] + if CellOf(d, s.xPos, s.yPos) == Some(c) then s.mass else 0.0
  {
  }

  /** The cell masses after `compute_mass` bins the particles, one after the other, on top of m. */
  function Binned(d: Dims, m: seq<real>, ps: seq<PState>): (r: seq<real>)
    requires ValidDims(d) && |m| == Cells(d)
    ensures |r| == |m|
  {
    if ps == [] then m else Deposit(d, Binned(d, m, ps[..|ps| - 1]), ps[|ps| - 1])
  }

  function Sum(m: seq<real>): real
  {
    if m == [] then 0.0 else Sum(m[..|m| - 1]) + m[|m| - 1]
  }

  /** Total mass of the particles binned into cell c. */
  function MassIn(d: Dims, ps: seq<PState>, c: nat): real
    requires ValidDims(d)
  {
    if ps == [] then 0.0
    else MassIn(d, ps[..|ps| - 1], c) + (if CellOf(d, ps[|ps| - 1].xPos, ps[|ps| - 1].yPos) == Some(c) then ps[|ps| - 1].mass else 0.0)
  }

  /** Total mass of the particles that lie on the grid. */
  function MassOnGrid(d: Dims, ps: seq<PState>): real
    requires ValidDims(d)
  {
    if ps == [] then 0.0
    else MassOnGrid(d, ps[..|ps| - 1]) + (if CellOf(d, ps[|ps| - 1].xPos, ps[|ps| - 1].yPos).Some? then ps[|ps| - 1].mass else 0.0)
  }

  function TotalMass(ps: seq<PState>): real
  {
    if ps == [] then 0.0 else TotalMass(ps[..|ps| - 1]) + ps[|ps| - 1].mass
  }

  /** Each cell ends up with its old mass plus exactly the masses of the particles in it; cells with no particle are untouched. */
  lemma {:induction false} BinnedAt(d: Dims, m: seq<real>, ps: seq<PState>, c: nat)
    requires ValidDims(d) && |m| == Cells(d) && c < |m|
    ensures Binned(d, m, ps)[c] == m[c] + MassIn(d, ps, c)
  {
    if ps != [] {
      BinnedAt(d, m, ps[..|ps| - 1], c);
    }
  }

  lemma {:induction false} SumAdd(m: seq<real>, i: nat, w: real)
    requires i < |m|
    ensures Sum(m[i := m[i] + w]) == Sum(m) + w
  {
    var n := |m|;
    if i == n - 1 {
      assert m[i := m[i] + w][..n - 1] == m[..n - 1];
    } else {
      assert m[i := m[i] + w][..n - 1] == m[..n - 1][i := m[i] + w];
      SumAdd(m[..n - 1], i, w);
    }
  }

  /** Binning adds to the total cell mass exactly the mass of the particles on the grid. */
  lemma {:induction false} BinnedSum(d: Dims, m: seq<real>, ps: seq<PState>)
    requires ValidDims(d) && |m| == Cells(d)
    ensures Sum(Binned(d, m, ps)) == Sum(m) + MassOnGrid(d, ps)
  {
    if ps != [] {
      var last := ps[|ps| - 1];
      BinnedSum(d, m, ps[..|ps| - 1]);
      match CellOf(d, last.xPos, last.yPos)
      case Some(c) => SumAdd(Binned(d, m, ps[..|ps| - 1]), c, last.mass);
      case None =>
    }
  }

  lemma {:induction false} SumZeros(n: nat)
    ensures Sum(Zeros(n)) == 0.0
  {
    if n > 0 {
      assert Zeros(n)[..n - 1] == Zeros(n - 1);
      SumZeros(n - 1);
    }
  }

  lemma {:induction false} AllOnGrid(d: Dims, ps: seq<PState>)
    requires ValidDims(d)
    requires forall k :: 0 <= k < |ps| ==> CellOf(d, ps[k].xPos, ps[k].yPos).Some?
    ensures MassOnGrid(d, ps) == TotalMass(ps)
  {
    if ps != [] {
      AllOnGrid(d, ps[..|ps| - 1]);
    }
  }

  /** Mass conservation: when every particle lies on the grid, freshly zeroed cells end up holding the particles' total mass. */
  lemma MassConservation(d: Dims, ps: seq<PState>)
    requires ValidDims(d)
    requires forall k :: 0 <= k < |ps| ==> CellOf(d, ps[k].xPos, ps[k].yPos).Some?
    ensures Sum(Binned(d, Zeros(Cells(d)), ps)) == TotalMass(ps)
  {
    BinnedSum(d, Zeros(Cells(d)), ps);
    SumZeros(Cells(d));
    AllOnGrid(d, ps);
  }

  /** Binning reads only positions and masses: velocities and old indices make no difference. */
  lemma {:induction false} BinnedReadsPositions(d: Dims, m: seq<real>, ps: seq<PState>, qs: seq<PState>)
    requires ValidDims(d) && |m| == Cells(d) && |ps| == |qs|
    requires forall k :: 0 <= k < |ps| ==> ps[k].xPos == qs[k].xPos && ps[k].yPos == qs[k].yPos && ps[k].mass == qs[k].mass
    ensures Binned(d, m, ps) == Binned(d, m, qs)
  {
    if ps != [] {
      BinnedReadsPositions(d, m, ps[..|ps| - 1], qs[..|qs| - 1]);
    }
  }
}
