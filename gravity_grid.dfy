/**
 * The gravity grid (src/gravity_grid.rs): per-cell mass and force buffers of fixed
 * length width * height, updated in place by `zero_mass`, `compute_mass` and
 * `compute_force`, and read by `apply_force` to push particles. Each method is proved
 * against the value-level functions of Binning and Interaction.
 */
module Grids {
  import opened Options
  import opened Particles
  import opened Binning
  import opened Interaction

  /** A particle after `apply_force`: pushed by its cell's force when its index is set and inside the forces; left alone otherwise. */
  function Kick(s: PState, forces: seq<Force>): (r: PState)
    ensures r.xPos == s.xPos && r.yPos == s.yPos && r.mass == s.mass && r.index == s.index
    ensures s.index.Some? && s.index.value < |forces| ==>
      r.xVel == s.xVel + forces[s.index.value].x && r.yVel == s.yVel + forces[s.index.value].y
    ensures !(s.index.Some? && s.index.value < |forces|) ==> r == s
  {
    match s.index
    case Some(i) => if i < |forces| then Accelerated(s, forces[i].x, forces[i].y) else s
    case None => s
  }

  function Kicked(ps: seq<PState>, forces: seq<Force>): (r: seq<PState>)
    ensures |r| == |ps| && forall k :: 0 <= k < |ps| ==> r[k] == Kick(ps[k], forces)
  {
    seq(|ps|, k requires 0 <= k < |ps| => Kick(ps[k], forces))
  }

  class GravityGrid {
    const width: nat
    const height: nat
    const cellSize: real
    const cellMass: array<real>
    const cellForces: array<Force>

    function Shape(): Dims
    {
      Dims(width, height, cellSize)
    }

    /** Both buffers hold one entry per cell. */
    ghost predicate Valid()
    {
      ValidDims(Shape()) && cellMass.Length == Cells(Shape()) && cellForces.Length == Cells(Shape())
    }

    /** `GravityGrid::new`: both buffers have one entry per cell, all zero. */
    constructor (gridWidth: nat, gridHeight: nat, cellSize: real)
      requires ValidDims(Dims(gridWidth, gridHeight, cellSize))
      ensures Valid() && Shape() == Dims(gridWidth, gridHeight, cellSize)
      ensures fresh(cellMass) && fresh(cellForces)
      ensures cellMass[..] == Zeros(gridWidth * gridHeight)
      ensures cellForces[..] == seq(gridWidth * gridHeight, _ => ZeroForce)
    {
      width, height := gridWidth, gridHeight;
      this.cellSize := cellSize;
      cellMass := new real[gridHeight * gridWidth](_ => 0.0);
      cellForces := new Force[gridHeight * gridWidth](_ => ZeroForce);
    }

    /** `get_index`: the particle's cell, recorded in its index when found; its position, velocity and mass are only read. */
    method GetIndex(particle: Particle) returns (index: Option<nat>)
      requires Valid()
      modifies particle
      ensures index == CellOf(Shape(), old(particle.xPos), old(particle.yPos))
      ensures particle.State() == Reindex(Shape(), old(particle.State()))
    {
      var xIndex := SaturatingU32((particle.xPos / cellSize).Floor);
      var yIndex := SaturatingU32((particle.yPos / cellSize).Floor);
      index := None;
      if xIndex < width && yIndex < height {
        index := Some(yIndex * width + xIndex);
        particle.index := index;
      }
    }

    /** `zero_mass`: every cell mass becomes zero, whatever it was (so a second call changes nothing); the forces are not touched. */
    method ZeroMass()
      requires Valid()
      modifies cellMass
      ensures cellMass[..] == Zeros(cellMass.Length)
    {
      for i := 0 to cellMass.Length
        invariant forall j :: 0 <= j < i ==> cellMass[j] == 0.0
      {
        cellMass[i] := 0.0;
      }
    }

    /** `compute_mass`: each particle on the grid adds its mass to its cell and records the cell in its index; nothing else changes. */
    method ComputeMass(particles: seq<Particle>)
      requires Valid() && Distinct(particles)
      modifies cellMass, set p | p in particles
      ensures cellMass[..] == Binned(Shape(), old(cellMass[..]), old(States(particles)))
      ensures States(particles) == Reindexed(Shape(), old(States(particles)))
    {
      ghost var m0 := cellMass[..];
      ghost var s0 := States(particles);
      for i := 0 to |particles|
        invariant cellMass[..] == Binned(Shape(), m0, s0[..i])
        invariant forall k :: 0 <= k < i ==> particles[k].State() == Reindex(Shape(), s0[k])
        invariant forall k :: i <= k < |particles| ==> particles[k].State() == s0[k]
      {
        BinParticle(particles[i]);
        assert s0[..i + 1][..i] == s0[..i];
      }
      assert s0[..|particles|] == s0;
    }

    /** One iteration of `compute_mass`: the particle's mass goes to the cell it is found in, if any. */
    method BinParticle(particle: Particle)
      requires Valid()
      modifies cellMass, particle
      ensures cellMass[..] == Deposit(Shape(), old(cellMass[..]), old(particle.State()))
      ensures particle.State() == Reindex(Shape(), old(particle.State()))
    {
      var cellIndex := GetIndex(particle);
      if cellIndex != None {
        var c := cellIndex.value;
        cellMass[c] := cellMass[c] + particle.mass;
      }
    }

    /**
     * The inner part of `compute_force` for cell (x1, y1): clamp the neighbour window and collect,
     * row by row, the pairs that pass the filter.
     */
    method CollectPermutations(x1: nat, y1: nat) returns (permutations: seq<Permutation>)
      requires Valid() && x1 < width && y1 < height
      ensures permutations == Permutations(Shape(), cellMass[..], x1, y1)
    {
      var xBoundLow, xBoundHigh, yBoundLow, yBoundHigh := ClampWindow(x1, y1);
      ghost var win := NeighbourWindow(Shape(), x1, y1);
      WindowMembers(Shape(), x1, y1, 0, 0);
      permutations := [];
      for y2 := yBoundLow to yBoundHigh
        invariant permutations == WindowPermutations(Shape(), cellMass[..], x1, y1, win, y2)
      {
        permutations := ScanRow(x1, y1, y2, xBoundLow, xBoundHigh, permutations);
      }
    }

    /** The bounds of the neighbour window of cell (x1, y1): RADIUS cells each way, clamped to the grid, the upper ones to the last cell. */
    method ClampWindow(x1: nat, y1: nat) returns (xBoundLow: int, xBoundHigh: int, yBoundLow: int, yBoundHigh: int)
      requires Valid() && x1 < width && y1 < height
      ensures Window(xBoundLow, xBoundHigh, yBoundLow, yBoundHigh) == NeighbourWindow(Shape(), x1, y1)
    {
      yBoundLow := y1 - RADIUS;
      yBoundHigh := y1 + RADIUS;
      xBoundLow := x1 - RADIUS;
      xBoundHigh := x1 + RADIUS;
      if yBoundLow < 0 {
        yBoundLow := 0;
      }
      if yBoundHigh > height - 1 {
        yBoundHigh := height - 1;
      }
      if xBoundLow < 0 {
        xBoundLow := 0;
      }
      if xBoundHigh > width - 1 {
        xBoundHigh := width - 1;
      }
    }

    /** The innermost loop of `compute_force`: scan row y2 of the window and push every pair that passes the filter. */
    method ScanRow(x1: nat, y1: nat, y2: nat, xLow: nat, xHigh: nat, permutations: seq<Permutation>)
      returns (extended: seq<Permutation>)
      requires Valid() && x1 < width && y1 < height && y2 < height && xLow <= xHigh <= width
      ensures extended == permutations + RowPermutations(Shape(), cellMass[..], x1, y1, y2, xLow, xHigh)
    {
      ghost var m := cellMass[..];
      IndexBelow(width, height, x1, y1);
      var index1 := y1 * width + x1;
      extended := permutations;
      for x2 := xLow to xHigh
        invariant extended == permutations + RowPermutations(Shape(), m, x1, y1, y2, xLow, x2)
      {
        IndexBelow(width, height, x2, y2);
        var index2 := y2 * width + x2;
        var mass1 := cellMass[index1];
        var mass2 := cellMass[index2];
        if mass1 != 0.0 && mass2 != 0.0 && index1 != index2 {
          extended := extended + [Permutation(x1, y1, mass1, x2, y2, mass2, cellSize)];
        }
      }
    }

    /** `compute_force`: every cell's force slot is overwritten with that cell's resultant force; the masses are only read. */
    method ComputeForce(law: GravityLaw)
      requires Valid()
      modifies cellForces
      ensures cellForces[..] == Forces(law, Shape(), cellMass[..])
    {
      for y1 := 0 to height
        invariant forall y, x :: 0 <= y < y1 && 0 <= x < width ==>
          Slot(width, x, y) < cellForces.Length && cellForces[Slot(width, x, y)] == CellForce(law, Shape(), cellMass[..], x, y)
      {
        SlotsBelow(width, y1);
        StoreRow(law, y1);
      }
      ForcesByCell(law, Shape(), cellMass[..], cellForces[..]);
    }

    /** The cells of row y1, in order, as `compute_force` visits them: their slots get their forces and the cells of every other row keep theirs. */
    method StoreRow(law: GravityLaw, y1: nat)
      requires Valid() && y1 < height
      modifies cellForces
      ensures forall x :: 0 <= x < width ==>
        Slot(width, x, y1) < cellForces.Length && cellForces[Slot(width, x, y1)] == CellForce(law, Shape(), cellMass[..], x, y1)
      ensures forall y, x :: 0 <= y < height && y != y1 && 0 <= x < width ==>
        Slot(width, x, y) < cellForces.Length && cellForces[Slot(width, x, y)] == old(cellForces[Slot(width, x, y)])
    {
      SlotsBelow(width, height);
      assert height * width == cellForces.Length;
      RowsApart(width, y1);
      for x1 := 0 to width
        invariant forall x :: 0 <= x < x1 ==> cellForces[Slot(width, x, y1)] == CellForce(law, Shape(), cellMass[..], x, y1)
        invariant forall y, x :: 0 <= y < height && y != y1 && 0 <= x < width ==>
          cellForces[Slot(width, x, y)] == old(cellForces[Slot(width, x, y)])
      {
        StoreCellForce(law, x1, y1);
      }
    }

    /** One iteration of `compute_force`: collect the pairs of cell (x1, y1) and store their summed force in its slot. */
    method StoreCellForce(law: GravityLaw, x1: nat, y1: nat)
      requires Valid() && x1 < width && y1 < height
      modifies cellForces
      ensures Slot(width, x1, y1) < cellForces.Length
      ensures cellForces[Slot(width, x1, y1)] == CellForce(law, Shape(), cellMass[..], x1, y1)
      ensures forall c :: 0 <= c < cellForces.Length && c != Slot(width, x1, y1) ==> cellForces[c] == old(cellForces[c])
    {
      var permutations := CollectPermutations(x1, y1);
      IndexBelow(width, height, x1, y1);
      var index1 := y1 * width + x1;
      if |permutations| == 0 {
        cellForces[index1] := ZeroForce;
      } else {
        cellForces[index1] := DivideAndConquer(law, permutations);
      }
    }

    /** `apply_force`: each particle whose index is set and inside the forces is pushed by that slot's force; the buffers are not modified. */
    method ApplyForce(particles: seq<Particle>)
      requires Valid() && Distinct(particles)
      modifies set p | p in particles
      ensures States(particles) == Kicked(old(States(particles)), cellForces[..])
    {
      ghost var s0 := States(particles);
      for i := 0 to |particles|
        invariant forall k :: 0 <= k < i ==> particles[k].State() == Kick(s0[k], cellForces[..])
        invariant forall k :: i <= k < |particles| ==> particles[k].State() == s0[k]
      {
        var particle := particles[i];
        if particle.index.Some? {
          var slot := particle.index.value;
          if slot < cellForces.Length {
            var force := cellForces[slot];
            particle.ApplyForce(force.x, force.y);
          }
        }
      }
    }
  }
}
