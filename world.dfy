/**
 * The world (src/world.rs): the particles and the gravity grids they move in. One
 * `update` runs every grid in turn over all particles (zero the masses, bin the
 * particles, compute the cell forces, push the particles) and then moves every
 * particle one time step.
 */
module Simulation {
  import opened Options
  import opened Particles
  import opened Binning
  import opened Interaction
  import opened Grids

  /** What one grid leaves behind after its pass of `update`: its two buffers and the particles. */
  datatype GridPass = GridPass(masses: seq<real>, forces: seq<Force>, particles: seq<PState>)

  /** One grid's pass over particles s: zero and bin the masses, compute the forces, push the particles. */
  function RunGrid(law: GravityLaw, d: Dims, s: seq<PState>): (r: GridPass)
    requires ValidDims(d)
    ensures |r.masses| == Cells(d) && |r.forces| == Cells(d) && |r.particles| == |s|
    ensures forall k :: 0 <= k < |s| ==>
      r.particles[k].xPos == s[k].xPos && r.particles[k].yPos == s[k].yPos && r.particles[k].mass == s[k].mass
  {
    var masses := Binned(d, Zeros(Cells(d)), s);
    var forces := Forces(law, d, masses);
    GridPass(masses, forces, Kicked(Reindexed(d, s), forces))
  }

  /** The particles after the passes of the grids with shapes ds, in order. */
  function AfterGrids(law: GravityLaw, ds: seq<Dims>, s: seq<PState>): (r: seq<PState>)
    requires forall i :: 0 <= i < |ds| ==> ValidDims(ds[i])
    ensures |r| == |s|
  {
    if |ds| == 0 then s else RunGrid(law, ds[|ds| - 1], AfterGrids(law, ds[..|ds| - 1], s)).particles
  }

  /** Adding grid i to the first i grids lets its pass act on the particles. */
  lemma NextGrid(law: GravityLaw, ds: seq<Dims>, s: seq<PState>, i: nat)
    requires forall i :: 0 <= i < |ds| ==> ValidDims(ds[i])
    requires i < |ds|
    ensures AfterGrids(law, ds[..i + 1], s) == RunGrid(law, ds[i], AfterGrids(law, ds[..i], s)).particles
  {
    assert ds[..i + 1][..i] == ds[..i];
  }

  /** Every particle moved one time step dt. */
  function Integrated(s: seq<PState>, dt: real): (r: seq<PState>)
    ensures |r| == |s| && forall k :: 0 <= k < |s| ==> r[k] == Moved(s[k], dt)
  {
    seq(|s|, k requires 0 <= k < |s| => Moved(s[k], dt))
  }

  /** The particles after one `update`: all grid passes, then one time step. */
  function Tick(law: GravityLaw, ds: seq<Dims>, s: seq<PState>, dt: real): seq<PState>
    requires forall i :: 0 <= i < |ds| ==> ValidDims(ds[i])
  {
    Integrated(AfterGrids(law, ds, s), dt)
  }

  /** The shapes of the grids, in order. */
  function Shapes(ggs: seq<GravityGrid>): (r: seq<Dims>)
    ensures |r| == |ggs| && forall j :: 0 <= j < |ggs| ==> r[j] == ggs[j].Shape()
  {
    seq(|ggs|, j requires 0 <= j < |ggs| => ggs[j].Shape())
  }

  /** The grid passes change velocities and indices only: positions and masses stay as they were at the start of the frame. */
  lemma {:induction false} GridsKeepPositions(law: GravityLaw, ds: seq<Dims>, s: seq<PState>)
    requires forall i :: 0 <= i < |ds| ==> ValidDims(ds[i])
    ensures forall k :: 0 <= k < |s| ==>
      AfterGrids(law, ds, s)[k].xPos == s[k].xPos && AfterGrids(law, ds, s)[k].yPos == s[k].yPos &&
      AfterGrids(law, ds, s)[k].mass == s[k].mass
  {
    if |ds| > 0 {
      GridsKeepPositions(law, ds[..|ds| - 1], s);
    }
  }

  /** Every grid bins the particles where they were at the start of the frame, whatever the grids before it did. */
  lemma GridsBinStartPositions(law: GravityLaw, ds: seq<Dims>, s: seq<PState>, j: nat)
    requires forall i :: 0 <= i < |ds| ==> ValidDims(ds[i])
    requires j < |ds|
    ensures RunGrid(law, ds[j], AfterGrids(law, ds[..j], s)).masses == Binned(ds[j], Zeros(Cells(ds[j])), s)
  {
    var before := AfterGrids(law, ds[..j], s);
    GridsKeepPositions(law, ds[..j], s);
    BinnedReadsPositions(ds[j], Zeros(Cells(ds[j])), before, s);
  }

  /**
   * Within one `update` each particle moves exactly once, from where it was at the start of the frame,
   * by dt times the velocity all the grid passes together left it with.
   */
  lemma TickMovesOnce(law: GravityLaw, ds: seq<Dims>, s: seq<PState>, dt: real, k: nat)
    requires forall i :: 0 <= i < |ds| ==> ValidDims(ds[i])
    requires k < |s|
    ensures var v := AfterGrids(law, ds, s)[k];
      Tick(law, ds, s, dt)[k] == Moved(v, dt) && v.xPos == s[k].xPos && v.yPos == s[k].yPos && v.mass == s[k].mass
  {
    GridsKeepPositions(law, ds, s);
  }

  /** With every particle inside the grid, the masses of a grid's pass add up to the particles' total mass. */
  lemma GridMassConservation(law: GravityLaw, d: Dims, s: seq<PState>)
    requires ValidDims(d)
    requires forall k :: 0 <= k < |s| ==> CellOf(d, s[k].xPos, s[k].yPos).Some?
    ensures Sum(RunGrid(law, d, s).masses) == TotalMass(s)
  {
    MassConservation(d, s);
  }

  /** A particle found in cell c of a grid is pushed by exactly that cell's force in the grid's pass. */
  lemma PushedByOwnCell(law: GravityLaw, d: Dims, s: seq<PState>, k: nat, c: nat)
    requires ValidDims(d) && k < |s|
    requires CellOf(d, s[k].xPos, s[k].yPos) == Some(c)
    ensures c < |RunGrid(law, d, s).forces|
    ensures RunGrid(law, d, s).particles[k].index == Some(c)
    ensures RunGrid(law, d, s).particles[k].xVel == s[k].xVel + RunGrid(law, d, s).forces[c].x
    ensures RunGrid(law, d, s).particles[k].yVel == s[k].yVel + RunGrid(law, d, s).forces[c].y
  {
  }

  /**
   * A particle outside a grid keeps the index some earlier binning gave it, and when that index
   * is a cell of this grid it is pushed by that cell's force all the same.
   */
  lemma StaleIndexPush(law: GravityLaw, d: Dims, s: seq<PState>, k: nat, c: nat)
    requires ValidDims(d) && k < |s|
    requires CellOf(d, s[k].xPos, s[k].yPos) == None && s[k].index == Some(c) && c < Cells(d)
    ensures RunGrid(law, d, s).particles[k].index == Some(c)
    ensures RunGrid(law, d, s).particles[k].xVel == s[k].xVel + RunGrid(law, d, s).forces[c].x
    ensures RunGrid(law, d, s).particles[k].yVel == s[k].yVel + RunGrid(law, d, s).forces[c].y
  {
  }

  /**
   * A particle outside a grid whose old index is past the end of this grid's buffers is not pushed:
   * the force lookup finds nothing.
   */
  lemma StaleIndexBeyondNotPushed(law: GravityLaw, d: Dims, s: seq<PState>, k: nat, c: nat)
    requires ValidDims(d) && k < |s|
    requires CellOf(d, s[k].xPos, s[k].yPos) == None && s[k].index == Some(c) && c >= Cells(d)
    ensures RunGrid(law, d, s).particles[k] == s[k]
  {
  }

  /** A particle that was never binned and is outside the grid is not pushed. */
  lemma UnbinnedNotPushed(law: GravityLaw, d: Dims, s: seq<PState>, k: nat)
    requires ValidDims(d) && k < |s|
    requires CellOf(d, s[k].xPos, s[k].yPos) == None && s[k].index == None
    ensures RunGrid(law, d, s).particles[k] == s[k]
  {
  }

  /** Without grids a tick only moves the particles. */
  lemma TickWithoutGrids(law: GravityLaw, s: seq<PState>, dt: real)
    ensures Tick(law, [], s, dt) == Integrated(s, dt)
  {
  }

  /** Grid g's buffers hold the masses and forces of pass p. */
  ghost predicate Holds(g: GravityGrid, p: GridPass)
    reads g.cellMass, g.cellForces
  {
    g.cellMass[..] == p.masses && g.cellForces[..] == p.forces
  }

  /** One iteration of the grid loop of `update`: zero the grid's masses, bin the particles, compute the forces, push the particles. */
  method RunPass(gg: GravityGrid, particles: seq<Particle>, law: GravityLaw)
    requires gg.Valid() && Distinct(particles)
    modifies gg.cellMass, gg.cellForces, set p | p in particles
    ensures States(particles) == RunGrid(law, gg.Shape(), old(States(particles))).particles
    ensures Holds(gg, RunGrid(law, gg.Shape(), old(States(particles))))
  {
    BinPass(gg, particles);
    gg.ComputeForce(law);
    gg.ApplyForce(particles);
  }

  /** The first half of a grid's pass: zero the masses, then bin the particles into them. */
  method BinPass(gg: GravityGrid, particles: seq<Particle>)
    requires gg.Valid() && Distinct(particles)
    modifies gg.cellMass, set p | p in particles
    ensures gg.cellMass[..] == Binned(gg.Shape(), Zeros(Cells(gg.Shape())), old(States(particles)))
    ensures States(particles) == Reindexed(gg.Shape(), old(States(particles)))
  {
    gg.ZeroMass();
    gg.ComputeMass(particles);
  }

  /** The last loop of `update`: every particle, in order, moves one time step dt. */
  method Integrate(particles: seq<Particle>, dt: real)
    requires Distinct(particles)
    modifies set p | p in particles
    ensures States(particles) == Integrated(old(States(particles)), dt)
  {
    ghost var s0 := States(particles);
    for k := 0 to |particles|
      invariant forall n :: 0 <= n < k ==> particles[n].State() == Moved(s0[n], dt)
      invariant forall n :: k <= n < |particles| ==> particles[n].State() == s0[n]
    {
      particles[k].Update(dt);
    }
  }

  class World {
    var ggs: seq<GravityGrid>
    var particles: seq<Particle>

    /** Each grid is well formed and owns its own buffers; each particle occurs once. */
    ghost predicate Valid()
      reads this
    {
      (forall j :: 0 <= j < |ggs| ==> ggs[j].Valid()) &&
      (forall i, j :: 0 <= i < j < |ggs| ==> ggs[i].cellMass != ggs[j].cellMass && ggs[i].cellForces != ggs[j].cellForces) &&
      Distinct(particles)
    }

    /** `World::new`: the given particles and no grid yet. */
    constructor (particles: seq<Particle>)
      requires Distinct(particles)
      ensures Valid() && this.particles == particles && ggs == []
    {
      ggs := [];
      this.particles := particles;
    }

    /**
     * `update`: the grids run their passes in order over the particles, and then every particle
     * moves one step dt.
     */
    method Update(dt: real, law: GravityLaw)
      requires Valid()
      modifies set p | p in particles, set g | g in ggs :: g.cellMass, set g | g in ggs :: g.cellForces
      ensures States(particles) == Tick(law, Shapes(ggs), old(States(particles)), dt)
    {
      RunGrids(law);
      Integrate(particles, dt);
    }

    /** The grid loop of `update`: each grid in turn runs its pass over the particles as the grids before it left them. */
    method RunGrids(law: GravityLaw)
      requires Valid()
      modifies set p | p in particles, set g | g in ggs :: g.cellMass, set g | g in ggs :: g.cellForces
      ensures States(particles) == AfterGrids(law, Shapes(ggs), old(States(particles)))
    {
      ghost var s0 := States(particles);
      ghost var ds := Shapes(ggs);
      for i := 0 to |ggs|
        invariant States(particles) == AfterGrids(law, ds[..i], s0)
      {
        StepGrid(law, i, ds, s0);
      }
      assert ds[..|ggs|] == ds;
    }

    /** Iteration i of the grid loop: grid i's pass takes the particles from after i grids to after i + 1. */
    method StepGrid(law: GravityLaw, i: nat, ghost ds: seq<Dims>, ghost s0: seq<PState>)
      requires Valid() && i < |ggs| && ds == Shapes(ggs)
      requires States(particles) == AfterGrids(law, ds[..i], s0)
      modifies (set p | p in particles), ggs[i].cellMass, ggs[i].cellForces
      ensures States(particles) == AfterGrids(law, ds[..i + 1], s0)
      ensures Holds(ggs[i], RunGrid(law, ds[i], AfterGrids(law, ds[..i], s0)))
    {
      NextGrid(law, ds, s0, i);
      RunPass(ggs[i], particles, law);
    }
  }
}
