/**
 * A point mass of the simulation (src/particle.rs): position, velocity, mass and the
 * index of the grid cell it was last binned into. Floating point is modelled by `real`.
 */
module Particles {
  import opened Options

  /** The value of a particle's fields at one moment. */
  datatype PState = PState(xPos: real, yPos: real, xVel: real, yVel: real, mass: real, index: Option<nat>)

  /** The particle after `apply_force(fX, fY)`: the force is added to the velocity as it is, not divided by the mass. */
  function Accelerated(s: PState, fX: real, fY: real): (r: PState)
    ensures r.xPos == s.xPos && r.yPos == s.yPos && r.mass == s.mass && r.index == s.index
    ensures r.xVel - s.xVel == fX && r.yVel - s.yVel == fY
  {
    s.(xVel := s.xVel + fX, yVel := s.yVel + fY)
  }

  /** The particle after `update(dt)`: one explicit Euler step of the position. */
  function Moved(s: PState, dt: real): (r: PState)
    ensures r.xVel == s.xVel && r.yVel == s.yVel && r.mass == s.mass && r.index == s.index
    ensures r.xPos - s.xPos == dt * s.xVel && r.yPos - s.yPos == dt * s.yVel
  {
    s.(xPos := s.xPos + dt * s.xVel, yPos := s.yPos + dt * s.yVel)
  }

  /** Two impulses in a row are one impulse of their sum. */
  lemma AccelerateTwice(s: PState, f1X: real, f1Y: real, f2X: real, f2Y: real)
    ensures Accelerated(Accelerated(s, f1X, f1Y), f2X, f2Y) == Accelerated(s, f1X + f2X, f1Y + f2Y)
  {
  }

  /** A zero force leaves the particle as it was. */
  lemma AccelerateByZero(s: PState)
    ensures Accelerated(s, 0.0, 0.0) == s
  {
  }

  /** A step of length zero, or a particle at rest, does not move. */
  lemma MoveStill(s: PState, dt: real)
    requires dt == 0.0 || (s.xVel == 0.0 && s.yVel == 0.0)
    ensures Moved(s, dt) == s
  {
  }

  class Particle {
    var xPos: real
    var yPos: real
    var xVel: real
    var yVel: real
    var mass: real
    var index: Option<nat>

    function State(): PState
      reads this
    {
      PState(xPos, yPos, xVel, yVel, mass, index)
    }

    /** A particle at rest at (x, y), not yet in any cell. */
    constructor (x: real, y: real, mass: real)
      ensures State() == PState(x, y, 0.0, 0.0, mass, None)
    {
      xPos, yPos := x, y;
      xVel, yVel := 0.0, 0.0;
      this.mass := mass;
      index := None;
    }

    method ApplyForce(fX: real, fY: real)
      modifies this
      ensures State() == Accelerated(old(State()), fX, fY)
    {
      xVel := xVel + fX;
      yVel := yVel + fY;
    }

    method Update(dt: real)
      modifies this
      ensures State() == Moved(old(State()), dt)
    {
      xPos := xPos + dt * xVel;
      yPos := yPos + dt * yVel;
    }
  }

  /** The values of a list of particles, in order. */
  function States(ps: seq<Particle>): (r: seq<PState>)
    reads set p | p in ps
    ensures |r| == |ps|
    ensures forall k :: 0 <= k < |ps| ==> r[k] == ps[k].State()
  {
    seq(|ps|, k reads ps requires 0 <= k < |ps| => ps[k].State())
  }

  /** No particle occurs twice: a Rust `Vec<Particle>` owns each of its elements. */
  predicate Distinct(ps: seq<Particle>)
  {
    forall i, j :: 0 <= i < j < |ps| ==> ps[i] != ps[j]
  }
}
