/**
 * The test particle of the field scene and one integration step of its
 * motion. The particle moves in the plane with a fixed axial speed vz; the
 * planar field of the wires couples to vz only (Fx = -q vz By, Fy = q vz Bx),
 * and the planar state advances by one forward-Euler step. A particle that
 * would leave the square |x| <= 50, |y| <= 50 is switched off instead and its
 * trail is emptied. The trail keeps at most the 1000 newest positions.
 */
module Particles {
  import opened Field

  /** Proton rest mass in kg (CODATA 2018). */
  const ProtonMass: real := 1.67262192369e-27

  /** Electron rest mass in kg (CODATA 2018). */
  const ElectronMass: real := 9.1093837015e-31

  /** Elementary charge in C (exact since 2019). */
  const ElementaryCharge: real := 1.602176634e-19

  /** The axial speed the particle is created with, in m/s. */
  const AxialSpeed: real := 50000.0

  /** Half the side of the square outside which a particle is switched off. */
  const HalfExtent: real := 50.0

  /** How many positions the trail keeps. */
  const Capacity: nat := 1000

  /** The integration step in seconds, and how many steps make one frame. */
  const Dt: real := 0.0000001
  const Substeps: nat := 50

  datatype Kind = Proton | Electron

  /**
   * The particle record: mass, charge, axial speed, planar position and
   * velocity, whether it is flying, and its species.
   */
  datatype Particle = Particle(mass: real, charge: real, vz: real, pos: Vec, vel: Vec, active: bool, kind: Kind)

  /** The particle together with the positions it has recently visited, oldest first. */
  datatype Flight = Flight(particle: Particle, trail: seq<Vec>)

  function Abs(x: real): real
  {
    if x < 0.0 then -x else x
  }

  /** The step's exit test: a coordinate beyond the half-extent. */
  predicate Outside(q: Vec)
  {
    Abs(q.x) > HalfExtent || Abs(q.y) > HalfExtent
  }

  /**
   * Appends a position to a trail that keeps only its Capacity newest
   * entries: a full trail loses its oldest entry.
   */
  function Push(trail: seq<Vec>, q: Vec): (r: seq<Vec>)
    ensures |r| == if |trail| < Capacity then |trail| + 1 else Capacity
    ensures r[|r| - 1] == q
    ensures |trail| < Capacity ==> r == trail + [q]
    ensures |trail| == Capacity ==> r == trail[1..] + [q]
  {
    var t := trail + [q];
    if |t| <= Capacity then t else t[|t| - Capacity..]
  }

  /** The planar force of the axial motion through the planar field b. */
  function Force(p: Particle, b: Vec): Vec
  {
    Vec(p.charge * (-p.vz * b.y), p.charge * (p.vz * b.x))
  }

  /** The Euler-updated velocity: vel + (F / m) dt. */
  function NextVelocity(p: Particle, b: Vec, dt: real): Vec
    requires p.mass != 0.0
  {
    var f := Force(p, b);
    Vec(p.vel.x + f.x / p.mass * dt, p.vel.y + f.y / p.mass * dt)
  }

  /** The Euler-updated position, moved with the new velocity: pos + vel' dt. */
  function NextPosition(p: Particle, vel: Vec, dt: real): Vec
  {
    Vec(p.pos.x + vel.x * dt, p.pos.y + vel.y * dt)
  }

  /**
   * One step of the particle in the field b at its position: nothing while
   * it is off; otherwise one Euler step, or switching off when that step
   * would leave the square.
   */
  function Advance(f: Flight, b: Vec, dt: real): Flight
    requires f.particle.mass != 0.0
  {
    var p := f.particle;
    if !p.active then f
    else
      var vel := NextVelocity(p, b, dt);
      var pos := NextPosition(p, vel, dt);
      if Outside(pos) then Flight(p.(active := false), [])
      else Flight(p.(vel := vel, pos := pos), Push(f.trail, pos))
  }

  /**
   * One step of the particle under the field of the wires ws (the
   * specification of Scene.Simulation.StepParticle).
   */
  function Step(f: Flight, ws: seq<Wire>, dt: real): Flight
    requires f.particle.mass != 0.0
  {
    Advance(f, FieldOf(ws, f.particle.pos), dt)
  }

  /** n steps in a row (the specification of Scene.Simulation.Animate). */
  function Steps(f: Flight, ws: seq<Wire>, dt: real, n: nat): Flight
    requires f.particle.mass != 0.0
    decreases n
  {
    if n == 0 then f
    else
      StepKeepsMass(f, ws, dt);
      Steps(Step(f, ws, dt), ws, dt, n - 1)
  }

  /** A step never changes what the particle is: mass, charge, axial speed, species. */
  lemma StepKeepsMass(f: Flight, ws: seq<Wire>, dt: real)
    requires f.particle.mass != 0.0
    ensures var p, p' := f.particle, Step(f, ws, dt).particle;
            p'.mass == p.mass && p'.charge == p.charge && p'.vz == p.vz && p'.kind == p.kind
  {
  }

  /** The force is perpendicular to the field that causes it. */
  lemma ForcePerpendicular(p: Particle, b: Vec)
    ensures var g := Force(p, b); g.x * b.x + g.y * b.y == 0.0
  {
    var g := Force(p, b);
    assert g.x * b.x == -(p.charge * p.vz * b.x * b.y);
    assert g.y * b.y == p.charge * p.vz * b.x * b.y;
  }

  /** Stepping an inactive particle changes neither the particle nor its trail. */
  lemma StepInactive(f: Flight, ws: seq<Wire>, dt: real)
    requires f.particle.mass != 0.0 && !f.particle.active
    ensures Step(f, ws, dt) == f
  {
  }

  /** Any number of steps leaves an inactive particle and its trail as they were. */
  lemma {:induction false} StepsInactive(f: Flight, ws: seq<Wire>, dt: real, n: nat)
    requires f.particle.mass != 0.0 && !f.particle.active
    ensures Steps(f, ws, dt, n) == f
    decreases n
  {
    if n > 0 {
      StepInactive(f, ws, dt);
      StepsInactive(f, ws, dt, n - 1);
    }
  }

  /** Doing m steps and then n more is doing m + n steps. */
  lemma {:induction false} StepsAdd(f: Flight, ws: seq<Wire>, dt: real, m: nat, n: nat)
    requires f.particle.mass != 0.0
    ensures Steps(f, ws, dt, m).particle.mass == f.particle.mass
    ensures Steps(Steps(f, ws, dt, m), ws, dt, n) == Steps(f, ws, dt, m + n)
    decreases m
  {
    if m > 0 {
      StepKeepsMass(f, ws, dt);
      StepsAdd(Step(f, ws, dt), ws, dt, m - 1, n);
    }
  }

  /** Deactivation is sticky: once a particle is off, later steps never revive it. */
  lemma DeactivationSticky(f: Flight, ws: seq<Wire>, dt: real, m: nat, n: nat)
    requires f.particle.mass != 0.0 && !Steps(f, ws, dt, m).particle.active
    ensures !Steps(f, ws, dt, m + n).particle.active
  {
    StepsAdd(f, ws, dt, m, n);
    StepsInactive(Steps(f, ws, dt, m), ws, dt, n);
  }

  /**
   * A step whose Euler position leaves the square switches the particle off
   * and empties the trail; position and velocity keep their old values.
   */
  lemma StepLeaving(f: Flight, b: Vec, dt: real)
    requires f.particle.mass != 0.0 && f.particle.active
    requires var p := f.particle; Outside(NextPosition(p, NextVelocity(p, b, dt), dt))
    ensures var r := Advance(f, b, dt);
            !r.particle.active && r.trail == [] &&
            r.particle == f.particle.(active := false)
  {
  }

  /**
   * A step that stays in the square moves the particle by forward Euler,
   * vel' = vel + (F / m) dt and pos' = pos + vel' dt, and appends pos' as the
   * newest trail entry.
   */
  lemma StepInside(f: Flight, b: Vec, dt: real)
    requires f.particle.mass != 0.0 && f.particle.active
    requires var p := f.particle; !Outside(NextPosition(p, NextVelocity(p, b, dt), dt))
    ensures var p, r := f.particle, Advance(f, b, dt);
            var g := Force(p, b);
            var vel := Vec(p.vel.x + g.x / p.mass * dt, p.vel.y + g.y / p.mass * dt);
            var pos := Vec(p.pos.x + vel.x * dt, p.pos.y + vel.y * dt);
            r.particle == p.(vel := vel, pos := pos) && r.particle.active &&
            r.trail == Push(f.trail, pos) && r.trail[|r.trail| - 1] == pos
  {
    var p := f.particle;
    var vel := NextVelocity(p, b, dt);
    var pos := NextPosition(p, vel, dt);
    assert Advance(f, b, dt) == Flight(p.(vel := vel, pos := pos), Push(f.trail, pos));
  }

  /** With no wires there is no force: the particle keeps its velocity and moves in a straight line. */
  lemma StepWithoutWires(f: Flight, dt: real)
    requires f.particle.mass != 0.0 && f.particle.active
    requires var p := f.particle; !Outside(Vec(p.pos.x + p.vel.x * dt, p.pos.y + p.vel.y * dt))
    ensures var p, r := f.particle, Step(f, [], dt).particle;
            r.vel == p.vel && r.pos == Vec(p.pos.x + p.vel.x * dt, p.pos.y + p.vel.y * dt)
  {
    var p := f.particle;
    FieldOfEmpty(p.pos);
    var g := Force(p, Zero);
    assert g.x == 0.0 && g.y == 0.0;
    assert NextVelocity(p, Zero, dt) == p.vel;
  }

  /**
   * What every reachable flight satisfies: a positive mass, a position in
   * the square, a trail within capacity whose points lie in the square, an
   * empty trail while the particle is off, and the particle at the newest
   * trail entry.
   */
  predicate Coherent(f: Flight)
  {
    f.particle.mass > 0.0 && !Outside(f.particle.pos) &&
    |f.trail| <= Capacity &&
    (forall i :: 0 <= i < |f.trail| ==> !Outside(f.trail[i])) &&
    (!f.particle.active ==> f.trail == []) &&
    (f.trail != [] ==> f.trail[|f.trail| - 1] == f.particle.pos)
  }

  /** A step keeps a flight coherent; in particular the trail never exceeds its capacity. */
  lemma StepCoherent(f: Flight, ws: seq<Wire>, dt: real)
    requires Coherent(f)
    ensures Coherent(Step(f, ws, dt))
  {
    var p := f.particle;
    if p.active {
      var vel := NextVelocity(p, FieldOf(ws, p.pos), dt);
      var pos := NextPosition(p, vel, dt);
      if !Outside(pos) {
        var t := Push(f.trail, pos);
        forall i | 0 <= i < |t|
          ensures !Outside(t[i])
        {
          if |f.trail| < Capacity {
            assert t == f.trail + [pos];
          } else {
            assert t == f.trail[1..] + [pos];
          }
        }
      }
    }
  }

  /** Any number of steps keeps a flight coherent. */
  lemma {:induction false} StepsCoherent(f: Flight, ws: seq<Wire>, dt: real, n: nat)
    requires Coherent(f)
    ensures Coherent(Steps(f, ws, dt, n))
    decreases n
  {
    if n > 0 {
      StepCoherent(f, ws, dt);
      StepsCoherent(Step(f, ws, dt), ws, dt, n - 1);
    }
  }
}
