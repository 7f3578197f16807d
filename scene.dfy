/**
 * The interactive scene: the list of wires with the selected one, the test
 * particle with its trail, and the pointer-drag state. The commands of the
 * scene (add, remove, pick, drag, set a current, launch, advance a frame)
 * are the methods of Simulation; together they keep the selection
 * invariant: nothing is selected exactly when there are no wires, and
 * otherwise the selection is the index of a wire.
 */
module Scene {
  import opened Field
  import opened Particles

  datatype Option<T> = None | Some(value: T)

  /** The pointer picks a wire within 0.2 of it: squared distance below 0.2^2. */
  const PickRadiusSquared: real := 0.04

  /** The selection invariant. */
  predicate SelectionValid(ws: seq<Wire>, sel: Option<nat>)
  {
    (sel == None <==> ws == []) && (sel.Some? ==> sel.value < |ws|)
  }

  /** Whether a pointer at (px, py) is close enough to pick the wire w. */
  predicate Picks(w: Wire, px: real, py: real)
  {
    (px - w.x) * (px - w.x) + (py - w.y) * (py - w.y) < PickRadiusSquared
  }

  /** The wire a pointer at (px, py) picks: the one with the highest index among those in reach. */
  function TopPick(ws: seq<Wire>, px: real, py: real): Option<nat>
    decreases |ws|
  {
    if ws == [] then None
    else if Picks(ws[|ws| - 1], px, py) then Some(|ws| - 1)
    else TopPick(ws[..|ws| - 1], px, py)
  }

  /**
   * TopPick finds a wire exactly when one is in reach, and then the one
   * with the highest index: every wire after it is out of reach.
   */
  lemma {:induction false} TopPickCharacterized(ws: seq<Wire>, px: real, py: real)
    ensures TopPick(ws, px, py).None? <==> forall j :: 0 <= j < |ws| ==> !Picks(ws[j], px, py)
    ensures TopPick(ws, px, py).Some? ==>
              var i := TopPick(ws, px, py).value;
              i < |ws| && Picks(ws[i], px, py) &&
              forall j :: i < j < |ws| ==> !Picks(ws[j], px, py)
    decreases |ws|
  {
    if ws != [] && !Picks(ws[|ws| - 1], px, py) {
      var front := ws[..|ws| - 1];
      TopPickCharacterized(front, px, py);
      assert forall j :: 0 <= j < |front| ==> front[j] == ws[j];
    }
  }

  /** The hit test of a pointer press: scans the wires from the highest index down. */
  method HitTest(ws: seq<Wire>, px: real, py: real) returns (hit: Option<nat>)
    ensures hit == TopPick(ws, px, py)
  {
    var i := |ws|;
    assert ws[..i] == ws;
    while i > 0
      invariant 0 <= i <= |ws|
      invariant TopPick(ws, px, py) == TopPick(ws[..i], px, py)
    {
      i := i - 1;
      assert ws[..i + 1][..i] == ws[..i];
      if Picks(ws[i], px, py) {
        return Some(i);
      }
    }
    return None;
  }

  class Simulation {
    var wires: seq<Wire>
    var selected: Option<nat>
    var particle: Particle
    var trail: seq<Vec>
    /** Whether a wire is being dragged, and the pointer's offset from it when it was picked. */
    var dragging: bool
    var offset: Vec

    ghost predicate Valid()
      reads this
    {
      SelectionValid(wires, selected) && Coherent(Flight(particle, trail))
    }

    /** The starting scene: one wire of 10 A at the origin, selected; an inactive proton at (-10, 0) moving at (0, 15000). */
    constructor ()
      ensures Valid()
      ensures wires == [Wire(0.0, 0.0, 10.0)] && selected == Some(0)
      ensures particle == Particle(ProtonMass, ElementaryCharge, AxialSpeed, Vec(-10.0, 0.0), Vec(0.0, 15000.0), false, Proton)
      ensures trail == [] && !dragging && offset == Vec(0.0, 0.0)
    {
      wires := [Wire(0.0, 0.0, 10.0)];
      selected := Some(0);
      particle := Particle(ProtonMass, ElementaryCharge, AxialSpeed, Vec(-10.0, 0.0), Vec(0.0, 15000.0), false, Proton);
      trail := [];
      dragging := false;
      offset := Vec(0.0, 0.0);
    }

    /** One integration step of the particle in the field of the current wires. */
    method StepParticle(dt: real)
      requires Valid()
      modifies this
      ensures Valid()
      ensures Flight(particle, trail) == Step(old(Flight(particle, trail)), wires, dt)
      ensures wires == old(wires) && selected == old(selected)
      ensures dragging == old(dragging) && offset == old(offset)
    {
      StepCoherent(Flight(particle, trail), wires, dt);
      if !particle.active {
        return;
      }
      var b := FieldAt(wires, particle.pos);
      var vel := NextVelocity(particle, b, dt);
      var pos := NextPosition(particle, vel, dt);
      if Outside(pos) {
        particle := particle.(active := false);
        trail := [];
        return;
      }
      particle := particle.(vel := vel, pos := pos);
      trail := Push(trail, pos);
    }

    /** One animation frame: Substeps integration steps of length Dt. */
    method Animate()
      requires Valid()
      modifies this
      ensures Valid()
      ensures Flight(particle, trail) == Steps(old(Flight(particle, trail)), wires, Dt, Substeps)
      ensures wires == old(wires) && selected == old(selected)
      ensures dragging == old(dragging) && offset == old(offset)
    {
      ghost var f0 := Flight(particle, trail);
      for k := 0 to Substeps
        invariant Valid()
        invariant Flight(particle, trail) == Steps(f0, wires, Dt, k)
        invariant wires == old(wires) && selected == old(selected)
        invariant dragging == old(dragging) && offset == old(offset)
      {
        StepsAdd(f0, wires, Dt, k, 1);
        StepParticle(Dt);
      }
    }

    /** Adds a wire at (x, y) with the given current and selects it. */
    method AddWire(x: real, y: real, current: real)
      requires Valid()
      modifies this
      ensures Valid()
      ensures wires == old(wires) + [Wire(x, y, current)]
      ensures selected == Some(|wires| - 1)
      ensures particle == old(particle) && trail == old(trail)
      ensures dragging == old(dragging) && offset == old(offset)
    {
      wires := wires + [Wire(x, y, current)];
      selected := Some(|wires| - 1);
    }

    /**
     * Removes the selected wire, then selects the last remaining one, or
     * nothing when none remains. Without wires it does nothing.
     */
    method RemoveWire()
      requires Valid()
      modifies this
      ensures Valid()
      ensures old(wires) == [] ==> wires == old(wires) && selected == old(selected)
      ensures old(wires) != [] ==>
                var k := old(selected).value;
                wires == old(wires)[..k] + old(wires)[k + 1..] &&
                selected == if wires == [] then None else Some(|wires| - 1)
      ensures particle == old(particle) && trail == old(trail)
      ensures dragging == old(dragging) && offset == old(offset)
    {
      if wires == [] {
        return;
      }
      var k := selected.value;
      wires := wires[..k] + wires[k + 1..];
      if |wires| == 0 {
        selected := None;
      } else {
        selected := Some(|wires| - 1);
      }
    }

    /**
     * A pointer press at (px, py): if a wire is in reach, the one with the
     * highest index is selected and dragging starts, remembering the pointer's
     * offset from it; otherwise nothing changes.
     */
    method Press(px: real, py: real)
      requires Valid()
      modifies this
      ensures Valid()
      ensures TopPick(old(wires), px, py).None? ==>
                selected == old(selected) && dragging == old(dragging) && offset == old(offset)
      ensures TopPick(old(wires), px, py).Some? ==>
                var i := TopPick(old(wires), px, py).value;
                i < |wires| && selected == Some(i) && dragging &&
                offset == Vec(px - wires[i].x, py - wires[i].y)
      ensures wires == old(wires) && particle == old(particle) && trail == old(trail)
    {
      var hit := HitTest(wires, px, py);
      TopPickCharacterized(wires, px, py);
      if hit.Some? {
        var w := wires[hit.value];
        dragging := true;
        selected := hit;
        offset := Vec(px - w.x, py - w.y);
      }
    }

    /** A pointer release ends any drag. */
    method Release()
      requires Valid()
      modifies this
      ensures Valid() && !dragging
      ensures wires == old(wires) && selected == old(selected) && offset == old(offset)
      ensures particle == old(particle) && trail == old(trail)
    {
      dragging := false;
    }

    /**
     * A pointer move to (px, py) while dragging a selected wire puts that wire
     * at the pointer position minus the offset; its current is kept.
     */
    method Motion(px: real, py: real)
      requires Valid()
      modifies this
      ensures Valid()
      ensures !(old(dragging) && old(selected).Some?) ==> wires == old(wires)
      ensures old(dragging) && old(selected).Some? ==>
                var i := old(selected).value;
                i < |old(wires)| &&
                wires == old(wires)[i := Wire(px - offset.x, py - offset.y, old(wires)[i].current)]
      ensures selected == old(selected) && dragging == old(dragging) && offset == old(offset)
      ensures particle == old(particle) && trail == old(trail)
    {
      if dragging && selected.Some? {
        var i := selected.value;
        wires := wires[i := Wire(px - offset.x, py - offset.y, wires[i].current)];
      }
    }

    /**
     * A valid number entered for the current: it becomes the selected wire's
     * current. Without a selection nothing changes and ok is false.
     */
    method SetCurrent(value: real) returns (ok: bool)
      requires Valid()
      modifies this
      ensures Valid()
      ensures ok == old(selected).Some?
      ensures !ok ==> wires == old(wires)
      ensures ok ==>
                var i := old(selected).value;
                i < |old(wires)| && wires == old(wires)[i := old(wires)[i].(current := value)]
      ensures selected == old(selected) && dragging == old(dragging) && offset == old(offset)
      ensures particle == old(particle) && trail == old(trail)
    {
      ok := selected.Some?;
      if ok {
        var i := selected.value;
        wires := wires[i := wires[i].(current := value)];
      }
    }

    /**
     * Launches a particle of the given kind from (-10, y0) with velocity
     * (20000, 0): the trail is emptied and the particle is switched on; the
     * axial speed is kept.
     */
    method Launch(kind: Kind, y0: real)
      requires Valid()
      requires -3.0 <= y0 <= 3.0
      modifies this
      ensures Valid()
      ensures trail == [] && particle.active
      ensures particle.pos == Vec(-10.0, y0) && particle.vel == Vec(20000.0, 0.0)
      ensures particle.kind == kind && particle.vz == old(particle).vz
      ensures kind == Proton ==> particle.mass == ProtonMass && particle.charge == ElementaryCharge
      ensures kind == Electron ==> particle.mass == ElectronMass && particle.charge == -ElementaryCharge
      ensures wires == old(wires) && selected == old(selected)
      ensures dragging == old(dragging) && offset == old(offset)
    {
      trail := [];
      particle := particle.(active := true, pos := Vec(-10.0, y0), vel := Vec(20000.0, 0.0));
      if kind == Proton {
        particle := particle.(kind := Proton, mass := ProtonMass, charge := ElementaryCharge);
      } else {
        particle := particle.(kind := Electron, mass := ElectronMass, charge := -ElementaryCharge);
      }
    }
  }
}
