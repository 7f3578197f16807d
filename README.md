# Magnetic field of straight wires and a test particle — a Dafny model

This project models the simulation engine of `simulacao_campo_magnetico.py`.
The scene holds a list of infinite straight wires, each crossing the plane at
a point `(x, y)` and carrying a signed current. The field at a point is the
superposition of one Biot–Savart contribution per wire. A wire that sits
exactly on the query point is skipped. A test particle (a proton or an
electron) moves in the plane with a fixed axial speed `vz`. The planar field
couples only to `vz` (`Fx = -q vz By`, `Fy = q vz Bx`), and the planar state
advances by forward Euler. A particle that would leave the square
`|x|, |y| <= 50` is switched off and its trail is emptied. The trail keeps the
1000 newest positions. Pointer and button commands edit the wire list and the
selected wire, and a launch command resets the particle.

Files:

- `field.dfy` (module `Field`): wires, the contribution of one wire, the
  superposed field `FieldOf` as a specification, and the accumulating loop
  `FieldAt` proved against it. It also has the grid fill `FieldGrid` and the
  lemmas about the field.
- `particle.dfy` (module `Particles`): the particle record, the bounded trail
  (`Push`), one step (`Advance`, `Step`), `n` steps (`Steps`), and the lemmas
  about stepping.
- `scene.dfy` (module `Scene`): the class `Simulation`. Its fields are the
  wire list, the selection, the particle, the trail and the drag state. Each
  UI callback is one method. The hit test `HitTest` is a loop proved against
  `TopPick`.

Arithmetic is over Dafny's `real`, so the source's square root disappears.
The contribution `B (-ry/R, rx/R)` with `B = mu0 I / (2 pi R)` is written
`mu0 I / (2 pi) / R2 * (-ry, rx)`. `Field.SqrtFormAgrees` proves the two forms
equal for every positive root `R` of `R2`. The physical constants are the
CODATA 2018 values as real literals. No proof depends on their digits, but
several depend on their signs: the circulation direction
(`Field.ContributionCounterClockwise`) needs `mu0` and `pi` positive, and the
scene invariant kept by the constructor and `Launch` needs both particle
masses positive.

## Model

| member | source | states |
|---|---|---|
| Field.FieldAt | simulacao_campo_magnetico.py:9-22 | the accumulating loop returns exactly the superposed field `FieldOf` of all wires at the point |
| Field.FieldGrid | simulacao_campo_magnetico.py:61-66 | every cell of the two fresh grids holds the components of the field at that cell's grid point |
| Field.FieldOfEmpty | simulacao_campo_magnetico.py:11-22 | with no wires the field is (0, 0) everywhere |
| Field.FieldOfAppend | simulacao_campo_magnetico.py:12-21 | superposition: the field of `ws + [w]` is the field of `ws` plus the contribution of `w` |
| Field.FieldOfConcat | simulacao_campo_magnetico.py:12-21 | superposition: the field of two groups of wires is the sum of their fields |
| Field.CoincidentWireIgnored | simulacao_campo_magnetico.py:15-17 | a wire at zero squared distance contributes (0, 0), and the field equals the field of the other wires |
| Field.SkipExactlyAtWire | simulacao_campo_magnetico.py:13-17 | the squared distance is never negative, and it is 0 exactly when the query point is the wire's point |
| Field.ContributionPerpendicular | simulacao_campo_magnetico.py:19-21 | each contribution is perpendicular to the displacement from its wire (`Bx rx + By ry = 0`) |
| Field.ContributionCirculation | simulacao_campo_magnetico.py:19-21 | off the wire, the cross product of displacement and contribution equals `mu0 I / (2 pi)` |
| Field.ContributionCounterClockwise | simulacao_campo_magnetico.py:19-21 | positive current turns the field counter-clockwise from the displacement, negative current clockwise |
| Field.ContributionMagnitude | simulacao_campo_magnetico.py:18-19 | off the wire, `|B|^2 R^2 = (mu0 I / (2 pi))^2`, so the magnitude is `mu0 |I| / (2 pi R)` |
| Field.SqrtFormAgrees | simulacao_campo_magnetico.py:18-21 | for any `R > 0` with `R^2 = R2`, the sqrt-free contribution equals `B (-ry/R, rx/R)` with `B = mu0 I / (2 pi R)` |
| Field.ContributionOdd | simulacao_campo_magnetico.py:19-21 | negating a wire's current negates its contribution |
| Field.FieldOfReversed | simulacao_campo_magnetico.py:12-21 | negating every current negates the total field |
| Field.SingleWireExample | simulacao_campo_magnetico.py:24 | the initial wire (10 A at the origin) gives the field `(0, mu0 10 / (2 pi))` at `(1, 0)` |
| Particles.Push | simulacao_campo_magnetico.py:37 | appending to the bounded trail: the new point is the newest entry, the length stays at most 1000, and a full trail loses its oldest entry |
| Particles.ForcePerpendicular | simulacao_campo_magnetico.py:90-91 | the planar force is perpendicular to the planar field |
| Particles.StepKeepsMass | simulacao_campo_magnetico.py:81-102 | a step never changes mass, charge, axial speed or species |
| Particles.StepInactive | simulacao_campo_magnetico.py:82-83 | stepping an inactive particle changes neither the particle nor the trail |
| Particles.StepsInactive | simulacao_campo_magnetico.py:110-112 | any number of steps leaves an inactive particle and its trail unchanged |
| Particles.StepsAdd | simulacao_campo_magnetico.py:110-112 | `m` steps followed by `n` steps are `m + n` steps |
| Particles.DeactivationSticky | simulacao_campo_magnetico.py:97 | once a particle is off after `m` steps, it is still off after `m + n` steps |
| Particles.StepLeaving | simulacao_campo_magnetico.py:94-99 | if the Euler position has a coordinate beyond 50, the particle is switched off, the trail becomes empty, and position and velocity keep their old values |
| Particles.StepInside | simulacao_campo_magnetico.py:90-102 | otherwise `vel' = vel + (F/m) dt` and `pos' = pos + vel' dt` are stored, and `pos'` is appended as the newest trail entry |
| Particles.StepWithoutWires | simulacao_campo_magnetico.py:86-95 | with no wires the velocity is kept and the particle moves in a straight line |
| Particles.StepCoherent | simulacao_campo_magnetico.py:81-102 | a step keeps a flight coherent: position and trail points in the square, trail at most 1000 long, empty while off, newest entry equal to the position |
| Particles.StepsCoherent | simulacao_campo_magnetico.py:110-112 | any number of steps keeps a flight coherent |
| Scene.TopPickCharacterized | simulacao_campo_magnetico.py:140-145 | the pick is none exactly when no wire is within squared distance 0.04; otherwise it is a wire in reach and every wire with a higher index is out of reach |
| Scene.HitTest | simulacao_campo_magnetico.py:140-145 | the descending scan returns exactly `TopPick` |
| Scene.Simulation.constructor | simulacao_campo_magnetico.py:24-37 | the initial scene: one 10 A wire at the origin, selected; an inactive proton at (-10, 0) with velocity (0, 15000) and vz 50000; an empty trail; no drag |
| Scene.Simulation.StepParticle | simulacao_campo_magnetico.py:81-102 | the new particle and trail are `Step` of the old ones under the current wires; the wires and the selection are unchanged; the invariant is kept |
| Scene.Simulation.Animate | simulacao_campo_magnetico.py:110-112 | one frame is `Steps` with 50 steps of `1e-7` s; the wires and the selection are unchanged |
| Scene.Simulation.AddWire | simulacao_campo_magnetico.py:174-184 | the list grows by exactly the new wire, which becomes the selection |
| Scene.Simulation.RemoveWire | simulacao_campo_magnetico.py:186-197 | with no wires nothing changes; otherwise exactly the selected wire is removed, and the last wire is selected, or nothing when the list is now empty |
| Scene.Simulation.Press | simulacao_campo_magnetico.py:136-151 | if a wire is in reach, the highest-indexed one is selected, dragging starts and the pointer offset is recorded; otherwise selection, drag and offset are unchanged |
| Scene.Simulation.Release | simulacao_campo_magnetico.py:153-155 | the drag ends and nothing else changes |
| Scene.Simulation.Motion | simulacao_campo_magnetico.py:157-162 | while dragging a selected wire, that wire moves to the pointer minus the offset and keeps its current; otherwise the wires are unchanged |
| Scene.Simulation.SetCurrent | simulacao_campo_magnetico.py:164-172 | a valid value becomes the selected wire's current and changes nothing else; without a selection nothing changes |
| Scene.Simulation.Launch | simulacao_campo_magnetico.py:199-211 | the trail is emptied and the particle is switched on at (-10, y0) with velocity (20000, 0), with the mass and charge of its kind, keeping vz |

Every method of `Scene.Simulation` keeps `Valid()`. `Valid()` is the
selection invariant (no selection exactly when the list is empty, otherwise
a valid index) together with `Particles.Coherent` for the particle and its
trail.

## Left out

- All rendering and widget work: the quiver plot, the wire markers and their colours, the `mag` colour values, the particle and trail plot handles, the text box display (`set_val`), figure and axes setup, event wiring and the animation driver.
- The `event.inaxes` checks in `on_press` and `on_motion`. They only route events, so each method assumes the event is inside the plot axes.
- `random.uniform` and `random.choice` in `add_fio` and `lancar` become parameters. `AddWire` takes any position and current, where the button draws them from [-10, 10] and {10, -10}. `Launch` requires `-3 <= y0 <= 3`, the range the button draws from.
- The parsing of the text box with `float(text)` and its `ValueError` branch. `SetCurrent` receives the parsed value. With no wire selected, the source's `lista_de_fios[None]` raises a `TypeError` in the callback; the model changes nothing and returns `ok = false`.
- IEEE double rounding and `np.sqrt`. All arithmetic is exact over the reals. The test `R2 == 0` therefore holds only at the wire itself, whereas in floating point it can also hold for underflowing distances. `0.2**2` is taken as exactly `0.04`; in doubles it is `0.04000000000000001`.
- The text box's `set_val` in `on_press`, `add_fio` and `rem_fio` runs the submit callback again with the displayed value. That rewrites the selected wire's current with the value it already holds. After `rem_fio` empties the list, it reaches `lista_de_fios[None]`, which raises in the callback. Neither leaves a change in the modelled state, so the model has no such re-entry.
- `scipy.constants` becomes real literals with the CODATA 2018 values. A different SciPy release may carry other digits; no proof depends on them.
- `Field.FieldGrid` loops over the two dimensions of the grid array. The source loops over `len(x_grid)` and `len(y_grid)`, which are equal (20 by 20).
- Particle mass and charge are fields of the particle record, as in the source. The invariant requires a positive mass, which every state the source reaches has. This keeps `F / m` defined.
- `simulacao_movimento_helicoidal.py` (the closed-form helix plot) is not part of this model. It is a plotting script over floating-point trigonometry.
