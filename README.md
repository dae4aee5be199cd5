# Quasar particle engine, modelled in Dafny

Quasar simulates a swarm of point particles orbiting a fixed massive body at
(400, 300). The `Quasar` class owns a fixed-size array of particles and a
parallel array of display points. Each display point mirrors one particle's
position and holds its colour. This project models that class:

- **construction**: each particle is placed at the centre plus an integer
  jitter `rand() % 200 - 100` per axis. Its velocity is the radius vector
  turned a quarter turn and scaled by the spin speed 0.23. Every display
  point starts at its particle, in White.
- **copy construction and copy assignment**: both give value semantics.
  The copy gets fresh arrays with element-wise equal contents.
  Self-assignment is a no-op.
- **`update()`**: one in-place pass that advances each particle by one
  frame. The squared distance to the centre is softened from below at 200.
  The force is G·M/r² with G = 1000 and M = 250. The acceleration is the
  force times the vector to the centre divided by the root of the softened
  squared distance. The step is semi-implicit Euler with
  dt = 0.016: the velocity is updated first, then the position moves with
  the new velocity. Finally the display point is moved to the new position
  and coloured Red when the speed exceeds 50, otherwise White.

Layout:

- `physics.dfy`, module `Physics`: the value types (`Vec2`, `Particle`,
  `Vertex`, `Color`), the engine's constants, and the per-particle
  arithmetic as functions: jitter, seeding, softened distance, force,
  acceleration, one step and colour. It also holds the lemmas about them.
  `StepAll` is the frame as a function on the particle sequence. It is the
  specification that `Update` is proved against.
- `engine.dfy`, module `Engine`: the class `Quasar`, with fields `size`,
  `particles: array<Particle>` and `vertices: array<Vertex>`. Its
  invariant `Valid()` says that both arrays hold `size` entries and that
  each display point sits at its particle's position, in the colour its
  particle's speed gives. It has the seeding
  constructor, the copy constructor `Copy`, the copy assignment `Assign`
  and `Update`. All of them fill or update the arrays index by index in
  loops, as the source does.

Modelling choices:

- Coordinates are `real`. The `float` literals 0.016 and 0.23 are taken as
  the exact decimals.
- `rand()` is a caller-supplied sequence of non-negative draws. The
  constructor uses them two per particle, x first and then y, in the same
  order as the engine's calls.
- The library square root is a function parameter `sqrt`. The only thing
  assumed about it is `IsSqrt`: on non-negative arguments it gives the
  non-negative root.
- The speed test `sqrt(vx² + vy²) > 50` is written as
  `vx² + vy² > 2500`. `ColorIsSpeedThreshold` proves the two tests agree.
- The element count is a `nat`. The source takes an `int` and does not
  check it; a negative count fails in the array allocation.

Behaviour of the code worth knowing:

- A count of 0 is accepted; there is no error path anywhere in the engine.
- The time step is 0.016.
- The step is semi-implicit Euler: the position moves with the updated
  velocity.
- Seeded coordinates reach 499 and 399, never 500 or 400.

The comment at quasar_project/main.cpp:43 names the perpendicular vector
(-dy, dx), but the code assigns (dy, -dx). The model follows the code. Both
vectors are perpendicular to the radius.

The comment at quasar_project/main.cpp:124 says the direction is
normalised, but the code divides the vector to the centre by the root of
the softened squared distance. Outside the softening radius that gives the
unit vector. Inside it (dx² + dy² < 200) the code divides by sqrt(200), not
by the true length. The resulting vector is shorter than a unit vector, and
so the pull there has size f·|d|/sqrt(200), below f. The model follows the
code; `AccelMagnitude` states the exact size.

## Model

| member | source | states |
|---|---|---|
| Physics.Jitter | quasar_project/main.cpp:33-34 | the jitter of a non-negative draw is an integer in [-100, 99] (the upper end is 99, not 100) and lies in the draw's residue class mod 200 |
| Physics.JitterCoversSquare | quasar_project/main.cpp:33-34 | every jitter value in [-100, 99] is produced by some draw |
| Physics.Seed | quasar_project/main.cpp:33-37 | a seeded position lies in [300, 499] × [200, 399] |
| Physics.SeedIsWhole | quasar_project/main.cpp:33-37 | seeded coordinates are whole numbers, whatever the draws |
| Physics.SeedCoversGrid | quasar_project/main.cpp:33-37 | every whole-numbered point of [300, 499] × [200, 399] is the seed of some pair of draws |
| Physics.SeedSpin | quasar_project/main.cpp:40-47 | the seeded velocity is exactly (0.23·dy, −0.23·dx) for the radius vector (dx, dy); it is perpendicular to the radius (dot product 0); it is zero exactly when the particle sits at the centre; its squared size is 0.23² times the squared distance |
| Physics.SeedIsCold | quasar_project/main.cpp:40-50 | a seeded velocity has squared size at most 1058, below the hot threshold 2500, so the White given at seeding is also the colour its speed gives |
| Physics.SoftenedR2 | quasar_project/main.cpp:109-118 | the squared distance used for the force is never below 200, is never below the true squared distance, is either 200 or the true squared distance, and is the true squared distance whenever that is at least 200; together: exactly max(dx² + dy², 200) |
| Physics.Force | quasar_project/main.cpp:99-122 | the force G·M/r² is positive, is at most 1250 on softened input, and times r² gives G·M = 250000 |
| Physics.Accel | quasar_project/main.cpp:109-127 | the acceleration: force times d/sqrt(r2), with d the vector to the centre and r2 the softened squared distance; this is the unit vector only outside the softening radius; its properties are stated by AccelTowardCentre, AccelZeroIffAtCentre and AccelMagnitude |
| Physics.AccelTowardCentre | quasar_project/main.cpp:109-127 | the acceleration is a positive multiple of (centre − position), so it always points at (400, 300) |
| Physics.AccelZeroIffAtCentre | quasar_project/main.cpp:109-127 | the acceleration is zero if and only if the particle sits exactly at the centre |
| Physics.AccelMagnitude | quasar_project/main.cpp:113-127 | exactly |a|²·r2 = f²·|d|², so the pull inside the softening radius is f·|d|/sqrt(200); the acceleration's squared size is at most the squared force, equals it outside the softening radius, and never exceeds 1250² |
| Physics.Step | quasar_project/main.cpp:109-134 | one semi-implicit Euler step of one particle; its order and result are stated by SemiImplicitOrder and CentreIsFixedPoint |
| Physics.SemiImplicitOrder | quasar_project/main.cpp:129-134 | one step gives v' = v + a·dt and then p' = p + v'·dt, so p' = p + v·dt + a·dt²; this equals the forward-Euler position p + v·dt only at the centre |
| Physics.SeedAtCentre | quasar_project/main.cpp:33-47 | whenever both draws are 100 modulo 200 (100 and 100, for instance), the particle is seeded at rest exactly at the centre |
| Physics.CentreIsFixedPoint | quasar_project/main.cpp:109-134 | a step leaves a particle at rest at the centre exactly where and as it is: zero pull, zero velocity |
| Physics.ColorOf | quasar_project/main.cpp:141-144 | the colour of a velocity by its squared speed; its agreement with the speed test is stated by ColorIsSpeedThreshold |
| Physics.ColorIsSpeedThreshold | quasar_project/main.cpp:141-144 | the colour is Red if and only if sqrt(vx² + vy²) > 50; a speed of exactly 50 gives White |
| Physics.StepAll | quasar_project/main.cpp:106-135 | a frame keeps the number of particles |
| Physics.StepAllAt | quasar_project/main.cpp:106-135 | particle k after a frame is the step of particle k before it and of nothing else |
| Physics.StepAllSplit | quasar_project/main.cpp:106-135 | stepping a sequence in two chunks gives the same frame as stepping it whole |
| Physics.StepAllPermute | quasar_project/main.cpp:106-135 | reindexing the particles (a permutation in particular) before a frame reindexes the result the same way, so the update order does not matter |
| Engine.Quasar.constructor | quasar_project/main.cpp:26-51 | fresh arrays of `count` entries; particle i is seeded from draws 2i (x) and 2i+1 (y); display point i holds particle i's position in White, which is also the colour of its speed, so the invariant holds |
| Engine.Quasar.Copy | quasar_project/main.cpp:62-72 | the copy has the same size and fresh arrays whose particles and display points equal the original's element by element |
| Engine.Quasar.Assign | quasar_project/main.cpp:74-93 | assigning another object gives its size and fresh, element-wise equal arrays; assigning an object to itself changes nothing; the invariant holds afterwards |
| Engine.Quasar.Update | quasar_project/main.cpp:95-146 | the size and the arrays stay the same; particle i becomes the step of old particle i; display point i moves to the new position and is Red exactly when sqrt of the new squared speed exceeds 50; the whole array equals `StepAll` of its old contents; the invariant is kept |
| Engine.Duplicate | quasar_project/main.cpp:67-71 | fresh arrays equal to the given ones element by element, filled in one index loop |
| Engine.UpdateCopy | quasar_project/main.cpp:62-72 | a frame on a copy yields `StepAll` of the original's particles and leaves the original's size, particles and display points unchanged |

## Left out

- `draw`, the SFML window, event polling, `display()` and `main`
  (quasar_project/main.cpp:147-180): rendering and I/O over a library that
  is not part of this model.
- The destructor's `delete[]` and the two `std::cout` messages
  (quasar_project/main.cpp:53, 56-60): memory management and console
  output, with no behaviour to state under garbage collection.
- The `int r, g, b` fields of `Particle`: the code never sets or reads them.
- The vertex array's primitive type (`Points`): a rendering setting.
- Single-precision rounding, NaN and infinity: all arithmetic is over
  `real`.
- The real `rand()` generator and its seeding: the draws are an input.
- `std::sqrt`: it is a parameter constrained by `IsSqrt`, not a definition.
- The reference that `operator=` returns: only its effect on the object is
  modelled.
- Long-run orbit boundedness and energy behaviour: the code neither checks
  nor promises them.
