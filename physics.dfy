/** The per-particle arithmetic of the Quasar engine: the records it works on,
    the seeding of one particle from two random draws, the softened
    inverse-square pull toward the fixed centre, one semi-implicit Euler step
    and the two-bucket speed colour. Coordinates are real numbers; the
    engine's single-precision floats are not modelled. */
module Physics {

  /** A 2-D vector, used for positions and velocities. */
  datatype Vec2 = Vec2(x: real, y: real)

  /** The two colours the engine ever paints a point with. */
  datatype Color = White | Red

  /** A particle: its position and its velocity (mass is implicitly 1). */
  datatype Particle = Particle(position: Vec2, velocity: Vec2)

  /** A display point: the position drawn and its colour. */
  datatype Vertex = Vertex(position: Vec2, color: Color)

  // The constants hard-coded in the engine.
  const CentreX: real := 400.0
  const CentreY: real := 300.0
  const Centre: Vec2 := Vec2(CentreX, CentreY)
  const SpinSpeed: real := 0.23
  const G: real := 1000.0
  const MassBH: real := 250.0
  const Dt: real := 0.016
  /** The softening floor on the squared distance. */
  const MinR2: real := 200.0
  /** The hot-speed threshold 50, squared. */
  const HotSpeed2: real := 2500.0

  function Add(a: Vec2, b: Vec2): Vec2 { Vec2(a.x + b.x, a.y + b.y) }
  function Sub(a: Vec2, b: Vec2): Vec2 { Vec2(a.x - b.x, a.y - b.y) }
  function Scale(k: real, a: Vec2): Vec2 { Vec2(k * a.x, k * a.y) }
  function Dot(a: Vec2, b: Vec2): real { a.x * b.x + a.y * b.y }
  function Norm2(a: Vec2): real { Dot(a, a) }

  /** `sqrt` behaves as the non-negative square root on non-negative reals,
      which is all the engine needs of the library square root. */
  ghost predicate IsSqrt(sqrt: real -> real) {
    forall t :: t >= 0.0 ==> sqrt(t) >= 0.0 && sqrt(t) * sqrt(t) == t
  }

  // ---------------------------------------------------------------------
  // Seeding

  /** The jitter `rand() % 200 - 100` of one non-negative random draw: an
      integer in [-100, 99] whose offset by 100 is the draw's residue mod 200. */
  function Jitter(draw: nat): (j: int)
    ensures -100 <= j <= 99
    ensures (draw - (j + 100)) % 200 == 0
  {
    draw % 200 - 100
  }

  /** A particle seeded from the draws for its x and its y: placed at the
      centre plus the two jitters, with the radius vector turned by a quarter
      turn and scaled by the spin speed as its velocity. */
  function Seed(drawX: nat, drawY: nat): (p: Particle)
    ensures 300.0 <= p.position.x <= 499.0 && 200.0 <= p.position.y <= 399.0
  {
    var x := CentreX + Jitter(drawX) as real;
    var y := CentreY + Jitter(drawY) as real;
    var dx := x - CentreX;
    var dy := y - CentreY;
    Particle(Vec2(x, y), Vec2(dy * SpinSpeed, -dx * SpinSpeed))
  }

  /** Every value of the jitter square is reached by some draw. */
  lemma JitterCoversSquare(j: int)
    requires -100 <= j <= 99
    ensures Jitter((j + 100) as nat) == j
  {
  }

  /** Seeded coordinates are whole numbers. */
  lemma SeedIsWhole(drawX: nat, drawY: nat)
    ensures var p := Seed(drawX, drawY);
            p.position.x.Floor as real == p.position.x &&
            p.position.y.Floor as real == p.position.y
  {
    var p := Seed(drawX, drawY);
    assert p.position.x == (400 + Jitter(drawX)) as real;
    assert p.position.y == (300 + Jitter(drawY)) as real;
  }

  /** Every whole-numbered point of the square [300, 499] x [200, 399] is the
      seed of some pair of draws. */
  lemma SeedCoversGrid(gx: int, gy: int)
    requires 300 <= gx <= 499 && 200 <= gy <= 399
    ensures Seed((gx - 300) as nat, (gy - 200) as nat).position == Vec2(gx as real, gy as real)
  {
    assert Jitter((gx - 300) as nat) == gx - 400;
    assert Jitter((gy - 200) as nat) == gy - 300;
  }

  /** A number no larger than `b` in size has a square no larger than b^2. */
  lemma SquareAtMost(a: real, b: real)
    requires -b <= a <= b
    ensures a * a <= b * b
  {
    if a >= 0.0 {
      assert a * a <= b * a <= b * b;
    } else {
      assert a * a <= -b * a <= b * b;
    }
  }

  /** Seeded velocities are below the hot threshold: |v|^2 is at most
      0.23^2 * (100^2 + 100^2) = 1058, so every seeded particle would be
      coloured White by its speed as well. */
  lemma SeedIsCold(drawX: nat, drawY: nat)
    ensures Norm2(Seed(drawX, drawY).velocity) <= 1058.0
    ensures ColorOf(Seed(drawX, drawY).velocity) == White
  {
    var p := Seed(drawX, drawY);
    var d := Sub(p.position, Centre);
    SeedSpin(drawX, drawY);
    var jx := Jitter(drawX) as real;
    var jy := Jitter(drawY) as real;
    assert d == Vec2(jx, jy);
    assert -100.0 <= jx <= 99.0 && -100.0 <= jy <= 99.0;
    SquareAtMost(jx, 100.0);
    SquareAtMost(jy, 100.0);
    assert Norm2(d) <= 20000.0;
  }

  /** The seeded velocity is exactly the spin speed times (dy, -dx), where
      (dx, dy) is the radius vector: it is perpendicular to that vector, zero
      only at the centre, and its size grows linearly with the distance. */
  lemma SeedSpin(drawX: nat, drawY: nat)
    ensures var p := Seed(drawX, drawY);
            var d := Sub(p.position, Centre);
            p.velocity == Vec2(SpinSpeed * d.y, -SpinSpeed * d.x) &&
            Dot(p.velocity, d) == 0.0 &&
            (p.velocity == Vec2(0.0, 0.0) <==> p.position == Centre) &&
            Norm2(p.velocity) == SpinSpeed * SpinSpeed * Norm2(d)
  {
  }

  // ---------------------------------------------------------------------
  // One integration step

  /** The squared distance to the centre, clamped from below at the
      softening floor. */
  function SoftenedR2(pos: Vec2): (r2: real)
    ensures r2 >= MinR2
    ensures r2 >= Norm2(Sub(Centre, pos))
    ensures Norm2(Sub(Centre, pos)) >= MinR2 ==> r2 == Norm2(Sub(Centre, pos))
    ensures r2 == MinR2 || r2 == Norm2(Sub(Centre, pos))
  {
    var d := Sub(Centre, pos);
    var r2 := d.x * d.x + d.y * d.y;
    if r2 < MinR2 then MinR2 else r2
  }

  /** The inverse-square force G * M / r2; positive and, thanks to the floor,
      never above 1250. */
  function Force(r2: real): (f: real)
    requires r2 >= MinR2
    ensures 0.0 < f <= 1250.0
    ensures f * r2 == G * MassBH
  {
    (G * MassBH) / r2
  }

  /** The acceleration of a particle at `pos`: the force times d / sqrt(r2),
      with d the vector to the centre and r2 the softened squared distance.
      Outside the softening radius d / sqrt(r2) is the unit vector toward the
      centre; inside it is shorter, |d| / sqrt(200). */
  function Accel(pos: Vec2, sqrt: real -> real): (a: Vec2)
    requires IsSqrt(sqrt)
  {
    var d := Sub(Centre, pos);
    var r2 := SoftenedR2(pos);
    var f := Force(r2);
    var r := sqrt(r2);
    assert r > 0.0;
    Vec2((d.x / r) * f, (d.y / r) * f)
  }

  /** One semi-implicit Euler step: the velocity takes the acceleration
      first, then the position moves with the new velocity. */
  function Step(p: Particle, sqrt: real -> real): Particle
    requires IsSqrt(sqrt)
  {
    var a := Accel(p.position, sqrt);
    var v := Vec2(p.velocity.x + a.x * Dt, p.velocity.y + a.y * Dt);
    Particle(Vec2(p.position.x + v.x * Dt, p.position.y + v.y * Dt), v)
  }

  /** The colour for a velocity: Red when the squared speed is strictly above
      2500, White otherwise. */
  function ColorOf(v: Vec2): Color {
    if v.x * v.x + v.y * v.y > HotSpeed2 then Red else White
  }

  /** The display point mirroring a particle. */
  function Mirror(p: Particle): Vertex {
    Vertex(p.position, ColorOf(p.velocity))
  }

  // ---------------------------------------------------------------------
  // Properties of the step

  /** The acceleration is a positive multiple of the vector to the centre:
      it always points at (400, 300). */
  lemma AccelTowardCentre(pos: Vec2, sqrt: real -> real)
    requires IsSqrt(sqrt)
    ensures exists k: real :: k > 0.0 && Accel(pos, sqrt) == Scale(k, Sub(Centre, pos))
  {
    var r2 := SoftenedR2(pos);
    var r := sqrt(r2);
    var f := Force(r2);
    assert r > 0.0;
    var k := f / r;
    var d := Sub(Centre, pos);
    assert (d.x / r) * f == k * d.x;
    assert (d.y / r) * f == k * d.y;
    assert Accel(pos, sqrt) == Scale(k, d);
  }

  /** The acceleration vanishes exactly at the centre. */
  lemma AccelZeroIffAtCentre(pos: Vec2, sqrt: real -> real)
    requires IsSqrt(sqrt)
    ensures Accel(pos, sqrt) == Vec2(0.0, 0.0) <==> pos == Centre
  {
    AccelTowardCentre(pos, sqrt);
    var k: real :| k > 0.0 && Accel(pos, sqrt) == Scale(k, Sub(Centre, pos));
    var d := Sub(Centre, pos);
    assert k * d.x == 0.0 <==> d.x == 0.0;
    assert k * d.y == 0.0 <==> d.y == 0.0;
  }

  /** The magnitude of the acceleration: |a|^2 * r2 == f^2 * |d|^2 exactly,
      so it is at most the force, equal to it outside the softening radius,
      f * |d| / sqrt(200) inside it, and never above 1250. */
  lemma AccelMagnitude(pos: Vec2, sqrt: real -> real)
    requires IsSqrt(sqrt)
    ensures var f := Force(SoftenedR2(pos));
            Norm2(Accel(pos, sqrt)) * SoftenedR2(pos) == f * f * Norm2(Sub(Centre, pos))
    ensures var f := Force(SoftenedR2(pos));
            Norm2(Accel(pos, sqrt)) <= f * f &&
            (Norm2(Sub(Centre, pos)) >= MinR2 ==> Norm2(Accel(pos, sqrt)) == f * f) &&
            Norm2(Accel(pos, sqrt)) <= 1250.0 * 1250.0
  {
    var r2 := SoftenedR2(pos);
    var r := sqrt(r2);
    var f := Force(r2);
    var d := Sub(Centre, pos);
    assert r > 0.0 && r * r == r2;
    assert Accel(pos, sqrt) == Vec2((d.x / r) * f, (d.y / r) * f);
    ScaledSize(d, r, r2, f);
    SquareAtMost(f, 1250.0);
  }

  /** The arithmetic behind AccelMagnitude: scaling d by f / r, with r the
      positive root of r2 >= |d|^2, gives a vector whose squared size times
      r2 is f^2 * |d|^2; hence it is at most f^2, and exactly f^2 when
      |d|^2 == r2. */
  lemma ScaledSize(d: Vec2, r: real, r2: real, f: real)
    requires r > 0.0 && r * r == r2 && Norm2(d) <= r2
    ensures var a := Vec2((d.x / r) * f, (d.y / r) * f);
            Norm2(a) * r2 == f * f * Norm2(d) &&
            Norm2(a) <= f * f &&
            (Norm2(d) == r2 ==> Norm2(a) == f * f)
  {
    var k := f / r;
    assert k * r == f;
    var a := Vec2((d.x / r) * f, (d.y / r) * f);
    assert a == Scale(k, d);
    ScaledNorm(k, d);
    ScaledBound(k, r, Norm2(d));
    ScaledNormTimesR2(Norm2(a), k, r, Norm2(d));
  }

  /** Scaling a vector by k scales its squared size by k^2. */
  lemma ScaledNorm(k: real, d: Vec2)
    ensures Norm2(Scale(k, d)) == k * k * Norm2(d)
  {
    var sc := Scale(k, d);
    assert sc.x * sc.x == k * k * (d.x * d.x);
    assert sc.y * sc.y == k * k * (d.y * d.y);
  }

  /** If a == k^2 * n then a * r^2 == (k * r)^2 * n. */
  lemma ScaledNormTimesR2(a: real, k: real, r: real, n: real)
    requires a == k * k * n
    ensures a * (r * r) == (k * r) * (k * r) * n
  {
    assert (k * r) * (k * r) == (k * k) * (r * r);
  }

  /** Scaling by f / r, with r the root of r2, turns a squared size n <= r2
      into at most f^2, and exactly f^2 when n == r2. */
  lemma ScaledBound(k: real, r: real, n: real)
    requires r > 0.0 && 0.0 <= n <= r * r
    ensures k * k * n <= (k * r) * (k * r)
    ensures n == r * r ==> k * k * n == (k * r) * (k * r)
  {
    assert (k * r) * (k * r) == k * k * (r * r);
    assert k * k >= 0.0;
    assert k * k * n <= k * k * (r * r);
  }

  /** The semi-implicit order: the velocity takes the acceleration first and
      the position then moves with the NEW velocity, so the new position is
      p + v*dt + a*dt^2, which differs from the forward-Euler p + v*dt
      everywhere but the centre. */
  lemma SemiImplicitOrder(p: Particle, sqrt: real -> real)
    requires IsSqrt(sqrt)
    ensures var a := Accel(p.position, sqrt);
            Step(p, sqrt).velocity == Add(p.velocity, Scale(Dt, a))
    ensures Step(p, sqrt).position == Add(p.position, Scale(Dt, Step(p, sqrt).velocity))
    ensures var a := Accel(p.position, sqrt);
            Step(p, sqrt).position ==
              Add(Add(p.position, Scale(Dt, p.velocity)), Scale(Dt * Dt, a))
    ensures Step(p, sqrt).position == Add(p.position, Scale(Dt, p.velocity))
            <==> p.position == Centre
  {
    var a := Accel(p.position, sqrt);
    var q := Step(p, sqrt);
    var v := Add(p.velocity, Scale(Dt, a));
    assert q.velocity == v;
    assert q.position == Vec2(p.position.x + Dt * v.x, p.position.y + Dt * v.y);
    assert Dt * v.x == Dt * p.velocity.x + Dt * Dt * a.x;
    assert Dt * v.y == Dt * p.velocity.y + Dt * Dt * a.y;
    AccelZeroIffAtCentre(p.position, sqrt);
  }

  /** Whenever both draws are 100 modulo 200 (for instance 100 and 100),
      the particle is seeded at rest exactly at the centre. */
  lemma SeedAtCentre(drawX: nat, drawY: nat)
    requires drawX % 200 == 100 && drawY % 200 == 100
    ensures Seed(drawX, drawY) == Particle(Centre, Vec2(0.0, 0.0))
  {
  }

  /** A particle resting exactly at the centre stays there: the pull is zero
      and so is its velocity, so not every particle moves in a frame. */
  lemma CentreIsFixedPoint(sqrt: real -> real)
    requires IsSqrt(sqrt)
    ensures Step(Particle(Centre, Vec2(0.0, 0.0)), sqrt) == Particle(Centre, Vec2(0.0, 0.0))
  {
  }

  /** The colour matches the engine's test on the speed itself: Red exactly
      when sqrt(vx^2 + vy^2) > 50, so a speed of exactly 50 is White. */
  lemma ColorIsSpeedThreshold(v: Vec2, sqrt: real -> real)
    requires IsSqrt(sqrt)
    ensures ColorOf(v) == Red <==> sqrt(Norm2(v)) > 50.0
    ensures sqrt(Norm2(v)) == 50.0 ==> ColorOf(v) == White
  {
    var s := sqrt(Norm2(v));
    assert Norm2(v) >= 0.0;
    assert s >= 0.0 && s * s == Norm2(v);
    if s > 50.0 {
      assert s * s > 50.0 * s;
    } else {
      assert s * s <= 50.0 * s;
    }
  }

  // ---------------------------------------------------------------------
  // A whole frame, as a function of the particle sequence

  /** One step of every particle, each from its own state only. */
  function StepAll(ps: seq<Particle>, sqrt: real -> real): (qs: seq<Particle>)
    requires IsSqrt(sqrt)
    ensures |qs| == |ps|
  {
    if ps == [] then [] else [Step(ps[0], sqrt)] + StepAll(ps[1..], sqrt)
  }

  /** Particle k after the frame depends on particle k before it alone. */
  lemma {:induction false} StepAllAt(ps: seq<Particle>, sqrt: real -> real, k: nat)
    requires IsSqrt(sqrt)
    requires k < |ps|
    ensures |StepAll(ps, sqrt)| == |ps|
    ensures StepAll(ps, sqrt)[k] == Step(ps[k], sqrt)
  {
    if k > 0 {
      StepAllAt(ps[1..], sqrt, k - 1);
    }
  }

  /** Stepping a sequence in two chunks gives the same frame as stepping it
      whole, so the per-particle loop may be split up freely. */
  lemma {:induction false} StepAllSplit(ps: seq<Particle>, qs: seq<Particle>, sqrt: real -> real)
    requires IsSqrt(sqrt)
    ensures StepAll(ps + qs, sqrt) == StepAll(ps, sqrt) + StepAll(qs, sqrt)
  {
    if ps != [] {
      assert (ps + qs)[1..] == ps[1..] + qs;
      StepAllSplit(ps[1..], qs, sqrt);
    } else {
      assert ps + qs == qs;
    }
  }

  /** Stepping the particles in any order: permuting the input permutes the
      frame in the same way. */
  lemma StepAllPermute(ps: seq<Particle>, perm: seq<nat>, sqrt: real -> real)
    requires IsSqrt(sqrt)
    requires |perm| == |ps|
    requires forall i :: 0 <= i < |perm| ==> perm[i] < |ps|
    ensures var permuted := seq(|perm|, i requires 0 <= i < |perm| => ps[perm[i]]);
            var stepped := StepAll(ps, sqrt);
            |StepAll(permuted, sqrt)| == |stepped| &&
            forall i :: 0 <= i < |perm| ==> StepAll(permuted, sqrt)[i] == stepped[perm[i]]
  {
    var permuted := seq(|perm|, i requires 0 <= i < |perm| => ps[perm[i]]);
    forall i | 0 <= i < |perm|
      ensures |StepAll(permuted, sqrt)| == |ps|
      ensures StepAll(permuted, sqrt)[i] == StepAll(ps, sqrt)[perm[i]]
    {
      StepAllAt(permuted, sqrt, i);
      StepAllAt(ps, sqrt, perm[i]);
    }
    if |ps| == 0 {
      assert StepAll(permuted, sqrt) == [];
    }
  }
}
