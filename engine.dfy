/** The Quasar engine object: a fixed-size array of particles and a parallel
    array of display points that mirrors each particle's position and carries
    its colour. The constructor seeds the swarm, the copy constructor and
    Assign give value semantics, and Update advances every particle by one
    frame in place. */
module Engine {
  import opened Physics

  class Quasar {
    var size: nat
    var particles: array<Particle>
    var vertices: array<Vertex>

    /** Both arrays hold `size` entries and every display point sits where
        its particle is, coloured by its particle's speed. */
    ghost predicate Valid()
      reads this, particles, vertices
    {
      particles.Length == size && vertices.Length == size &&
      forall i :: 0 <= i < size ==> vertices[i] == Mirror(particles[i])
    }

    /** Seeds `count` particles, consuming the draws two at a time (x first,
        then y); every display point starts at its particle, in White. */
    constructor (count: nat, draws: seq<nat>)
      requires |draws| >= 2 * count
      ensures Valid() && fresh(particles) && fresh(vertices)
      ensures size == count
      ensures forall i :: 0 <= i < count ==>
                particles[i] == Seed(draws[2 * i], draws[2 * i + 1]) &&
                vertices[i] == Vertex(particles[i].position, White)
    {
      var ps := new Particle[count];
      var vs := new Vertex[count];
      for i := 0 to count
        invariant forall k :: 0 <= k < i ==>
                    ps[k] == Seed(draws[2 * k], draws[2 * k + 1]) &&
                    vs[k] == Vertex(ps[k].position, White) &&
                    vs[k] == Mirror(ps[k])
      {
        var p := Seed(draws[2 * i], draws[2 * i + 1]);
        SeedIsCold(draws[2 * i], draws[2 * i + 1]);
        ps[i] := p;
        vs[i] := Vertex(p.position, White);
      }
      size, particles, vertices := count, ps, vs;
    }

    /** The copy constructor: fresh arrays with the same size and element-wise
        equal particles and display points. */
    constructor Copy(other: Quasar)
      requires other.Valid()
      ensures Valid() && fresh(particles) && fresh(vertices)
      ensures size == other.size
      ensures particles[..] == other.particles[..] && vertices[..] == other.vertices[..]
    {
      var ps, vs := Duplicate(other.particles, other.vertices);
      size, particles, vertices := other.size, ps, vs;
    }

    /** Copy assignment: unless `other` is this very object, take its size and
        fresh element-wise copies of its arrays; assigning an object to itself
        changes nothing. */
    method Assign(other: Quasar)
      requires Valid() && other.Valid()
      modifies this
      ensures Valid()
      ensures other == this ==> unchanged(this)
      ensures other != this ==> fresh(particles) && fresh(vertices)
      ensures size == other.size
      ensures particles[..] == other.particles[..] && vertices[..] == other.vertices[..]
    {
      if this != other {
        var ps, vs := Duplicate(other.particles, other.vertices);
        size, particles, vertices := other.size, ps, vs;
      }
    }

    /** One frame: every particle takes one semi-implicit Euler step from its
        own old state, and its display point is moved to the new position and
        coloured Red exactly when the new speed is above 50. The size and the
        arrays stay the same. */
    method Update(sqrt: real -> real)
      requires Valid() && IsSqrt(sqrt)
      modifies particles, vertices
      ensures Valid()
      ensures forall i :: 0 <= i < size ==>
                particles[i] == Step(old(particles[i]), sqrt) &&
                vertices[i].position == particles[i].position
      ensures forall i :: 0 <= i < size ==>
                (vertices[i].color == Red <==> sqrt(Norm2(particles[i].velocity)) > 50.0)
      ensures particles[..] == StepAll(old(particles[..]), sqrt)
    {
      for i := 0 to size
        invariant forall k :: 0 <= k < i ==>
                    particles[k] == Step(old(particles[k]), sqrt) &&
                    vertices[k] == Mirror(particles[k])
        invariant forall k :: i <= k < size ==> particles[k] == old(particles[k])
      {
        var q := Step(particles[i], sqrt);
        particles[i] := q;
        vertices[i] := Mirror(q);
      }
      ghost var before := old(particles[..]);
      forall k | 0 <= k < size
        ensures particles[..][k] == StepAll(before, sqrt)[k]
      {
        StepAllAt(before, sqrt, k);
      }
      forall k | 0 <= k < size
        ensures vertices[k].color == Red <==> sqrt(Norm2(particles[k].velocity)) > 50.0
      {
        ColorIsSpeedThreshold(particles[k].velocity, sqrt);
      }
    }
  }

  /** Fresh arrays holding element-wise copies of `ps` and `vs`, filled
      index by index in one loop. */
  method Duplicate(ps: array<Particle>, vs: array<Vertex>)
    returns (ps': array<Particle>, vs': array<Vertex>)
    requires ps.Length == vs.Length
    ensures fresh(ps') && fresh(vs')
    ensures ps'[..] == ps[..] && vs'[..] == vs[..]
  {
    ps' := new Particle[ps.Length];
    vs' := new Vertex[vs.Length];
    for i := 0 to ps.Length
      invariant forall k :: 0 <= k < i ==> ps'[k] == ps[k] && vs'[k] == vs[k]
    {
      ps'[i] := ps[i];
      vs'[i] := vs[i];
    }
  }

  /** A copy is independent of its original: a frame of the copy gives the
      stepped swarm and leaves the original's particles and display points as
      they were. */
  method UpdateCopy(q: Quasar, sqrt: real -> real) returns (c: Quasar)
    requires q.Valid() && IsSqrt(sqrt)
    ensures c != q && c.Valid() && c.size == q.size
    ensures c.particles[..] == StepAll(q.particles[..], sqrt)
    ensures unchanged(q, q.particles, q.vertices)
  {
    c := new Quasar.Copy(q);
    c.Update(sqrt);
  }
}
