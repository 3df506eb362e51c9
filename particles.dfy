/** Particle and the particle pool of ParticleSystem.h/.cpp: particles are
    values copied into the slots of a fixed-capacity array; the pool is a
    class whose methods update its fields and array in place. */
module Particles {
  import opened Vectors

  /** A parent entity: none or some entity. */
  datatype EntityRef = NoEntity | Entity(id: nat)

  /** class Particle: copied by value whenever it is assigned to a slot. */
  datatype Particle = Particle(parentEntity: EntityRef, scale: Vec3, position: Vec3, rotation: real,
                               velocity: Vec3, timeAlive: real, lifetime: real)

  /** Particle(): only the member initialisers run, rotation = 0 and
      timeAlive = 0; the fields the source leaves uninitialised are zero (and
      the parent entity absent) here. */
  function DefaultParticle(): (p: Particle)
    ensures p.rotation == 0.0 && p.timeAlive == 0.0
  {
    Particle(NoEntity, Zero, Zero, 0.0, Zero, 0.0, 0.0)
  }

  /** Particle(position, scale, velocity, lifetime) sets exactly those four
      fields over the defaults. */
  function NewParticle(position: Vec3, scale: Vec3, velocity: Vec3, lifetime: real): (p: Particle)
    ensures p.position == position && p.scale == scale && p.velocity == velocity && p.lifetime == lifetime
    ensures p.(position := Zero, scale := Zero, velocity := Zero, lifetime := 0.0) == DefaultParticle()
  {
    DefaultParticle().(position := position, scale := scale, velocity := velocity, lifetime := lifetime)
  }

  /** updateParticle: the particle moves by velocity * dt and ages by dt;
      nothing else about it changes. */
  function Advance(p: Particle, dt: real): (q: Particle)
    ensures q.position == Add(p.position, Scale(p.velocity, dt)) && q.timeAlive == p.timeAlive + dt
    ensures q.(position := p.position, timeAlive := p.timeAlive) == p
  {
    p.(position := Add(p.position, Scale(p.velocity, dt)), timeAlive := p.timeAlive + dt)
  }

  /** The removal test of the update loop. */
  predicate Expired(p: Particle)
  {
    p.timeAlive >= p.lifetime
  }

  /** The particles of s, each advanced by dt, that have not expired
      afterwards, in order. */
  function Survivors(s: seq<Particle>, dt: real): (r: seq<Particle>)
    ensures |r| <= |s|
    ensures forall q | q in r :: !Expired(q)
  {
    if |s| == 0 then []
    else
      var q := Advance(s[0], dt);
      (if Expired(q) then [] else [q]) + Survivors(s[1..], dt)
  }

  lemma {:induction false} SurvivorsConcat(s: seq<Particle>, t: seq<Particle>, dt: real)
    ensures Survivors(s + t, dt) == Survivors(s, dt) + Survivors(t, dt)
  {
    if |s| > 0 {
      assert (s + t)[0] == s[0] && (s + t)[1..] == s[1..] + t;
      SurvivorsConcat(s[1..], t, dt);
      var head := if Expired(Advance(s[0], dt)) then [] else [Advance(s[0], dt)];
      assert Survivors(s + t, dt) == head + (Survivors(s[1..], dt) + Survivors(t, dt));
      assert Survivors(s, dt) == head + Survivors(s[1..], dt);
    } else {
      assert s + t == t;
    }
  }

  /** The number of particles of s that expire when advanced by dt, counted
      one by one. */
  function ExpiredCount(s: seq<Particle>, dt: real): nat
  {
    if |s| == 0 then 0
    else (if Expired(Advance(s[0], dt)) then 1 else 0) + ExpiredCount(s[1..], dt)
  }

  /** Exactly the expired particles are dropped: the survivors are the
      particles less the expired ones. */
  lemma {:induction false} SurvivorsCount(s: seq<Particle>, dt: real)
    ensures |Survivors(s, dt)| == |s| - ExpiredCount(s, dt)
  {
    if |s| > 0 {
      SurvivorsCount(s[1..], dt);
    }
  }
}
