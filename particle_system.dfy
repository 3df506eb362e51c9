/** The ParticleSystem class of ParticleSystem.h and the per-frame update of
    ParticleSystem.cpp: age and move the live particles, drop the expired
    ones by swapping the last live one into their slot, spawn new ones at the
    end of the live range, then depth-sort the live range. */
module ParticleSystems {
  import opened Vectors
  import opened Heightmap
  import opened Particles
  import opened DepthSort

  /** The survivors of a run do not depend on which end a particle is
      taken from. */
  lemma SurvivorsRotate(x: Particle, m: seq<Particle>, dt: real)
    ensures multiset(Survivors([x] + m, dt)) == multiset(Survivors(m + [x], dt))
  {
    SurvivorsConcat([x], m, dt);
    SurvivorsConcat(m, [x], dt);
  }

  /** The invariant of the removal loop: the first `done` slots hold advanced
      survivors, and the survivors of slots done..n are the ones still to
      come. */
  ghost predicate RemovalInvariant(b: seq<Particle>, done: int, n: int, a: seq<Particle>, dt: real)
    requires 0 <= done <= n <= |b|
  {
    multiset(b[..done]) + multiset(Survivors(b[done..n], dt)) == multiset(Survivors(a, dt))
  }

  /** Slot i survives: it stays, advanced, and the loop moves on. */
  lemma RemovalKeep(b: seq<Particle>, i: int, n: int, a: seq<Particle>, dt: real)
    requires 0 <= i < n <= |b| && RemovalInvariant(b, i, n, a, dt)
    requires !Expired(Advance(b[i], dt))
    ensures RemovalInvariant(b[i := Advance(b[i], dt)], i + 1, n, a, dt)
  {
    var c := b[i := Advance(b[i], dt)];
    assert c[..i + 1] == b[..i] + [Advance(b[i], dt)];
    assert b[i..n] == [b[i]] + b[i + 1..n];
    assert c[i + 1..n] == b[i + 1..n];
  }

  /** Slot i expires and the last live slot n - 1 takes its place; slot i is
      looked at again. */
  lemma RemovalSwap(b: seq<Particle>, i: int, n: int, a: seq<Particle>, dt: real)
    requires 0 <= i < n - 1 && n <= |b| && RemovalInvariant(b, i, n, a, dt)
    requires Expired(Advance(b[i], dt))
    ensures RemovalInvariant(b[i := b[n - 1]], i, n - 1, a, dt)
  {
    var c := b[i := b[n - 1]];
    assert c[..i] == b[..i];
    SwapSurvivors(b, i, n, dt);
  }

  /** Moving the last slot into an expired slot i keeps the survivors of the
      rest of the live range. */
  lemma SwapSurvivors(b: seq<Particle>, i: int, n: int, dt: real)
    requires 0 <= i < n - 1 && n <= |b| && Expired(Advance(b[i], dt))
    ensures multiset(Survivors(b[i := b[n - 1]][i..n - 1], dt)) == multiset(Survivors(b[i..n], dt))
  {
    var m := b[i + 1..n - 1];
    assert b[i..n] == [b[i]] + (m + [b[n - 1]]);
    assert b[i := b[n - 1]][i..n - 1] == [b[n - 1]] + m;
    SurvivorsRotate(b[n - 1], m, dt);
    SurvivorsConcat([b[i]], m + [b[n - 1]], dt);
  }

  /** The last live slot expires: nothing is left to look at. */
  lemma RemovalLast(b: seq<Particle>, n: int, a: seq<Particle>, dt: real)
    requires 0 < n <= |b| && RemovalInvariant(b, n - 1, n, a, dt)
    requires Expired(Advance(b[n - 1], dt))
    ensures RemovalInvariant(b[n - 1 := Advance(b[n - 1], dt)], n - 1, n - 1, a, dt)
  {
    var c := b[n - 1 := Advance(b[n - 1], dt)];
    assert c[..n - 1] == b[..n - 1];
    assert b[n - 1..n] == [b[n - 1]];
  }

  /** A rearrangement of survivors holds no expired particle. */
  lemma NoneExpired(s: seq<Particle>, a: seq<Particle>, dt: real)
    requires multiset(s) == multiset(Survivors(a, dt))
    ensures forall j | 0 <= j < |s| :: !Expired(s[j])
  {
    forall j | 0 <= j < |s|
      ensures !Expired(s[j])
    {
      assert s[j] in multiset(Survivors(a, dt));
    }
  }

  /** Once no slot is left to look at, the live range holds exactly the
      survivors, none of them expired. */
  lemma LiveSurvive(b: seq<Particle>, n: int, a: seq<Particle>, dt: real)
    requires 0 <= n <= |b| && RemovalInvariant(b, n, n, a, dt)
    ensures multiset(b[..n]) == multiset(Survivors(a, dt))
    ensures forall j | 0 <= j < n :: !Expired(b[j])
  {
    assert b[n..n] == [];
    NoneExpired(b[..n], a, dt);
    assert forall j | 0 <= j < n :: b[..n][j] == b[j];
  }

  /** The bookkeeping of the removal loop at the top of an iteration. */
  ghost predicate RemovalState(b: seq<Particle>, i: int, n: int, done: int, n0: int, a: seq<Particle>,
                               rest: seq<Particle>, dt: real)
  {
    0 <= done <= n <= n0 <= |b| && b[n0..] == rest && 0 <= i && done == (if i <= n then i else 0) &&
    (i <= n || (i == 1 && n == 0)) &&
    RemovalInvariant(b, done, n, a, dt)
  }

  /** The four outcomes of one iteration, each from the state at its top. */
  lemma StepKeep(b: seq<Particle>, i: int, n: int, done: int, n0: int, a: seq<Particle>, rest: seq<Particle>, dt: real)
    requires RemovalState(b, i, n, done, n0, a, rest, dt) && i < n && !Expired(Advance(b[i], dt))
    ensures RemovalState(b[i := Advance(b[i], dt)], i + 1, n, done + 1, n0, a, rest, dt)
  {
    RemovalKeep(b, i, n, a, dt);
  }

  lemma StepSwap(b: seq<Particle>, i: int, n: int, done: int, n0: int, a: seq<Particle>, rest: seq<Particle>, dt: real)
    requires RemovalState(b, i, n, done, n0, a, rest, dt) && i < n - 1 && Expired(Advance(b[i], dt))
    ensures RemovalState(b[i := b[n - 1]], i, n - 1, done, n0, a, rest, dt)
  {
    RemovalSwap(b, i, n, a, dt);
  }

  lemma StepLast(b: seq<Particle>, i: int, n: int, done: int, n0: int, a: seq<Particle>, rest: seq<Particle>, dt: real)
    requires RemovalState(b, i, n, done, n0, a, rest, dt) && i == n - 1 && n > 1 && Expired(Advance(b[i], dt))
    ensures RemovalState(b[i := Advance(b[i], dt)], i, n - 1, done, n0, a, rest, dt)
  {
    RemovalLast(b, n, a, dt);
  }

  lemma StepEmpty(b: seq<Particle>, i: int, n: int, done: int, n0: int, a: seq<Particle>, rest: seq<Particle>, dt: real)
    requires RemovalState(b, i, n, done, n0, a, rest, dt) && i < n && n == 1 && Expired(Advance(b[i], dt))
    ensures RemovalState(b[i := Advance(b[i], dt)], i + 1, 0, 0, n0, a, rest, dt)
  {
    assert b[0..1] == [b[0]];
  }

  /** The expired branch of an iteration: slot i, already advanced to p,
      leaves the live range; the last live particle takes its slot, which is
      then looked at again (the `i--` before the loop's `i++`). */
  method DropSlot(ps: array<Particle>, i: int, n: int, ghost done: int, ghost n0: int, ghost a: seq<Particle>,
                  ghost rest: seq<Particle>, dt: real, ghost b: seq<Particle>, p: Particle)
    returns (i': int, n': int, ghost done': int)
    requires RemovalState(b, i, n, done, n0, a, rest, dt) && i < n
    requires p == Advance(b[i], dt) && Expired(p) && ps[..] == b[i := p]
    modifies ps
    ensures RemovalState(ps[..], i', n', done', n0, a, rest, dt)
    ensures n' - i' < n - i
  {
    n' := n - 1;
    if n' > 0 {
      ps[i] := ps[n'];
      if i < n' {
        StepSwap(b, i, n, done, n0, a, rest, dt);
        assert ps[..] == b[i := b[n']];
      } else {
        StepLast(b, i, n, done, n0, a, rest, dt);
      }
      i', done' := i, done;
    } else {
      StepEmpty(b, i, n, done, n0, a, rest, dt);
      i', done' := i + 1, 0;
    }
  }

  /** One iteration of the removal loop: advance slot i, then keep it or
      drop it. */
  method RemovalStep(ps: array<Particle>, i: int, n: int, ghost done: int, ghost n0: int, ghost a: seq<Particle>, ghost rest: seq<Particle>, dt: real)
    returns (i': int, n': int, ghost done': int)
    requires RemovalState(ps[..], i, n, done, n0, a, rest, dt) && i < n
    modifies ps
    ensures RemovalState(ps[..], i', n', done', n0, a, rest, dt)
    ensures n' - i' < n - i
  {
    ghost var b := ps[..];
    var p := Advance(ps[i], dt);
    ps[i] := p;
    if Expired(p) {
      i', n', done' := DropSlot(ps, i, n, done, n0, a, rest, dt, b, p);
    } else {
      StepKeep(b, i, n, done, n0, a, rest, dt);
      assert ps[..] == b[i := p];
      i', n', done' := i + 1, n, done + 1;
    }
  }

  /** The removal loop of updateParticleSystem over the first n slots of ps:
      every live particle is advanced once, the expired ones leave the live
      range, and the live range ends up holding exactly the survivors, in
      some order. Slots from the old n on are not touched. */
  method RemoveExpired(ps: array<Particle>, n0: int, dt: real) returns (n: int)
    requires 0 <= n0 <= ps.Length
    modifies ps
    ensures 0 <= n <= n0
    ensures multiset(ps[..n]) == multiset(Survivors(old(ps[..n0]), dt))
    ensures forall j | 0 <= j < n :: !Expired(ps[j])
    ensures ps[n0..] == old(ps[n0..])
  {
    ghost var a, rest := ps[..n0], ps[n0..];
    n := n0;
    var i := 0;
    ghost var done := 0;
    assert ps[..n] == a && ps[..][..n] == a && ps[..][n..n] == [];
    while i < n
      invariant RemovalState(ps[..], i, n, done, n0, a, rest, dt)
      decreases n - i + 1
    {
      i, n, done := RemovalStep(ps, i, n, done, n0, a, rest, dt);
    }
    LiveSurvive(ps[..], n, a, dt);
  }

  /** The configuration fields of a ParticleSystem, those the per-frame
      update reads but never writes. */
  datatype Settings = Settings(
    position: Vec3, velocity: real, particlesPerSecond: int, maxNumParticles: int,
    minLifetime: real, maxLifetime: real, minSize: real, maxSize: real, sphereRadiusSpawn: real,
    minX: real, maxX: real, minY: real, maxY: real, minZ: real, maxZ: real,
    parentEntity: EntityRef, followParent: bool)

  /** The configuration ParticleSystem(maxNumParticles) leaves behind: the
      member initialisers velocity = 0, minSize = maxSize = 1,
      sphereRadiusSpawn = 1, followParent = false; the fields the source
      leaves uninitialised are zero (and the parent entity absent) here. */
  function DefaultSettings(maxNumParticles: int): (s: Settings)
    ensures s.maxNumParticles == maxNumParticles && s.velocity == 0.0 && !s.followParent
    ensures s.minSize == 1.0 && s.maxSize == 1.0 && s.sphereRadiusSpawn == 1.0
  {
    Settings(Zero, 0.0, 0, maxNumParticles, 0.0, 0.0, 1.0, 1.0, 1.0,
             0.0, 0.0, 0.0, 0.0, 0.0, 0.0, NoEntity, false)
  }

  /** The `(int)` conversion of a float bound times 100, as handed to random. */
  function Hundredths(r: real): int
  {
    Trunc(r * 100.0)
  }

  /** random(lo * 100, hi * 100) / 100: a value drawn in steps of 0.01. */
  function RandomHundredths(draw: nat, lo: real, hi: real): (v: real)
    requires Hundredths(lo) != Hundredths(hi)
    ensures Hundredths(lo) < Hundredths(hi) ==>
      Hundredths(lo) as real / 100.0 <= v < Hundredths(hi) as real / 100.0
  {
    Random(draw, Hundredths(lo), Hundredths(hi)) as real / 100.0
  }

  /** One coordinate of generateParticleDirection:
      (random(0, |hi - lo| * 100) + lo * 100) / 100. */
  function DirectionComponent(draw: nat, lo: real, hi: real): real
    requires Hundredths(AbsReal(hi - lo)) != 0
  {
    (Random(draw, 0, Hundredths(AbsReal(hi - lo))) as real + lo * 100.0) / 100.0
  }

  /** A direction coordinate lies in [lo, lo + |hi - lo|): between the two
      bounds when they are in order. */
  lemma DirectionComponentBounds(draw: nat, lo: real, hi: real)
    requires Hundredths(AbsReal(hi - lo)) != 0
    ensures var c := DirectionComponent(draw, lo, hi);
      lo <= c < lo + AbsReal(hi - lo) && (lo <= hi ==> c < hi)
  {
    var span := Hundredths(AbsReal(hi - lo));
    var r := Random(draw, 0, span);
    assert 0 <= r < span;
    assert span as real <= AbsReal(hi - lo) * 100.0;
    assert (r as real + lo * 100.0) / 100.0 == r as real / 100.0 + lo;
  }

  /** random(0, 3.14 * 100): the rotation range in hundredths. */
  const RotationSpan: int := Trunc(3.14 * 100.0)

  /** Spawning draws six numbers per particle; with the constructor's
      defaults minSize = maxSize = 1 the first of them would be
      rand() % 0, so spawning requires all five spans (size, lifetime, x, y
      and z) to be non-empty. */
  predicate SpawnRangesOk(s: Settings)
  {
    Hundredths(s.minSize) != Hundredths(s.maxSize) &&
    Hundredths(s.minLifetime) != Hundredths(s.maxLifetime) &&
    Hundredths(AbsReal(s.maxX - s.minX)) != 0 &&
    Hundredths(AbsReal(s.maxY - s.minY)) != 0 &&
    Hundredths(AbsReal(s.maxZ - s.minZ)) != 0
  }

  /** A freshly constructed system cannot spawn: its size range is empty. */
  lemma DefaultsCannotSpawn(maxNumParticles: int)
    ensures !SpawnRangesOk(DefaultSettings(maxNumParticles))
  {
    assert Hundredths(1.0) == 100;
  }

  /** The particle spawned as the i-th of toSpawn in this frame, drawing
      draws(k) .. draws(k + 5): size, lifetime, the three direction
      coordinates, rotation. Unless it follows its parent, it is placed by
      the parent's transformation with its translation starting at the
      parent's current position and moved on by i/toSpawn of the parent's
      displacement since the last frame (ahead of the current position, not
      between the two);
      `normalize` and `placeAt` stand for glm::normalize and that matrix
      product. */
  function SpawnedParticle(s: Settings, draws: nat -> nat, k: nat, i: int, toSpawn: int,
                           parentPosition: Vec3, lastPosition: Vec3,
                           normalize: Vec3 -> Vec3, placeAt: (Vec3, Vec3) -> Vec3): Particle
    requires SpawnRangesOk(s) && toSpawn != 0
  {
    var size := RandomHundredths(draws(k), s.minSize, s.maxSize);
    var lifetime := RandomHundredths(draws(k + 1), s.minLifetime, s.maxLifetime);
    var direction := normalize(Vec3(DirectionComponent(draws(k + 2), s.minX, s.maxX),
                                    DirectionComponent(draws(k + 3), s.minY, s.maxY),
                                    DirectionComponent(draws(k + 4), s.minZ, s.maxZ)));
    var rotation := Random(draws(k + 5), 0, RotationSpan) as real / 100.0;
    var translation := Add(parentPosition, Scale(Sub(parentPosition, lastPosition), i as real / toSpawn as real));
    var position := if s.followParent then s.position else placeAt(translation, s.position);
    DefaultParticle().(parentEntity := s.parentEntity, scale := Vec3(size, size, 1.0), position := position,
                       rotation := rotation, velocity := Scale(direction, s.velocity), lifetime := lifetime)
  }

  /** What a spawned particle is: newborn, square in x and y, of the
      system's parent, its size and lifetime drawn from the configured
      ranges and its rotation from [0, 3.14). */
  lemma SpawnedParticleShape(s: Settings, draws: nat -> nat, k: nat, i: int, toSpawn: int,
                             parentPosition: Vec3, lastPosition: Vec3,
                             normalize: Vec3 -> Vec3, placeAt: (Vec3, Vec3) -> Vec3)
    requires SpawnRangesOk(s) && toSpawn != 0
    ensures var p := SpawnedParticle(s, draws, k, i, toSpawn, parentPosition, lastPosition, normalize, placeAt);
      p.timeAlive == 0.0 && p.parentEntity == s.parentEntity &&
      p.scale.x == p.scale.y && p.scale.z == 1.0 &&
      (Hundredths(s.minSize) < Hundredths(s.maxSize) ==>
        Hundredths(s.minSize) as real / 100.0 <= p.scale.x < Hundredths(s.maxSize) as real / 100.0) &&
      (Hundredths(s.minLifetime) < Hundredths(s.maxLifetime) ==>
        Hundredths(s.minLifetime) as real / 100.0 <= p.lifetime < Hundredths(s.maxLifetime) as real / 100.0) &&
      0.0 <= p.rotation < 3.14 &&
      (s.followParent ==> p.position == s.position)
  {
    assert RotationSpan == 314;
  }

  /** numParticlesToSpawn: the whole particles owed after t seconds. */
  function ToSpawn(s: Settings, t: real): int
  {
    Trunc(s.particlesPerSecond as real * t)
  }

  /** How many particles a frame spawns: what is owed, capped by the free
      slots. */
  function SpawnCount(s: Settings, numParticles: int, t: real): (c: int)
    requires numParticles <= s.maxNumParticles
    ensures 0 <= c <= s.maxNumParticles - numParticles
    ensures c == 0 <==> ToSpawn(s, t) <= 0 || numParticles == s.maxNumParticles
    ensures c > 0 ==> c == ToSpawn(s, t) || numParticles + c == s.maxNumParticles
    ensures c <= ToSpawn(s, t) || c == 0
  {
    var toSpawn := ToSpawn(s, t);
    if toSpawn <= 0 then 0
    else if toSpawn < s.maxNumParticles - numParticles then toSpawn
    else s.maxNumParticles - numParticles
  }

  /** The first loop of sortParticles: a fresh array of (key, slot) pairs. */
  method DepthKeys(ps: array<Particle>, n: int, cameraPosition: Vec3, cameraForward: Vec3)
    returns (sortArray: array<Entry>)
    requires 0 <= n <= ps.Length
    ensures fresh(sortArray)
    ensures sortArray[..] == Entries(ps[..n], cameraPosition, cameraForward)
  {
    sortArray := new Entry[n](_ => (0.0, 0));
    var i := 0;
    while i < n
      invariant 0 <= i <= n
      invariant forall j | 0 <= j < i :: sortArray[j] == (Key(ps[j], cameraPosition, cameraForward), j)
    {
      sortArray[i] := (Key(ps[i], cameraPosition, cameraForward), i);
      i := i + 1;
    }
  }

  /** The second loop of sortParticles: a fresh copy of the live particles. */
  method CopyLive(ps: array<Particle>, n: int) returns (particleCopy: array<Particle>)
    requires 0 <= n <= ps.Length
    ensures fresh(particleCopy)
    ensures particleCopy[..] == ps[..n]
  {
    particleCopy := new Particle[n](_ => DefaultParticle());
    var i := 0;
    while i < n
      invariant 0 <= i <= n
      invariant particleCopy[..i] == ps[..i]
    {
      particleCopy[i] := ps[i];
      i := i + 1;
    }
  }

  /** The last loop of sortParticles: slot i receives the copy the i-th pair
      names. */
  method CopyBack(ps: array<Particle>, particleCopy: array<Particle>, sorted: seq<Entry>)
    requires ps != particleCopy && |sorted| <= ps.Length && SlotsIn(sorted, particleCopy.Length)
    modifies ps
    ensures ps[..|sorted|] == Gather(particleCopy[..], sorted)
    ensures ps[|sorted|..] == old(ps[|sorted|..])
  {
    var i := 0;
    while i < |sorted|
      invariant 0 <= i <= |sorted|
      invariant forall j | 0 <= j < i :: ps[j] == particleCopy[sorted[j].1]
      invariant ps[i..] == old(ps[i..])
    {
      ps[i] := particleCopy[sorted[i].1];
      i := i + 1;
    }
  }

  /** sortParticles(particleSystem, particles, n, cameraPosition,
      cameraForward): pair each of the first n particles with its depth key,
      copy them aside, sort the pairs (std::sort, a function here) over the
      range ending at the LAST pair, and copy the particles back in pair
      order. Slots from n on are not touched. */
  method SortParticles(ps: array<Particle>, n: int, cameraPosition: Vec3, cameraForward: Vec3)
    requires 0 <= n <= ps.Length
    modifies ps
    ensures n == 0 ==> ps[..] == old(ps[..])
    ensures n > 0 ==> ps[..n] == SortedAsWritten(old(ps[..n]), cameraPosition, cameraForward)
    ensures ps[n..] == old(ps[n..])
  {
    if n == 0 {
      return;
    }
    ghost var live := ps[..n];
    var sortArray := DepthKeys(ps, n, cameraPosition, cameraForward);
    var particleCopy := CopyLive(ps, n);
    var sorted := ArrangedAsWritten(sortArray[..]);
    GatherEntries(live, cameraPosition, cameraForward);
    SlotsInPermutation(sorted, sortArray[..], n);
    CopyBack(ps, particleCopy, sorted);
  }

  /** The spawn loop stops after exactly SpawnCount turns. */
  lemma SpawnLoopExit(s: Settings, num0: int, t: real, i: int)
    requires 0 <= i && num0 + i <= s.maxNumParticles && (i == 0 || i <= ToSpawn(s, t))
    requires !(i < ToSpawn(s, t) && num0 + i < s.maxNumParticles)
    ensures i == SpawnCount(s, num0, t)
  {
  }

  /** Slots num0 .. num0 + i - 1 hold the first i particles of the frame. */
  ghost predicate SpawnedSoFar(ps: seq<Particle>, num0: int, i: int, s: Settings, draws: nat -> nat, k: nat,
                               toSpawn: int, parentPosition: Vec3, lastPosition: Vec3,
                               normalize: Vec3 -> Vec3, placeAt: (Vec3, Vec3) -> Vec3)
    requires i > 0 ==> SpawnRangesOk(s) && toSpawn != 0
  {
    0 <= num0 && num0 + i <= |ps| &&
    forall j | 0 <= j < i ::
      ps[num0 + j] == SpawnedParticle(s, draws, k + 6 * j, j, toSpawn, parentPosition, lastPosition,
                                      normalize, placeAt)
  }

  /** Writing the next particle into the next slot extends the run. */
  lemma SpawnedNext(ps: seq<Particle>, num0: int, i: int, s: Settings, draws: nat -> nat, k: nat,
                    toSpawn: int, parentPosition: Vec3, lastPosition: Vec3,
                    normalize: Vec3 -> Vec3, placeAt: (Vec3, Vec3) -> Vec3, k': nat, p: Particle)
    requires SpawnRangesOk(s) && toSpawn != 0 && 0 <= num0 && 0 <= i && num0 + i < |ps| && k' == k + 6 * i
    requires SpawnedSoFar(ps, num0, i, s, draws, k, toSpawn, parentPosition, lastPosition, normalize, placeAt)
    requires p == SpawnedParticle(s, draws, k', i, toSpawn, parentPosition, lastPosition, normalize, placeAt)
    ensures SpawnedSoFar(ps[num0 + i := p], num0, i + 1, s, draws, k, toSpawn, parentPosition, lastPosition,
                         normalize, placeAt)
  {
    var ps' := ps[num0 + i := p];
    forall j | 0 <= j < i + 1
      ensures ps'[num0 + j] == SpawnedParticle(s, draws, k + 6 * j, j, toSpawn, parentPosition, lastPosition,
                                               normalize, placeAt)
    {
      if j < i {
        assert ps'[num0 + j] == ps[num0 + j];
      } else {
        SpawnedSame(s, draws, k', k + 6 * j, i, j, toSpawn, parentPosition, lastPosition, normalize, placeAt);
      }
    }
  }

  /** SpawnedParticle depends on nothing but its arguments. */
  lemma SpawnedSame(s: Settings, draws: nat -> nat, k1: nat, k2: nat, i1: int, i2: int, toSpawn: int,
                    parentPosition: Vec3, lastPosition: Vec3,
                    normalize: Vec3 -> Vec3, placeAt: (Vec3, Vec3) -> Vec3)
    requires SpawnRangesOk(s) && toSpawn != 0 && k1 == k2 && i1 == i2
    ensures SpawnedParticle(s, draws, k1, i1, toSpawn, parentPosition, lastPosition, normalize, placeAt)
         == SpawnedParticle(s, draws, k2, i2, toSpawn, parentPosition, lastPosition, normalize, placeAt)
  {
  }

  /** b agrees with orig outside slots lo .. hi - 1. */
  ghost predicate Untouched(b: seq<Particle>, orig: seq<Particle>, lo: int, hi: int)
  {
    |b| == |orig| && forall j | 0 <= j < |b| && !(lo <= j < hi) :: b[j] == orig[j]
  }

  /** The spawn loop of updateParticleSystem, from slot num0 on: it runs
      while particles are owed and slots are free, writing the j-th spawned
      particle, drawn from draws(k + 6j) on, into slot num0 + j and
      resetting the time since the last spawn. */
  method SpawnLoop(ps: array<Particle>, num0: int, s: Settings, t: real, draws: nat -> nat, k: nat,
                   parentPosition: Vec3, lastPosition: Vec3,
                   normalize: Vec3 -> Vec3, placeAt: (Vec3, Vec3) -> Vec3)
    returns (num: int, tsls: real, k': nat)
    requires 0 <= num0 <= s.maxNumParticles == ps.Length
    requires SpawnCount(s, num0, t) > 0 ==> SpawnRangesOk(s)
    modifies ps
    ensures var c := SpawnCount(s, num0, t);
      num == num0 + c && k' == k + 6 * c && tsls == (if c > 0 then 0.0 else t)
    ensures SpawnedSoFar(ps[..], num0, num - num0, s, draws, k, ToSpawn(s, t), parentPosition, lastPosition,
                         normalize, placeAt)
    ensures Untouched(ps[..], old(ps[..]), num0, num)
  {
    var toSpawn := ToSpawn(s, t);
    ghost var orig := ps[..];
    num, tsls, k' := num0, t, k;
    var i := 0;
    while i < toSpawn && num < s.maxNumParticles
      invariant 0 <= i && num == num0 + i && num <= s.maxNumParticles
      invariant i == 0 || (i <= toSpawn && SpawnRangesOk(s))
      invariant k' == k + 6 * i && tsls == (if i == 0 then t else 0.0)
      invariant SpawnedSoFar(ps[..], num0, i, s, draws, k, toSpawn, parentPosition, lastPosition, normalize, placeAt)
      invariant Untouched(ps[..], orig, num0, num)
    {
      SpawnAt(ps, num0, i, s, draws, k, k', toSpawn, parentPosition, lastPosition, normalize, placeAt, orig);
      num := num + 1;
      tsls := 0.0;
      k' := k' + 6;
      i := i + 1;
    }
    SpawnLoopExit(s, num0, t, i);
  }

  /** One pass of the spawn loop: the i-th spawned particle goes into slot
      num0 + i, and no other slot changes. */
  method SpawnAt(ps: array<Particle>, num0: int, i: int, s: Settings, draws: nat -> nat, k: nat, k': nat,
                 toSpawn: int, parentPosition: Vec3, lastPosition: Vec3,
                 normalize: Vec3 -> Vec3, placeAt: (Vec3, Vec3) -> Vec3, ghost orig: seq<Particle>)
    requires SpawnRangesOk(s) && toSpawn != 0 && 0 <= num0 && 0 <= i && num0 + i < ps.Length && k' == k + 6 * i
    requires SpawnedSoFar(ps[..], num0, i, s, draws, k, toSpawn, parentPosition, lastPosition, normalize, placeAt)
    requires Untouched(ps[..], orig, num0, num0 + i)
    modifies ps
    ensures SpawnedSoFar(ps[..], num0, i + 1, s, draws, k, toSpawn, parentPosition, lastPosition,
                         normalize, placeAt)
    ensures Untouched(ps[..], orig, num0, num0 + i + 1)
  {
    var p := SpawnedParticle(s, draws, k', i, toSpawn, parentPosition, lastPosition, normalize, placeAt);
    ghost var pre := ps[..];
    SpawnedNext(pre, num0, i, s, draws, k, toSpawn, parentPosition, lastPosition, normalize, placeAt, k', p);
    ps[num0 + i] := p;
    assert ps[..] == pre[num0 + i := p];
  }

  /** A particle emitter: its configuration, a fixed pool of
      maxNumParticles slots whose first numParticles are live, and the
      spawning clock. The model, texture and atlas fields only serve
      rendering and are not part of this model. */
  class ParticleSystem {
    var position: Vec3
    var velocity: real
    var particlesPerSecond: int
    var maxNumParticles: int
    var numParticles: int
    var timeSinceLastSpawn: real
    var minLifetime: real
    var maxLifetime: real
    var minSize: real
    var maxSize: real
    var sphereRadiusSpawn: real
    var particles: array<Particle>
    var minX: real
    var maxX: real
    var minZ: real
    var maxZ: real
    var minY: real
    var maxY: real
    var parentEntity: EntityRef
    var parentEntityLastPosition: Vec3
    var followParent: bool

    /** The configuration fields, as one value. */
    function Config(): Settings
      reads this
    {
      Settings(position, velocity, particlesPerSecond, maxNumParticles, minLifetime, maxLifetime,
               minSize, maxSize, sphereRadiusSpawn, minX, maxX, minY, maxY, minZ, maxZ,
               parentEntity, followParent)
    }

    /** The pool has maxNumParticles slots and the live ones are a prefix. */
    predicate Valid()
      reads this
    {
      particles.Length == maxNumParticles && 0 <= numParticles <= maxNumParticles
    }

    /** ParticleSystem(maxNumParticles): a pool of default particles. The
        source leaves position, particlesPerSecond, numParticles,
        timeSinceLastSpawn, the lifetime and direction bounds and the parent
        uninitialised; here they start at zero (no parent). */
    constructor (maxNumParticles: int)
      requires maxNumParticles >= 0
      ensures Valid() && Config() == DefaultSettings(maxNumParticles)
      ensures numParticles == 0 && timeSinceLastSpawn == 0.0 && parentEntityLastPosition == Zero
      ensures fresh(particles) && forall j | 0 <= j < maxNumParticles :: particles[j] == DefaultParticle()
    {
      position := Zero;
      velocity := 0.0;
      particlesPerSecond := 0;
      this.maxNumParticles := maxNumParticles;
      numParticles := 0;
      timeSinceLastSpawn := 0.0;
      minLifetime, maxLifetime := 0.0, 0.0;
      minSize, maxSize := 1.0, 1.0;
      sphereRadiusSpawn := 1.0;
      particles := new Particle[maxNumParticles](_ => DefaultParticle());
      minX, maxX, minZ, maxZ, minY, maxY := 0.0, 0.0, 0.0, 0.0, 0.0, 0.0;
      parentEntity := NoEntity;
      parentEntityLastPosition := Zero;
      followParent := false;
    }

    /** setDirection: the six bounds of the spawn direction box, and nothing
        else. */
    method SetDirection(minX: real, maxX: real, minY: real, maxY: real, minZ: real, maxZ: real)
      modifies this
      ensures Config() == old(Config()).(minX := minX, maxX := maxX, minY := minY, maxY := maxY,
                                         minZ := minZ, maxZ := maxZ)
      ensures numParticles == old(numParticles) && timeSinceLastSpawn == old(timeSinceLastSpawn)
      ensures particles == old(particles) && parentEntityLastPosition == old(parentEntityLastPosition)
    {
      this.minX, this.maxX, this.minY, this.maxY, this.minZ, this.maxZ := minX, maxX, minY, maxY, minZ, maxZ;
    }

    /** The first part of updateParticleSystem: age and move every live
        particle and drop the expired ones. */
    method UpdateParticles(dt: real)
      requires Valid()
      modifies this, particles
      ensures Valid() && Config() == old(Config()) && particles == old(particles)
      ensures timeSinceLastSpawn == old(timeSinceLastSpawn)
      ensures parentEntityLastPosition == old(parentEntityLastPosition)
      ensures numParticles == old(numParticles) - ExpiredCount(old(particles[..numParticles]), dt)
      ensures multiset(particles[..numParticles]) == multiset(Survivors(old(particles[..numParticles]), dt))
      ensures forall j | 0 <= j < numParticles :: !Expired(particles[j])
      ensures particles[old(numParticles)..] == old(particles[numParticles..])
    {
      ghost var live := particles[..numParticles];
      numParticles := RemoveExpired(particles, numParticles, dt);
      assert |particles[..numParticles]| == |multiset(Survivors(live, dt))|;
      SurvivorsCount(live, dt);
    }

    /** The second part: spawn what is owed into the free slots. parentPosition
        is the translation of the parent's transformation, (0, 0, 0) without
        a parent; it becomes the last known parent position. */
    method SpawnParticles(dt: real, draws: nat -> nat, k: nat, parentPosition: Vec3,
                          normalize: Vec3 -> Vec3, placeAt: (Vec3, Vec3) -> Vec3)
      returns (k': nat)
      requires Valid() && (parentEntity == NoEntity ==> parentPosition == Zero)
      requires SpawnCount(Config(), numParticles, timeSinceLastSpawn + dt) > 0 ==> SpawnRangesOk(Config())
      modifies this, particles
      ensures Valid() && Config() == old(Config()) && particles == old(particles)
      ensures var t := old(timeSinceLastSpawn) + dt;
        var c := SpawnCount(old(Config()), old(numParticles), t);
        numParticles == old(numParticles) + c && k' == k + 6 * c &&
        timeSinceLastSpawn == (if c > 0 then 0.0 else t)
      ensures SpawnedSoFar(particles[..], old(numParticles), numParticles - old(numParticles), old(Config()), draws, k,
                           ToSpawn(old(Config()), old(timeSinceLastSpawn) + dt),
                           parentPosition, old(parentEntityLastPosition), normalize, placeAt)
      ensures Untouched(particles[..], old(particles[..]), old(numParticles), numParticles)
      ensures parentEntityLastPosition == parentPosition
    {
      timeSinceLastSpawn := timeSinceLastSpawn + dt;
      var num, tsls;
      num, tsls, k' := SpawnLoop(particles, numParticles, Config(), timeSinceLastSpawn, draws, k,
                                 parentPosition, parentEntityLastPosition, normalize, placeAt);
      numParticles, timeSinceLastSpawn := num, tsls;
      parentEntityLastPosition := parentPosition;
    }

    /** The last part: depth-sort the live particles for drawing. */
    method SortLive(cameraPosition: Vec3, cameraDirection: Vec3)
      requires Valid()
      modifies particles
      ensures numParticles == 0 ==> particles[..] == old(particles[..])
      ensures numParticles > 0 ==>
        particles[..numParticles] == SortedAsWritten(old(particles[..numParticles]), cameraPosition, cameraDirection)
      ensures particles[numParticles..] == old(particles[numParticles..])
    {
      SortParticles(particles, numParticles, cameraPosition, cameraDirection);
    }

    /** updateParticleSystem: the three parts in order. live is the number
        of particles left after the expired ones are dropped, and arranged
        is the pool just before sorting: the survivors (in some order), then
        the newly spawned particles. */
    method UpdateParticleSystem(cameraPosition: Vec3, cameraDirection: Vec3, dt: real, draws: nat -> nat, k: nat,
                                parentPosition: Vec3, normalize: Vec3 -> Vec3, placeAt: (Vec3, Vec3) -> Vec3)
      returns (k': nat, ghost live: int, ghost arranged: seq<Particle>)
      requires Valid() && (parentEntity == NoEntity ==> parentPosition == Zero)
      requires SpawnCount(Config(), |Survivors(particles[..numParticles], dt)|, timeSinceLastSpawn + dt) > 0
               ==> SpawnRangesOk(Config())
      modifies this, particles
      ensures Valid() && Config() == old(Config()) && particles == old(particles)
      ensures live == |Survivors(old(particles[..numParticles]), dt)|
      ensures live == old(numParticles) - ExpiredCount(old(particles[..numParticles]), dt)
      ensures 0 <= live <= old(numParticles) && |arranged| == particles.Length
      ensures multiset(arranged[..live]) == multiset(Survivors(old(particles[..numParticles]), dt))
      ensures var t := old(timeSinceLastSpawn) + dt;
        var c := SpawnCount(old(Config()), live, t);
        numParticles == live + c && k' == k + 6 * c && timeSinceLastSpawn == (if c > 0 then 0.0 else t)
      ensures SpawnedSoFar(arranged, live, numParticles - live, old(Config()), draws, k,
                           ToSpawn(old(Config()), old(timeSinceLastSpawn) + dt),
                           parentPosition, old(parentEntityLastPosition), normalize, placeAt)
      ensures numParticles > 0 ==>
        particles[..numParticles] == SortedAsWritten(arranged[..numParticles], cameraPosition, cameraDirection)
      ensures particles[numParticles..] == arranged[numParticles..]
      ensures parentEntityLastPosition == parentPosition
    {
      ghost var before := particles[..numParticles];
      UpdateParticles(dt);
      live := numParticles;
      assert |particles[..numParticles]| == |multiset(Survivors(before, dt))|;
      ghost var survivors := particles[..];
      k' := SpawnParticles(dt, draws, k, parentPosition, normalize, placeAt);
      arranged := particles[..];
      assert arranged[..live] == survivors[..live];
      SortLive(cameraPosition, cameraDirection);
    }
  }
}
