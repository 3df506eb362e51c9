# Flight simulator core in Dafny

A Dafny model of the computational core of a small OpenGL flight simulator
written in C++. Three pieces are modelled:

- **Terrain generation** (`DiamondSquare.h`). The diamond-square fractal
  fills a `(2^n + 1) x (2^n + 1)` heightmap in place. It seeds the four
  corners, then halves the step size pass by pass and doubles the
  smoothness each time. Every pass runs a diamond loop over cell midpoints
  and a square loop over edge midpoints. Every value is the average of the
  cell's neighbours plus `(random(0, 500) - 250) / smoothness`.
- **The particle system** (`ParticleSystem.h`, `ParticleSystem.cpp`). A
  fixed pool of particle slots with a live prefix. Each frame it:
  - ages and moves the live particles;
  - drops the expired ones by swapping the last live particle into their
    slot;
  - spawns new particles at the end of the live range, as many as the
    spawn rate owes and the free slots allow;
  - depth-sorts the live range for drawing.
- **The world helpers of `Main.cpp`**:
  - the physics step of an entity and its collision with the terrain;
  - the runway flattened into the generated heightmap;
  - the keyboard flags set by the key callback, and the jump the main loop
    turns into an impulse.

The code is modelled in its own form:

- The heightmap is an `array<real>`, and `diamondStep`, `squareStep` and
  the loops of `diamondSquare` are methods that write it in place. The
  nested loops are split into one method per loop level.
- A ghost sequence `w` counts the writes of every cell. The proofs show
  that each cell is written exactly once and that every read hits a cell
  already written.
- The final heightmap is specified by `Heightmap.Generated`. For every
  cell, it says which value diamondSquare stores there.
- `Particle` is a datatype, because the source copies particles by value
  between slots.
- `ParticleSystem`, `Entity` and the key flags (`Input`) are classes whose
  methods update their fields in place.
- `rand()` becomes an oracle `draws: nat -> nat`: the i-th call returns
  `draws(i)`. The seed picks the oracle through a parameter
  `prng: int -> (nat -> nat)`, and `time(NULL)` is a parameter `clock`.
  Every method that draws returns how far it got in the sequence.
- Floats are modelled as `real`. A C `(int)` conversion is `Trunc`
  (toward zero), and C's `%` is `CRem` (the sign of the dividend).

Where the code differs from what its names and comments suggest, the model
follows the code:

- **runPhysics** (Main.cpp:86-92): the variable is called `netForce`, but
  the velocity gains `impulse + gravity` in full each call, with no `dt`
  and no mass factor (`World.VelocityIgnoresDt`).
- **terrainCollision** (Main.cpp:94-103): its own comment says it should
  also interpolate over the triangle. The code reads the single cell under
  the entity, and so does the model.
- **sortParticles** sorts all but the last live particle, and
  **makeRunwayOnHeightmap** halves only one of the two heights it calls an
  average. Both are described under "## Findings".

## Model

| member | source | states |
|---|---|---|
| Heightmap.Index | FlightSimulator/Source/DiamondSquare.h:7 | WORLD_TO_INDEX: a cell inside the grid maps to an index inside the buffer |
| Heightmap.IndexRoundTrip | FlightSimulator/Source/DiamondSquare.h:7 | the index can be decoded: index / width is the row and index % width is the column |
| Heightmap.IndexCovers | FlightSimulator/Source/DiamondSquare.h:7 | every buffer index is the index of exactly the cell (i % width, i / width) |
| Heightmap.IndexInjective | FlightSimulator/Source/DiamondSquare.h:7 | two cells with the same index are the same cell |
| Heightmap.IndexDistinct | FlightSimulator/Source/DiamondSquare.h:7 | two different cells whose columns lie inside the width have different indices |
| Heightmap.CRem | FlightSimulator/Source/DiamondSquare.h:10 | C's `%`: the result has the sign of the dividend and magnitude below the divisor's |
| Heightmap.CRemCongruent | FlightSimulator/Source/DiamondSquare.h:10 | the C remainder differs from the dividend by a multiple of the divisor |
| Heightmap.Random | FlightSimulator/Source/DiamondSquare.h:9-11 | random(min, max) lies in [min, max) when min < max; in any case it lies at least min and below min + abs(max - min) |
| Heightmap.RandomCongruent | FlightSimulator/Source/DiamondSquare.h:9-11 | random's offset from min is the draw modulo abs(max - min) |
| Heightmap.Displacement | FlightSimulator/Source/DiamondSquare.h:66 | the displacement (random(0, 500) - 250) / smoothness of one cell; the corners (lines 56-59) and the square loop (line 75) use the same expression. DisplacementBounds bounds it |
| Heightmap.DisplacementBounds | FlightSimulator/Source/DiamondSquare.h:66 | a displacement (random(0, 500) - 250) / smoothness lies in [-250 / smoothness, 249 / smoothness] |
| Heightmap.PassSmoothness | FlightSimulator/Source/DiamondSquare.h:63 | the smoothness of every pass stays non-zero |
| Heightmap.SmoothnessDoubles | FlightSimulator/Source/DiamondSquare.h:62-63 | each pass of the stepSize loop runs at twice the smoothness of the previous pass |
| Heightmap.MissingNeighbours | FlightSimulator/Source/DiamondSquare.h:27 | no neighbour is missing exactly when squareStep takes its interior branch |
| Heightmap.SquareBorder | FlightSimulator/Source/DiamondSquare.h:27-39 | an edge midpoint that squareStep visits misses exactly one neighbour on the border and none inside, so dividing by 3 there averages exactly the neighbours that exist |
| Heightmap.DiamondMeanFrame | FlightSimulator/Source/DiamondSquare.h:16-19 | the diamond average changes only when one of its four corners is written |
| Heightmap.SquareMeanFrame | FlightSimulator/Source/DiamondSquare.h:28-38 | the square average changes only when one of the neighbours it reads is written |
| Heightmap.DiamondMean | FlightSimulator/Source/DiamondSquare.h:16-19 | the mean of the four corners of the stepSize x stepSize cell whose top-left corner is (x, y). Its partners are DiamondMeanFrame and Uniqueness.DiamondMeanAgree |
| Heightmap.SquareMean | FlightSimulator/Source/DiamondSquare.h:26-39 | the average squareStep takes: neighbours outside the grid count as 0, and the sum is divided by 3 on the border and by 4 inside. SquareBorder shows that this is the mean of the neighbours that exist |
| Heightmap.Generated | FlightSimulator/Source/DiamondSquare.h:46-92 | the reference for the whole output, cell by cell. The corners hold the displacements of draws 0 to 3. Every cell midpoint of pass e holds DiamondMean plus the displacement of the draw its row-by-row position assigns it, at the smoothness of that pass. Every edge midpoint holds SquareMean plus its own draw's displacement. Uniqueness.GeneratedUnique shows that it determines the grid |
| DiamondSquare.DiamondStep | FlightSimulator/Source/DiamondSquare.h:15-21 | diamondStep writes the cell midpoint, and only it, with the average of the four corners plus r. The corners are written and the midpoint is not yet written |
| DiamondSquare.SquareStep | FlightSimulator/Source/DiamondSquare.h:25-41 | squareStep writes (x, y), and only it, with the average of its present neighbours plus r. The neighbours are written and (x, y) is not yet written |
| DiamondSquare.DiamondCell | FlightSimulator/Source/DiamondSquare.h:66-67 | one diamond iteration draws its displacement and finishes the next midpoint, keeping the earlier passes finished |
| DiamondSquare.DiamondCellAdvance | FlightSimulator/Source/DiamondSquare.h:66-67 | the diamond-loop invariant holds again after the write of one midpoint |
| DiamondSquare.DiamondLine | FlightSimulator/Source/DiamondSquare.h:65-68 | the x loop of the diamond step finishes one row of cells and takes one draw per cell |
| DiamondSquare.DiamondLoop | FlightSimulator/Source/DiamondSquare.h:64-69 | the diamond loop finishes every cell midpoint of the pass and takes c * c draws, with c = 2^(n-e) |
| DiamondSquare.SquareCell | FlightSimulator/Source/DiamondSquare.h:75-76 | one square iteration draws its displacement and finishes the next edge midpoint |
| DiamondSquare.SquareCellAdvance | FlightSimulator/Source/DiamondSquare.h:75-76 | the square-loop invariant holds again after the write of one edge midpoint |
| DiamondSquare.SquareLine | FlightSimulator/Source/DiamondSquare.h:73-77 | the x loop of the square step, which starts at 0 or stepSize / 2 by row parity, finishes one row of edge midpoints |
| DiamondSquare.SquareLoop | FlightSimulator/Source/DiamondSquare.h:71-78 | the square loop finishes every edge midpoint of the pass and ends at the draw where the next pass starts |
| DiamondSquare.SeedCorners | FlightSimulator/Source/DiamondSquare.h:56-59 | the four corners hold the displacements of the first four draws, at the initial smoothness; no other cell changes |
| DiamondSquare.Pass | FlightSimulator/Source/DiamondSquare.h:62-81 | one pass of the stepSize loop takes the grid from "lattice of step 2^e finished" to "lattice of step 2^(e-1) finished" |
| DiamondSquare.DiamondSquare | FlightSimulator/Source/DiamondSquare.h:46-92 | diamondSquare returns its own buffer, filled as Generated prescribes for the rand() sequence of the seed (the clock when the seed is -1), with every cell written exactly once |
| Uniqueness.GeneratedUnique | FlightSimulator/Source/DiamondSquare.h:46-92 | the output is determined by size, smoothness and the rand() sequence: two grids that both satisfy Generated are equal |
| Uniqueness.AgreeFrom | FlightSimulator/Source/DiamondSquare.h:62-81 | two generated grids that agree on the lattice of step 2^e agree everywhere (induction over the passes) |
| Uniqueness.PassAgree | FlightSimulator/Source/DiamondSquare.h:62-81 | agreement on the lattice of one pass carries over to the finer lattice of the next pass |
| Uniqueness.DiamondAgree | FlightSimulator/Source/DiamondSquare.h:15-21 | a diamond midpoint is determined by its four corners and its displacement |
| Uniqueness.SquareAgree | FlightSimulator/Source/DiamondSquare.h:25-41 | an edge midpoint is determined by its neighbours and its displacement |
| Uniqueness.DiamondMeanAgree | FlightSimulator/Source/DiamondSquare.h:16-19 | the diamond average depends on the four corners only |
| Uniqueness.SquareMeanAgree | FlightSimulator/Source/DiamondSquare.h:28-38 | the square average depends on the present neighbours only |
| Uniqueness.CornersAgree | FlightSimulator/Source/DiamondSquare.h:16-19 | grids that agree on a lattice have equal diamond averages over its cells |
| Uniqueness.DiamondCorners | FlightSimulator/Source/DiamondSquare.h:16-20 | the corners diamondStep reads for a midpoint of pass e lie on the lattice of step 2^e |
| Progress.DiamondReady | FlightSimulator/Source/DiamondSquare.h:16-20 | inside the diamond loop, the four corners of the current cell are written and its midpoint is not |
| Progress.SquareReady | FlightSimulator/Source/DiamondSquare.h:27-40 | inside the square loop, every neighbour squareStep reads is written and the target cell is not |
| Progress.DiamondPhaseAdvance | FlightSimulator/Source/DiamondSquare.h:65-67 | a diamondStep carries the diamond-loop state from cell (tx, ty) to (tx + 1, ty) |
| Progress.SquarePhaseAdvance | FlightSimulator/Source/DiamondSquare.h:74-76 | a squareStep carries the square-loop state from point t of row j to point t + 1 |
| Progress.DiamondCellDone | FlightSimulator/Source/DiamondSquare.h:20 | the midpoint written by diamondStep is finished: it holds its value and all it depends on is written |
| Progress.DiamondOkAfterStep | FlightSimulator/Source/DiamondSquare.h:20 | the value diamondStep writes is the value Generated asks for at that midpoint |
| Progress.SquareCellDone | FlightSimulator/Source/DiamondSquare.h:40 | the point written by squareStep is finished |
| Progress.SquareOkAfterStep | FlightSimulator/Source/DiamondSquare.h:40 | the value squareStep writes is the value Generated asks for at that point |
| Progress.DiamondDrawAt | FlightSimulator/Source/DiamondSquare.h:66 | the draw the diamond loop hands to cell (tx, ty) is the one Generated assigns to its midpoint |
| Progress.SquareDrawAt | FlightSimulator/Source/DiamondSquare.h:75 | the draw the square loop hands to point t of row j is the one Generated assigns to it |
| Progress.PassDraws | FlightSimulator/Source/DiamondSquare.h:62-81 | a pass takes exactly the draws between its start and the start of the next pass |
| Progress.SquareRowBase | FlightSimulator/Source/DiamondSquare.h:72-74 | the draws taken before an even row j of the square loop are (j / 2) * (2c + 1) |
| Progress.SquareRowBaseNext | FlightSimulator/Source/DiamondSquare.h:72-77 | each row of the square loop takes as many draws as it has points |
| Progress.DiamondColumnBound | FlightSimulator/Source/DiamondSquare.h:64-65 | the diamond loop bound x < size - stepSize admits exactly the c cells of a row |
| Progress.SquareColumnBound | FlightSimulator/Source/DiamondSquare.h:74 | the square loop bound x < size admits exactly the points of row j |
| Progress.SquareRowBound | FlightSimulator/Source/DiamondSquare.h:72 | the y loop of the square step visits exactly the rows 0 .. 2c |
| Progress.DiamondRowEnd | FlightSimulator/Source/DiamondSquare.h:65 | the end of a row of the diamond loop is the start of the next row |
| Progress.SquareRowEnd | FlightSimulator/Source/DiamondSquare.h:74 | the end of a row of the square loop is the start of the next row |
| Progress.DiamondToSquare | FlightSimulator/Source/DiamondSquare.h:69-71 | after the last diamond row, every cell midpoint is finished and the square loop starts |
| Progress.SquarePassEnd | FlightSimulator/Source/DiamondSquare.h:78-80 | after the last square row, the lattice of half the step size is finished |
| Progress.SeedStart | FlightSimulator/Source/DiamondSquare.h:56-61 | once the corners are seeded, the first pass starts with step size size - 1 |
| Progress.PassesFinished | FlightSimulator/Source/DiamondSquare.h:62-81 | when the step size reaches 1, the grid is Generated and every cell is written once |
| Progress.AllWritten | FlightSimulator/Source/DiamondSquare.h:62 | the lattice of step 1 is the whole grid |
| Progress.EarlierFrame | FlightSimulator/Source/DiamondSquare.h:20 | writing a cell that is not yet written leaves the finished earlier passes finished |
| Particles.DefaultParticle | FlightSimulator/Source/ParticleSystem.h:15-17 | Particle(): rotation and timeAlive start at 0 |
| Particles.NewParticle | FlightSimulator/Source/ParticleSystem.h:9-14 | the four-argument constructor sets exactly position, scale, velocity and lifetime |
| Particles.Advance | FlightSimulator/Source/ParticleSystem.cpp:85-88 | updateParticle moves by velocity * dt and ages by dt; nothing else changes |
| Particles.Expired | FlightSimulator/Source/ParticleSystem.cpp:94 | the removal test: a particle has expired once timeAlive >= lifetime. Survivors and LiveSurvive use it |
| Particles.Survivors | FlightSimulator/Source/ParticleSystem.cpp:92-94 | the survivors of a frame are never expired and never more than the particles |
| Particles.SurvivorsConcat | FlightSimulator/Source/ParticleSystem.cpp:92-101 | survival is decided particle by particle: the survivors of a concatenation are the concatenation of the survivors |
| Particles.SurvivorsCount | FlightSimulator/Source/ParticleSystem.cpp:92-101 | the survivors number exactly the particles less those counted, one by one, by the reference ExpiredCount |
| ParticleSystems.RemoveExpired | FlightSimulator/Source/ParticleSystem.cpp:92-101 | the update loop leaves exactly the advanced survivors in the live prefix, in some order; none of them is expired, and slots past the old live range are untouched |
| ParticleSystems.RemovalStep | FlightSimulator/Source/ParticleSystem.cpp:93-100 | one iteration keeps the loop invariant and makes progress |
| ParticleSystems.DropSlot | FlightSimulator/Source/ParticleSystem.cpp:95-99 | the expired branch: the last live particle moves into the slot and the slot is looked at again |
| ParticleSystems.RemovalKeep | FlightSimulator/Source/ParticleSystem.cpp:93-94 | an advanced particle that survives stays in its slot |
| ParticleSystems.RemovalSwap | FlightSimulator/Source/ParticleSystem.cpp:95-98 | swapping the last live particle into an expired slot keeps the multiset of survivors still to come |
| ParticleSystems.SwapSurvivors | FlightSimulator/Source/ParticleSystem.cpp:97 | the particles still to be looked at have the same survivors after the swap, because the replaced particle has expired |
| ParticleSystems.RemovalLast | FlightSimulator/Source/ParticleSystem.cpp:95-98 | when the last live particle expires, nothing is left to look at |
| ParticleSystems.StepEmpty | FlightSimulator/Source/ParticleSystem.cpp:95-96 | when the only live particle expires, the live range becomes empty and the loop ends |
| ParticleSystems.SurvivorsRotate | FlightSimulator/Source/ParticleSystem.cpp:97 | the survivors do not depend on the end a particle is taken from |
| ParticleSystems.LiveSurvive | FlightSimulator/Source/ParticleSystem.cpp:92 | at loop exit, the live prefix is exactly the survivors and none of them is expired |
| ParticleSystems.DefaultSettings | FlightSimulator/Source/ParticleSystem.h:37-40 | the constructor's configuration: the member initialisers velocity 0, minSize = maxSize = 1, sphereRadiusSpawn 1, followParent false |
| ParticleSystems.ParticleSystem.constructor | FlightSimulator/Source/ParticleSystem.h:37-40 | a valid system with maxNumParticles default particles and nothing live |
| ParticleSystems.ParticleSystem.SetDirection | FlightSimulator/Source/ParticleSystem.h:44-51 | setDirection sets the six direction bounds and no other field |
| ParticleSystems.DefaultsCannotSpawn | FlightSimulator/Source/ParticleSystem.h:63-64 | with the constructor's minSize = maxSize = 1, the size draw would be rand() % 0, so a default system cannot spawn |
| ParticleSystems.Hundredths | FlightSimulator/Source/ParticleSystem.cpp:116-118 | the `(int)` conversion that random applies to a float bound times 100, truncating toward zero |
| ParticleSystems.RandomHundredths | FlightSimulator/Source/ParticleSystem.cpp:116-118 | random(lo * 100, hi * 100) / 100 lies in [lo, hi) at hundredth precision |
| ParticleSystems.DirectionComponent | FlightSimulator/Source/ParticleSystem.cpp:16-18 | one coordinate of generateParticleDirection: (random(0, abs(hi - lo) * 100) + lo * 100) / 100. DirectionComponentBounds bounds it |
| ParticleSystems.DirectionComponentBounds | FlightSimulator/Source/ParticleSystem.cpp:16-18 | a direction coordinate of generateParticleDirection lies in [lo, lo + abs(hi - lo)), below hi when the bounds are in order |
| ParticleSystems.SpawnedParticleShape | FlightSimulator/Source/ParticleSystem.cpp:115-126 | a spawned particle is newborn and belongs to the system's parent. Its scale is (s, s, 1), and its size, lifetime and rotation come from their ranges. A following particle sits at the system position |
| ParticleSystems.SpawnedParticle | FlightSimulator/Source/ParticleSystem.cpp:115-126 | the i-th particle of a spawn batch, from draws k .. k + 5: size, lifetime, the three direction coordinates and rotation, in the source's order. A particle that does not follow its parent is placed by the parent's transformation, with the translation starting at the parent's current position and moved forward by i / toSpawn of the parent's displacement since the last frame. SpawnedParticleShape states its properties |
| ParticleSystems.ToSpawn | FlightSimulator/Source/ParticleSystem.cpp:105 | numParticlesToSpawn: the float product particlesPerSecond * timeSinceLastSpawn, converted to int by truncation. SpawnCount caps it by the free slots |
| ParticleSystems.SpawnCount | FlightSimulator/Source/ParticleSystem.cpp:104-114 | a frame spawns what is owed, capped by the free slots, and spawns nothing exactly when nothing is owed or the pool is full |
| ParticleSystems.SpawnLoopExit | FlightSimulator/Source/ParticleSystem.cpp:114 | the spawn loop stops after exactly SpawnCount iterations |
| ParticleSystems.SpawnedNext | FlightSimulator/Source/ParticleSystem.cpp:127-128 | writing the next spawned particle into the next slot extends the spawned run |
| ParticleSystems.SpawnAt | FlightSimulator/Source/ParticleSystem.cpp:115-129 | one spawn iteration writes the i-th spawned particle into slot num0 + i and changes no other slot |
| ParticleSystems.SpawnLoop | FlightSimulator/Source/ParticleSystem.cpp:114-130 | the spawn loop fills slots num0 .. num0 + c - 1 with the spawned particles and leaves every other slot alone. It takes six draws per particle and resets the spawn clock iff it spawned |
| ParticleSystems.ParticleSystem.UpdateParticles | FlightSimulator/Source/ParticleSystem.cpp:91-101 | the first part of the update: the live range becomes the survivors and shrinks by exactly ExpiredCount; the configuration is unchanged |
| ParticleSystems.ParticleSystem.SpawnParticles | FlightSimulator/Source/ParticleSystem.cpp:103-131 | the second part: spawn clock, spawned particles appended to the live range, and the parent's last position updated |
| ParticleSystems.DepthKeys | FlightSimulator/Source/ParticleSystem.cpp:40-59 | the first loop of sortParticles: one (camera-depth key, slot) pair per live particle |
| ParticleSystems.CopyLive | FlightSimulator/Source/ParticleSystem.cpp:61-64 | the copy of the live particles equals the live range |
| ParticleSystems.CopyBack | FlightSimulator/Source/ParticleSystem.cpp:71-73 | slot i receives the copy of the particle the i-th pair points at, and later slots are untouched |
| ParticleSystems.SortParticles | FlightSimulator/Source/ParticleSystem.cpp:24-83 | sortParticles returns at once on an empty range, otherwise rearranges the live range as SortedAsWritten and leaves the rest alone |
| ParticleSystems.ParticleSystem.SortLive | FlightSimulator/Source/ParticleSystem.cpp:135 | the third part: the live range is depth-sorted as written |
| ParticleSystems.ParticleSystem.UpdateParticleSystem | FlightSimulator/Source/ParticleSystem.cpp:90-136 | one frame: survivors, then spawned particles, then the sort as written, with the configuration and pool unchanged |
| DepthSort.Insert | FlightSimulator/Source/ParticleSystem.cpp:67-69 | inserting a pair adds exactly that pair |
| DepthSort.Key | FlightSimulator/Source/ParticleSystem.cpp:54-55 | the depth key: the dot product of (position - camera) with the camera's forward vector |
| DepthSort.InsertSorted | FlightSimulator/Source/ParticleSystem.cpp:67-69 | inserting into a descending run keeps it descending |
| DepthSort.SortDesc | FlightSimulator/Source/ParticleSystem.cpp:67-69 | the reference sort by key, descending, is a permutation |
| DepthSort.SortDescSorted | FlightSimulator/Source/ParticleSystem.cpp:67-69 | the reference sort's result is descending by key, as the comparator a.first > b.first asks |
| DepthSort.Entries | FlightSimulator/Source/ParticleSystem.cpp:44-59 | pair i is (dot(position - camera, forward), i) |
| DepthSort.Gather | FlightSimulator/Source/ParticleSystem.cpp:71-73 | result i is the particle at the slot pair i names |
| DepthSort.GatherEntries | FlightSimulator/Source/ParticleSystem.cpp:56-72 | gathering along the unsorted pairs gives back the particles |
| DepthSort.GatherPermutation | FlightSimulator/Source/ParticleSystem.cpp:71-73 | gathering along two rearrangements of the same pairs gives the same multiset of particles |
| DepthSort.ArrangedAsWritten | FlightSimulator/Source/ParticleSystem.cpp:66-69 | std::sort(sortArray, last) with last = &sortArray[n - 1] rearranges the pairs |
| DepthSort.SortedAsWritten | FlightSimulator/Source/ParticleSystem.cpp:44-73 | what sortParticles leaves in the live range: the particles gathered along the pairs as the sort as written arranges them, with as many particles as before. Its properties are the three SortedAsWritten lemmas |
| DepthSort.SortedByDepth | FlightSimulator/Source/ParticleSystem.cpp:44-73 | the corrected sort over the whole range, with as many particles as before. SortedByDepthCorrect proves it a permutation, farthest first |
| DepthSort.SortedAsWrittenPermutation | FlightSimulator/Source/ParticleSystem.cpp:66-73 | the sort as written only rearranges the live particles |
| DepthSort.SortedAsWrittenOrder | FlightSimulator/Source/ParticleSystem.cpp:66-73 | the sort as written orders the first n - 1 particles farthest first |
| DepthSort.SortedAsWrittenLast | FlightSimulator/Source/ParticleSystem.cpp:66 | the last live particle stays in the last slot whatever its depth |
| DepthSort.SortEndCounterexample | FlightSimulator/Source/ParticleSystem.cpp:66-69 | for two particles with the farther one in the last slot, the sort as written keeps near before far, and the corrected sort puts far first |
| DepthSort.PairAsWritten | FlightSimulator/Source/ParticleSystem.cpp:66-73 | on two particles, the sort as written changes nothing |
| DepthSort.PairByDepth | FlightSimulator/Source/ParticleSystem.cpp:67-73 | on two particles, the corrected sort puts the farther one first |
| DepthSort.SortedByDepthCorrect | FlightSimulator/Source/ParticleSystem.cpp:66-73 | the corrected sort is a permutation of all live particles, farthest first |
| World.Collide | FlightSimulator/Source/Main.cpp:99-102 | a body below the terrain is lifted onto it with zero vertical velocity, and any other body is unchanged. Afterwards the body never sinks below the terrain |
| World.CollideIdempotent | FlightSimulator/Source/Main.cpp:99-102 | a second collision with the same terrain changes nothing |
| World.Tile | FlightSimulator/Source/Main.cpp:96-97 | the tile a coordinate falls in: the `(int)` conversion of coordinate / tileSize, which truncates toward zero. TileInRange bounds it |
| World.CellOf | FlightSimulator/Source/Main.cpp:96-98 | the heightmap index terrainCollision reads: tileZ * size + tileX. CellInBounds bounds it |
| Vectors.Trunc | FlightSimulator/Source/Main.cpp:96-97 | C's float-to-int conversion: the integer part, rounded toward zero for negative values as well |
| World.TerrainCollision | FlightSimulator/Source/Main.cpp:95-103 | terrainCollision applies Collide with the height of the cell the truncated tile coordinates name |
| World.Physics | FlightSimulator/Source/Main.cpp:86-92 | one call of runPhysics on an entity's state. VelocityIgnoresDt, ImpulseAppliedOnce and JumpLifts state its properties |
| World.TileInRange | FlightSimulator/Source/Main.cpp:96-97 | a coordinate inside (-tileSize, size * tileSize) truncates to a tile in [0, size) |
| World.QuotientBetween | FlightSimulator/Source/Main.cpp:96-97 | dividing by a positive tile size keeps both strict bounds |
| World.CellInBounds | FlightSimulator/Source/Main.cpp:96-98 | for a position over the grid, the heightmap read is in bounds |
| World.RunPhysics | FlightSimulator/Source/Main.cpp:86-92 | runPhysics: velocity += impulse + gravity, the impulse is cleared, and position += new velocity * dt |
| World.VelocityIgnoresDt | FlightSimulator/Source/Main.cpp:88-90 | the velocity change of a step does not depend on dt |
| World.ImpulseAppliedOnce | FlightSimulator/Source/Main.cpp:88-90 | over n steps, the impulse is applied exactly once and gravity n times |
| World.JumpLifts | FlightSimulator/Source/Main.cpp:733-736 | the physics step after a jump raises the vertical velocity by 19.6 (the impulse of 20 minus gravity's 0.4) and leaves the horizontal velocity alone |
| World.RunwayHeight | FlightSimulator/Source/Main.cpp:646 | the avgHeight as written, first height + second height / 2 + 45. RunwayHeightNotAverage shows that it is not an average |
| World.RunwayLevel | FlightSimulator/Source/Main.cpp:646 | the corrected avgHeight, (first + second) / 2 + 45. RunwayLevelBetween places it between the two heights |
| World.MakeRunway | FlightSimulator/Source/Main.cpp:645-652 | every cell of columns 3..8 and rows 3..30 gets the one height computed before the loops, and every other cell keeps its height |
| World.PaintCell | FlightSimulator/Source/Main.cpp:649 | writing cell (x, z) extends the painted part by that cell and nothing else |
| World.PaintNextColumn | FlightSimulator/Source/Main.cpp:647-648 | a finished column hands over to the next one |
| World.PaintedIsRunway | FlightSimulator/Source/Main.cpp:647-651 | after the last column, the painted cells are exactly the runway rectangle |
| World.RunwayHeightNotAverage | FlightSimulator/Source/Main.cpp:646 | the height as written is no average: two cells of height h > 0 give 1.5 h + 45 |
| World.RunwayLevelBetween | FlightSimulator/Source/Main.cpp:646 | the averaged height lies 45 above a value between the two cells |
| World.NewKeyState | FlightSimulator/Source/Main.cpp:492-498 | handleKeyChange: a press sets the flag, a release clears it, and a repeat keeps it |
| World.ApplyActionsSnoc | FlightSimulator/Source/Main.cpp:492-498 | feeding one more action applies handleKeyChange once more |
| World.KeyFollowsLastAction | FlightSimulator/Source/Main.cpp:492-498 | after any series of actions, the flag equals what the last press or release decided (the reference LastDecisive) |
| World.Input.KeyCallback | FlightSimulator/Source/Main.cpp:506-542 | each of W, S, A, D and the arrows updates its own flag only, and a press of space sets jump |
| World.ConsumeJump | FlightSimulator/Source/Main.cpp:733-736 | a pending jump is cleared and becomes the impulse (0, 20, 0), and the movement flags are untouched |

## Left out

- Rendering, shaders, textures, window and file handling, timing
  (`QueryPerformanceCounter`, `glfwGetTime`) and console output are not
  modelled. The cost measurement in sortParticles is dropped for the same
  reason.
- The airplane model (`airplanePhysics`), the steering surfaces, the entity
  transforms, the camera and `EntityFactory` are not part of this model.
  Physics.cpp is not part of this model.
- Floats are modelled as exact reals. Rounding, overflow to infinity and
  NaN are not modelled.
- `rand`, `srand` and `time` become the oracle `draws`, the seed-to-oracle
  map `prng` and the parameter `clock`. The state of the C library
  generator is not modelled.
- DiamondSquare.DiamondSquare: requires smoothness != 0.0. With a zero
  smoothness, IEEE float division makes every displacement an infinity or
  NaN, and real arithmetic has no such values. The same precondition
  appears on the helpers that divide by smoothness.
- The assertion that size is 2^n + 1 becomes the precondition `ValidSize`
  of DiamondSquare.DiamondSquare, since the source gives no defined
  behaviour for other sizes.
- Heightmap.SquareBorder: the `(a + b + c + d) / 3` branch is only shown
  to average exactly the present neighbours for the points the square loop
  visits, not for arbitrary arguments.
- `glm::normalize` in generateParticleDirection and the parent
  transformation that places a spawned particle become the function
  parameters `normalize` and `placeAt`, so their floating-point geometry is
  not modelled. For a system without a parent entity, the caller passes
  the origin as the parent position, which is what the identity matrix
  gives.
- The parent transformation applied in the first loop of sortParticles,
  for systems that follow their parent, is left out: the keys are computed
  from the stored positions.
- `std::sort` is not stable and its order among equal keys is unspecified.
  The model fixes one order, an insertion sort by descending key. Every
  property stated about it depends only on the keys.
- Fields the C++ constructors leave uninitialised start at zero in the
  model, and parent pointers start as `NoEntity`. The model therefore does
  not capture reads of indeterminate values. The fields are:
  - in `ParticleSystem(maxNumParticles)` (ParticleSystem.h:37-40):
    position, particlesPerSecond, numParticles, timeSinceLastSpawn,
    minLifetime, maxLifetime, minX, maxX, minY, maxY, minZ, maxZ and
    parentEntity. So a fresh system owes no particles
    (particlesPerSecond is 0) until the caller sets its configuration;
  - in `Particle()` (ParticleSystem.h:15-17): parentEntity, scale,
    position, velocity and lifetime;
  - in the four-argument `Particle` constructor (ParticleSystem.h:9-14):
    parentEntity.
- The model, texture and atlas fields of ParticleSystem only serve
  rendering and are not modelled. The sphereRadiusSpawn field is kept but
  never read, as in the source.
- Spawning requires non-empty draw ranges (`SpawnRangesOk`), because the
  source would evaluate `rand() % 0` otherwise. The requirement applies
  only when a frame actually spawns a particle, that is, when SpawnCount
  is positive for the number of survivors. A full pool or a frame that
  owes nothing draws nothing and needs no ranges. The division by zero
  itself is not modelled as a behaviour.
- World.TerrainCollision requires a non-zero tile size and an in-bounds
  cell, because the source reads the heightmap without checking;
  CellInBounds gives the positions for which this holds.
- World.RunPhysics: the `ground` argument is accepted and ignored, as in the
  source.
- The remaining lines of the main loop (camera interpolation, the airplane
  step, drawing) are not modelled. Only the jump handling is.

## Findings

| source | as written | input that shows it | evidently intended | confidence | as-written member | corrected member |
|---|---|---|---|---|---|---|
| FlightSimulator/Source/ParticleSystem.cpp:66-67 | `std::sort(sortArray, last, ...)` with `last = &sortArray[numParticles - 1]` sorts only the first n - 1 pairs, and the last live particle is never moved | two live particles with the farther one in the last slot: they stay front to back and are drawn in the wrong blending order | sort the whole range `[sortArray, sortArray + numParticles)` farthest first | high, not executed | DepthSort.SortEndCounterexample (over DepthSort.SortedAsWritten, with DepthSort.SortedAsWrittenLast) | DepthSort.SortedByDepthCorrect (over DepthSort.SortedByDepth) |
| FlightSimulator/Source/Main.cpp:646 | `heightmap[3 * size + 8] + heightmap[80 * size + 8] / 2.0f`: by precedence only the second height is halved | two cells both at height h > 0 give a runway at 1.5 h + 45 instead of h + 45 | the average `(a + b) / 2` that the name avgHeight announces | high, not executed | World.RunwayHeightNotAverage (over World.RunwayHeight, used by World.MakeRunway) | World.RunwayLevelBetween (over World.RunwayLevel) |
