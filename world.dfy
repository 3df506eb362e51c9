/** The small in-place helpers of Main.cpp: the physics step and the terrain
    collision of an entity, the runway flattened into the generated
    heightmap, and the keyboard flags set by the GLFW key callback and read
    by the main loop. */
module World {
  import opened Vectors
  import opened Arith
  import opened Heightmap

  /** The physical state of an Entity: where it is, how it moves, the
      one-shot impulse waiting to be applied, and the offset from its
      centre to the point that touches the ground. */
  datatype Body = Body(position: Vec3, velocity: Vec3, impulse: Vec3, contact: real)

  /** The gravity runPhysics adds on every call, with no dt factor. */
  const Gravity: Vec3 := Vec3(0.0, -0.4, 0.0)

  /** The impulse the main loop gives the box when a jump is pending. */
  const JumpImpulse: Vec3 := Vec3(0.0, 20.0, 0.0)

  /** runPhysics: the pending impulse and gravity are added to the velocity
      in full, the impulse is cleared, and the position moves by
      velocity * dt. */
  function Physics(b: Body, dt: real): Body
  {
    var v := Add(b.velocity, Add(b.impulse, Gravity));
    Body(Add(b.position, Scale(v, dt)), v, Zero, b.contact)
  }

  /** The state after n calls of runPhysics with the same dt. */
  function Frames(b: Body, dt: real, n: nat): Body
    decreases n
  {
    if n == 0 then b else Frames(Physics(b, dt), dt, n - 1)
  }

  /** The velocity change of a step does not depend on dt: the frame time
      only scales the move of the position. */
  lemma VelocityIgnoresDt(b: Body, dt1: real, dt2: real)
    ensures Physics(b, dt1).velocity == Physics(b, dt2).velocity
    ensures Physics(b, dt1).impulse == Physics(b, dt2).impulse
  {
  }

  /** An impulse counts once: after n >= 1 steps the velocity has gained
      the impulse a single time and gravity n times. */
  lemma {:induction false} ImpulseAppliedOnce(b: Body, dt: real, n: nat)
    requires n >= 1
    ensures Frames(b, dt, n).impulse == Zero
    ensures Frames(b, dt, n).velocity == Add(Add(b.velocity, b.impulse), Scale(Gravity, n as real))
    decreases n
  {
    var b1 := Physics(b, dt);
    if n > 1 {
      ImpulseAppliedOnce(b1, dt, n - 1);
      assert Frames(b, dt, n) == Frames(b1, dt, n - 1);
    }
  }

  /** A jump frame lifts the box: the impulse of 20 less one step of gravity
      is added to the vertical velocity. */
  lemma JumpLifts(b: Body, dt: real)
    ensures Physics(b.(impulse := JumpImpulse), dt).velocity.y == b.velocity.y + 19.6
    ensures Physics(b.(impulse := JumpImpulse), dt).velocity.x == b.velocity.x
    ensures Physics(b.(impulse := JumpImpulse), dt).velocity.z == b.velocity.z
  {
  }

  /** The tile a world coordinate falls in: the (int) cast of the division,
      which truncates toward zero. */
  function Tile(coordinate: real, tileSize: real): int
    requires tileSize != 0.0
  {
    Trunc(coordinate / tileSize)
  }

  /** The heightmap cell terrainCollision reads for a position. */
  function CellOf(position: Vec3, size: int, tileSize: real): int
    requires tileSize != 0.0
  {
    Index(Tile(position.x, tileSize), Tile(position.z, tileSize), size)
  }

  /** A coordinate strictly inside (-tileSize, size * tileSize) lands on a
      tile in [0, size): the truncation also maps the sliver just below zero
      to tile 0. */
  lemma TileInRange(coordinate: real, size: int, tileSize: real)
    requires size > 0 && tileSize > 0.0 && -tileSize < coordinate < size as real * tileSize
    ensures 0 <= Tile(coordinate, tileSize) < size
  {
    QuotientBetween(coordinate, -1.0, size as real, tileSize);
    var q, t := coordinate / tileSize, Tile(coordinate, tileSize);
    assert t == Trunc(q);
    assert -1.0 < t as real < size as real;
  }

  /** Dividing by a positive number keeps a strict order on both sides. */
  lemma QuotientBetween(a: real, lo: real, hi: real, d: real)
    requires d > 0.0 && lo * d < a < hi * d
    ensures lo < a / d < hi
  {
    var q := a / d;
    assert q * d == a;
    assert (hi - q) * d > 0.0;
    assert (q - lo) * d > 0.0;
  }

  /** The read of terrainCollision is in bounds for every position whose x
      and z lie within the grid (allowing for the truncation). */
  lemma CellInBounds(position: Vec3, size: int, tileSize: real, heightmapLength: int)
    requires size > 0 && tileSize > 0.0 && heightmapLength == size * size
    requires -tileSize < position.x < size as real * tileSize
    requires -tileSize < position.z < size as real * tileSize
    ensures 0 <= CellOf(position, size, tileSize) < heightmapLength
  {
    TileInRange(position.x, size, tileSize);
    TileInRange(position.z, size, tileSize);
  }

  /** The collision response for the height of the cell under the entity:
      a body below the terrain is lifted onto it and stops falling; any
      other body is left alone. */
  function Collide(b: Body, height: real): (r: Body)
    ensures r.position.y + r.contact >= height
    ensures r == b <==> height <= b.position.y + b.contact
    ensures r != b ==> r.position.y + r.contact == height && r.velocity.y == 0.0
    ensures r.position.x == b.position.x && r.position.z == b.position.z
    ensures r.velocity.x == b.velocity.x && r.velocity.z == b.velocity.z
    ensures r.impulse == b.impulse && r.contact == b.contact
  {
    if height > b.position.y + b.contact then
      b.(position := b.position.(y := height - b.contact), velocity := b.velocity.(y := 0.0))
    else
      b
  }

  /** A second collision with the same terrain changes nothing. */
  lemma CollideIdempotent(b: Body, height: real)
    ensures Collide(Collide(b, height), height) == Collide(b, height)
  {
  }

  /** The height makeRunwayOnHeightmap gives the runway, from the heights
      of cells (8, 3) and (8, 80), as written: only the second is halved. */
  function RunwayHeight(near: real, far: real): real
  {
    near + far / 2.0 + 45.0
  }

  /** The named avgHeight is not the average of the two cells: two cells
      of equal height h > 0 give a runway at 1.5 h + 45, above both. */
  lemma RunwayHeightNotAverage(h: real)
    requires h > 0.0
    ensures RunwayHeight(h, h) > h + 45.0
    ensures RunwayHeight(h, h) != RunwayLevel(h, h)
  {
  }

  /** The runway height with the average the variable name announces. */
  function RunwayLevel(near: real, far: real): real
  {
    (near + far) / 2.0 + 45.0
  }

  /** The averaged runway lies 45 above a height between the two cells. */
  lemma RunwayLevelBetween(near: real, far: real)
    ensures near <= far ==> near + 45.0 <= RunwayLevel(near, far) <= far + 45.0
    ensures far <= near ==> far + 45.0 <= RunwayLevel(near, far) <= near + 45.0
    ensures near == far ==> RunwayLevel(near, far) == near + 45.0
  {
  }

  /** The runway rectangle: columns 3 to 8 and rows 3 to 30. */
  predicate OnRunway(x: int, z: int)
  {
    3 <= x <= 8 && 3 <= z <= 30
  }

  /** The cells the two loops have painted once column x has reached row z. */
  predicate Painted(col: int, row: int, x: int, z: int)
  {
    (3 <= col < x && 3 <= row <= 30) || (col == x && 3 <= row < z)
  }

  ghost predicate RunwayPainted(hm: seq<real>, orig: seq<real>, size: int, x: int, z: int, v: real)
    requires size > 0
  {
    |hm| == |orig| &&
    forall i | 0 <= i < |hm| :: hm[i] == if Painted(i % size, i / size, x, z) then v else orig[i]
  }

  lemma PaintCell(hm: seq<real>, orig: seq<real>, size: int, x: int, z: int, v: real, p: int)
    requires size > 8 && 3 <= x <= 8 && 3 <= z <= 30
    requires RunwayPainted(hm, orig, size, x, z, v)
    requires p == Index(x, z, size) && 0 <= p < |hm|
    ensures RunwayPainted(hm[p := v], orig, size, x, z + 1, v)
  {
    IndexRoundTrip(x, z, size);
    forall i | 0 <= i < |hm| && i != p
      ensures !(i % size == x && i / size == z)
    {
      DivModSplit(i, size);
    }
  }

  lemma PaintNextColumn(hm: seq<real>, orig: seq<real>, size: int, x: int, v: real)
    requires size > 0 && x >= 3
    requires RunwayPainted(hm, orig, size, x, 31, v)
    ensures RunwayPainted(hm, orig, size, x + 1, 3, v)
  {
  }

  lemma PaintedIsRunway(hm: seq<real>, orig: seq<real>, size: int, v: real)
    requires size > 0
    requires RunwayPainted(hm, orig, size, 9, 3, v)
    ensures forall i | 0 <= i < |hm| :: hm[i] == if OnRunway(i % size, i / size) then v else orig[i]
  {
  }

  /** makeRunwayOnHeightmap: every cell of the runway rectangle gets one
      common height, computed from two cells before any is overwritten;
      every other cell keeps its height. The grid is the size x size buffer
      the diamond-square generator fills, and size > 80 keeps the read of
      row 80 inside it. */
  method MakeRunway(heightmap: array<real>, size: int)
    requires size > 80 && heightmap.Length == size * size
    modifies heightmap
    ensures forall i | 0 <= i < heightmap.Length ::
      heightmap[i] == if OnRunway(i % size, i / size)
                      then RunwayHeight(old(heightmap[Index(8, 3, size)]), old(heightmap[Index(8, 80, size)]))
                      else old(heightmap[i])
  {
    ghost var orig := heightmap[..];
    var avgHeight := heightmap[Index(8, 3, size)] + heightmap[Index(8, 80, size)] / 2.0;
    var v := avgHeight + 45.0;
    var x := 3;
    while x <= 8
      invariant 3 <= x <= 9
      invariant RunwayPainted(heightmap[..], orig, size, x, 3, v)
    {
      var z := 3;
      while z <= 30
        invariant 3 <= z <= 31
        invariant RunwayPainted(heightmap[..], orig, size, x, z, v)
      {
        var p := Index(x, z, size);
        PaintCell(heightmap[..], orig, size, x, z, v, p);
        heightmap[p] := v;
        z := z + 1;
      }
      PaintNextColumn(heightmap[..], orig, size, x, v);
      x := x + 1;
    }
    PaintedIsRunway(heightmap[..], orig, size, v);
  }

  /** An entity of the scene, reduced to the fields the physics and the
      collision read and write. */
  class Entity {
    var position: Vec3
    var velocity: Vec3
    var impulse: Vec3
    var centerToGroundContactPoint: real

    function State(): Body
      reads this
    {
      Body(position, velocity, impulse, centerToGroundContactPoint)
    }
  }

  /** runPhysics: one step of the entity. The ground entity is a parameter
      of the source that the step never reads. */
  method RunPhysics(ground: Entity, entity: Entity, dt: real)
    modifies entity
    ensures entity.State() == Physics(old(entity.State()), dt)
  {
    var netForce := Add(entity.impulse, Gravity);
    entity.impulse := Zero;
    entity.velocity := Add(entity.velocity, netForce);
    entity.position := Add(entity.position, Scale(entity.velocity, dt));
  }

  /** terrainCollision: look up the height of the cell under the entity
      (no bounds check in the source, so the caller keeps the entity over
      the grid, see CellInBounds) and lift the entity onto the terrain if
      it has sunk below it. */
  method TerrainCollision(heightmap: array<real>, size: int, tileSize: real, entity: Entity)
    requires tileSize != 0.0 && 0 <= CellOf(entity.position, size, tileSize) < heightmap.Length
    modifies entity
    ensures entity.State() == Collide(old(entity.State()), heightmap[old(CellOf(entity.position, size, tileSize))])
  {
    var tileX := Tile(entity.position.x, tileSize);
    var tileZ := Tile(entity.position.z, tileSize);
    var height := heightmap[Index(tileX, tileZ, size)];
    if height > entity.position.y + entity.centerToGroundContactPoint {
      entity.position := entity.position.(y := height - entity.centerToGroundContactPoint);
      entity.velocity := entity.velocity.(y := 0.0);
    }
  }

  /** The GLFW action codes. */
  const Release: int := 0
  const Press: int := 1

  /** The GLFW key codes the callback listens to. */
  const KeySpace: int := 32
  const KeyA: int := 65
  const KeyD: int := 68
  const KeyS: int := 83
  const KeyW: int := 87
  const KeyRight: int := 262
  const KeyLeft: int := 263
  const KeyDown: int := 264
  const KeyUp: int := 265

  /** handleKeyChange: a press sets the flag, a release clears it, and any
      other action (a repeat) keeps it. */
  function NewKeyState(current: bool, action: int): (held: bool)
    ensures action == Press ==> held
    ensures action == Release ==> !held
    ensures action != Press && action != Release ==> held == current
  {
    if action == Press then true else if action == Release then false else current
  }

  /** The flag after the callback has seen a series of actions, one at a
      time. */
  function ApplyActions(current: bool, actions: seq<int>): bool
    decreases |actions|
  {
    if |actions| == 0 then current else ApplyActions(NewKeyState(current, actions[0]), actions[1..])
  }

  /** Reference definition: the flag is decided by the last press or
      release, and is the initial value when there is none. */
  function LastDecisive(current: bool, actions: seq<int>): bool
    decreases |actions|
  {
    if |actions| == 0 then current
    else if actions[|actions| - 1] == Press then true
    else if actions[|actions| - 1] == Release then false
    else LastDecisive(current, actions[..|actions| - 1])
  }

  lemma {:induction false} ApplyActionsSnoc(current: bool, actions: seq<int>, a: int)
    ensures ApplyActions(current, actions + [a]) == NewKeyState(ApplyActions(current, actions), a)
    decreases |actions|
  {
    if |actions| > 0 {
      assert (actions + [a])[1..] == actions[1..] + [a];
      ApplyActionsSnoc(NewKeyState(current, actions[0]), actions[1..], a);
    }
  }

  /** The key flags follow the last press or release of their key. */
  lemma {:induction false} KeyFollowsLastAction(current: bool, actions: seq<int>)
    ensures ApplyActions(current, actions) == LastDecisive(current, actions)
    decreases |actions|
  {
    if |actions| > 0 {
      var init, a := actions[..|actions| - 1], actions[|actions| - 1];
      assert actions == init + [a];
      ApplyActionsSnoc(current, init, a);
      KeyFollowsLastAction(current, init);
    }
  }

  /** The global key flags of Main.cpp. */
  class Input {
    var isForward: bool
    var isBackward: bool
    var isLeft: bool
    var isUp: bool
    var isRight: bool
    var isDown: bool
    var isStrideLeft: bool
    var isStrideRight: bool
    var jump: bool

    /** key_callback: the flag of the key that changed follows the action;
        a press of space requests a jump, which only the main loop clears. */
    method KeyCallback(key: int, action: int)
      modifies this
      ensures isForward == if key == KeyW then NewKeyState(old(isForward), action) else old(isForward)
      ensures isBackward == if key == KeyS then NewKeyState(old(isBackward), action) else old(isBackward)
      ensures isStrideLeft == if key == KeyA then NewKeyState(old(isStrideLeft), action) else old(isStrideLeft)
      ensures isStrideRight == if key == KeyD then NewKeyState(old(isStrideRight), action) else old(isStrideRight)
      ensures isLeft == if key == KeyLeft then NewKeyState(old(isLeft), action) else old(isLeft)
      ensures isRight == if key == KeyRight then NewKeyState(old(isRight), action) else old(isRight)
      ensures isUp == if key == KeyUp then NewKeyState(old(isUp), action) else old(isUp)
      ensures isDown == if key == KeyDown then NewKeyState(old(isDown), action) else old(isDown)
      ensures jump <==> old(jump) || (key == KeySpace && action == Press)
    {
      if key == KeyW {
        isForward := NewKeyState(isForward, action);
      }
      if key == KeyS {
        isBackward := NewKeyState(isBackward, action);
      }
      if key == KeyA {
        isStrideLeft := NewKeyState(isStrideLeft, action);
      }
      if key == KeyD {
        isStrideRight := NewKeyState(isStrideRight, action);
      }
      if key == KeyLeft {
        isLeft := NewKeyState(isLeft, action);
      }
      if key == KeyRight {
        isRight := NewKeyState(isRight, action);
      }
      if key == KeyUp {
        isUp := NewKeyState(isUp, action);
      }
      if key == KeyDown {
        isDown := NewKeyState(isDown, action);
      }
      if key == KeySpace && action == Press {
        jump := true;
      }
    }
  }

  /** The jump handling at the top of the main loop: a pending jump is
      cleared and turned into the box's impulse; without one nothing
      changes. */
  method ConsumeJump(input: Input, box: Entity)
    modifies input, box
    ensures !input.jump
    ensures box.State() == if old(input.jump) then old(box.State()).(impulse := JumpImpulse) else old(box.State())
    ensures input.isForward == old(input.isForward) && input.isBackward == old(input.isBackward)
    ensures input.isLeft == old(input.isLeft) && input.isRight == old(input.isRight)
    ensures input.isUp == old(input.isUp) && input.isDown == old(input.isDown)
    ensures input.isStrideLeft == old(input.isStrideLeft) && input.isStrideRight == old(input.isStrideRight)
  {
    if input.jump {
      input.jump := false;
      box.impulse := JumpImpulse;
    }
  }
}
