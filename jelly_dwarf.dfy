/** The jelly miner's player: a dwarf that flies on thrust, is pulled down by
    gravity, pushes itself out of the jelly nodes it overlaps and digs the
    ones its held directions call for. Shooting produces a Shot request that the
    game turns into a Weapon. */
module JellyDwarf {
  import opened Geometry
  import opened Wrappers
  import opened JellyCave

  /** The dwarf's body radius and mass. */
  const Radius := 20.0
  const Mass := 1.6
  /** Frames between two shots. */
  const ShootCooldownFrames := 18
  /** How far from the centre a weapon is spawned: radius * 1.2. */
  const MuzzleDistance := 24.0

  /** The five key codes one player uses. */
  datatype Controls = Controls(left: int, right: int, up: int, down: int, shoot: int)

  /** Player 1: A, D, W, S and F. */
  const Player1Keys := Controls(65, 68, 87, 83, 70)
  /** Player 2: the arrow keys and K. */
  const Player2Keys := Controls(37, 39, 38, 40, 75)

  /** The held-direction flags. (The source's record also has a shoot flag
      that nothing ever sets; it is left out.) */
  datatype Input = Input(left: bool, right: bool, up: bool, down: bool)

  const NoInput := Input(false, false, false, false)

  /** Sets the flag of every direction whose key is kc. */
  function Press(i: Input, c: Controls, kc: int): (r: Input)
    ensures (i.left ==> r.left) && (i.right ==> r.right) && (i.up ==> r.up) && (i.down ==> r.down)
    ensures (kc == c.left ==> r.left) && (kc == c.right ==> r.right) && (kc == c.up ==> r.up) && (kc == c.down ==> r.down)
    ensures kc != c.left && kc != c.right && kc != c.up && kc != c.down ==> r == i
  {
    Input(i.left || kc == c.left, i.right || kc == c.right, i.up || kc == c.up, i.down || kc == c.down)
  }

  /** Clears the flag of every direction whose key is kc. */
  function Release(i: Input, c: Controls, kc: int): (r: Input)
    ensures (r.left ==> i.left) && (r.right ==> i.right) && (r.up ==> i.up) && (r.down ==> i.down)
    ensures (kc == c.left ==> !r.left) && (kc == c.right ==> !r.right) && (kc == c.up ==> !r.up) && (kc == c.down ==> !r.down)
    ensures kc != c.left && kc != c.right && kc != c.up && kc != c.down ==> r == i
  {
    Input(i.left && kc != c.left, i.right && kc != c.right, i.up && kc != c.up, i.down && kc != c.down)
  }

  /** Releasing a key undoes pressing it whenever the flag was clear before. */
  lemma ReleaseUndoesPress(i: Input, c: Controls, kc: int)
    requires kc == c.left ==> !i.left
    requires kc == c.right ==> !i.right
    requires kc == c.up ==> !i.up
    requires kc == c.down ==> !i.down
    ensures Release(Press(i, c, kc), c, kc) == i
  {
  }

  /** A gem lying in the cave: its centre and radius. (Its hue is drawing only.) */
  datatype Gem = Gem(pos: Vec, r: real)

  /** A request to spawn a weapon at origin flying along the unit vector dir,
      fired by the dwarf whose id is owner: game.spawnWeapon(x, y, angle, id). */
  datatype Shot = Shot(origin: Vec, dir: Vec, owner: int)

  /** The ordinary shot's direction: within 10 degrees of the facing
      direction (cos 10° > 0.98). */
  predicate SideAim(dir: Vec, facing: int) {
    IsUnit(dir) && dir.x * (facing as real) >= 0.98
  }

  /** The down shot's direction: within 6 degrees of straight down
      (sin 84° > 0.99; the y axis points down). */
  predicate DownAim(dir: Vec) {
    IsUnit(dir) && dir.y >= 0.99
  }

  /** Position and velocity, the part of the dwarf the physics moves. */
  datatype Body = Body(pos: Vec, vel: Vec)

  /** The steering force of the held directions: at most 0.9 sideways,
      1.1 up and 0.45 down; none sideways when left and right cancel out,
      and up wins over down. */
  function Thrust(i: Input): (t: Vec)
    ensures -0.9 <= t.x <= 0.9 && -1.1 <= t.y <= 0.45
    ensures i.left == i.right <==> t.x == 0.0
    ensures t.y < 0.0 <==> i.up
    ensures t.y > 0.0 <==> i.down && !i.up
  {
    Vec((if i.left then -0.9 else 0.0) + (if i.right then 0.9 else 0.0),
        (if i.up then -1.1 else 0.0) + (if i.down then 0.45 else 0.0))
  }

  /** The direction the player asks to dig in, one unit per held
      direction: zero exactly when opposite directions cancel out. */
  function InputVector(i: Input): (v: Vec)
    ensures -1.0 <= v.x <= 1.0 && -1.0 <= v.y <= 1.0
  {
    Vec((if i.left then -1.0 else 0.0) + (if i.right then 1.0 else 0.0),
        (if i.up then -1.0 else 0.0) + (if i.down then 1.0 else 0.0))
  }

  /** No dig direction exactly when both pairs of opposite directions cancel out. */
  lemma InputVectorZeroIff(i: Input)
    ensures InputVector(i) == Zero <==> i.left == i.right && i.up == i.down
  {
  }

  /** The facing after a frame: right wins over left, no input keeps it. */
  function NewFacing(facing: int, i: Input): (f: int)
    ensures i.left || i.right ==> f == (if i.right then 1 else -1)
    ensures !i.left && !i.right ==> f == facing
  {
    var f := if i.left then -1 else facing;
    if i.right then 1 else f
  }

  /** One frame of flight: thrust (none while stunned, when the velocity
      is slowed by 0.92 instead) plus gravity, divided by the mass; air
      damping 0.985; then the position advances by the new velocity. */
  function Integrate(b: Body, i: Input, stunned: bool, gravity: real): (r: Body)
    ensures r.pos == Add(b.pos, r.vel)
  {
    var thrust := if stunned then Zero else Thrust(i);
    var v0 := if stunned then Scale(b.vel, 0.92) else b.vel;
    var force := Add(thrust, Vec(0.0, gravity * Mass));
    var v1 := Scale(Add(v0, Scale(force, 1.0 / Mass)), 0.985);
    Body(Add(b.pos, v1), v1)
  }

  /** Gravity reaches the velocity whole: the mass divides out. */
  lemma GravityIgnoresMass(b: Body, gravity: real)
    ensures Integrate(b, NoInput, false, gravity).vel == Scale(Add(b.vel, Vec(0.0, gravity)), 0.985)
  {
  }

  /** A stunned dwarf drifts the same whatever is held: its velocity only
      slows by 0.92, gains gravity and is damped. */
  lemma StunnedIgnoresInput(b: Body, i: Input, gravity: real)
    ensures Integrate(b, i, true, gravity) == Integrate(b, NoInput, true, gravity)
    ensures Integrate(b, i, true, gravity).vel == Scale(Add(Scale(b.vel, 0.92), Vec(0.0, gravity)), 0.985)
  {
  }

  /** The four canvas walls applied in turn: a coordinate that leaves
      [12, size - 12] is put back on the wall and its velocity reversed
      with restitution 0.3 (0.35 on the floor). */
  function Clamp(b: Body, width: int, height: int): (r: Body)
    ensures 24 <= width ==> 12.0 <= r.pos.x <= (width - 12) as real
    ensures 24 <= height ==> 12.0 <= r.pos.y <= (height - 12) as real
    ensures 24 <= width ==> r.vel.x == (if b.pos.x < 12.0 || b.pos.x > (width - 12) as real then -0.3 * b.vel.x else b.vel.x)
    ensures 24 <= height ==> r.vel.y == (if b.pos.y < 12.0 then -0.3 * b.vel.y else if b.pos.y > (height - 12) as real then -0.35 * b.vel.y else b.vel.y)
    ensures 12.0 <= b.pos.x <= (width - 12) as real && 12.0 <= b.pos.y <= (height - 12) as real ==> r == b
  {
    var right, bottom := (width - 12) as real, (height - 12) as real;
    var x0, vx0 := b.pos.x, b.vel.x;
    var x1, vx1 := if x0 < 12.0 then 12.0 else x0, if x0 < 12.0 then vx0 * -0.3 else vx0;
    var x2, vx2 := if x1 > right then right else x1, if x1 > right then vx1 * -0.3 else vx1;
    var y0, vy0 := b.pos.y, b.vel.y;
    var y1, vy1 := if y0 < 12.0 then 12.0 else y0, if y0 < 12.0 then vy0 * -0.3 else vy0;
    var y2, vy2 := if y1 > bottom then bottom else y1, if y1 > bottom then vy1 * -0.35 else vy1;
    Body(Vec(x2, y2), Vec(vx2, vy2))
  }

  /** Clamping twice is clamping once: a clamped body is inside the walls. */
  lemma {:induction false} ClampIdempotent(b: Body, width: int, height: int)
    requires 24 <= width && 24 <= height
    ensures Clamp(Clamp(b, width, height), width, height) == Clamp(b, width, height)
  {
    var c := Clamp(b, width, height);
    assert 12.0 <= c.pos.x <= (width - 12) as real && 12.0 <= c.pos.y <= (height - 12) as real;
  }

  /** A zero input vector (nothing held, or opposite directions held
      together) is never long enough to dig. */
  lemma ZeroInputIsShort(sqrt: real -> real)
    requires IsSqrt(sqrt)
    ensures sqrt(NormSq(Zero)) <= 0.12
  {
    SquaredTestIsDistanceTest(Zero, Zero, 0.12, sqrt);
    assert DistSq(Zero, Zero) == NormSq(Zero);
  }

  /** The velocity reflection off a node with unit normal `normal` (from
      the dwarf towards the node): when the dwarf is moving into the node,
      between 80% and 100% of that motion (jit in [0, 1) picks where) is
      removed. */
  function Deflect(v: Vec, normal: Vec, jit: real): Vec {
    var vn := Dot(v, normal);
    if vn > 0.0 then Sub(v, Scale(normal, vn * (0.8 + jit * 0.2))) else v
  }

  /** After the reflection the dwarf still moves into the node, but with at
      most a fifth of the normal speed it had; a dwarf moving away keeps
      its velocity. */
  lemma {:induction false} DeflectSlowsInflow(v: Vec, normal: Vec, jit: real)
    requires IsUnit(normal) && 0.0 <= jit < 1.0
    ensures Dot(v, normal) > 0.0 ==> 0.0 < Dot(Deflect(v, normal, jit), normal) <= 0.2 * Dot(v, normal)
    ensures Dot(v, normal) <= 0.0 ==> Deflect(v, normal, jit) == v
  {
    var vn := Dot(v, normal);
    if vn > 0.0 {
      var k := vn * (0.8 + jit * 0.2);
      assert Dot(Deflect(v, normal, jit), normal) == vn - k * (normal.x * normal.x + normal.y * normal.y);
      assert Dot(Deflect(v, normal, jit), normal) == vn * (0.2 - jit * 0.2);
      MulPos(vn, 0.2 - jit * 0.2);
      assert vn * (0.2 - jit * 0.2) == 0.2 * vn - vn * jit * 0.2;
      MulNonneg(vn, jit * 0.2);
    }
  }

  /** How far a dwarf digs a node it overlaps, where normal is the unit
      vector from the dwarf towards the node and iv, of length mag, the
      held directions: nothing unless the input is longer than 0.12 and
      pushDot, the input's component along -normal, exceeds 0.12; then 1.6
      times the pressure pushDot * 1.8 clamped to [0, 1.8]. */
  function DigAmount(iv: Vec, mag: real, normal: Vec): (a: real)
    ensures 0.0 <= a <= 2.88
    ensures a != 0.0 ==> mag > 0.12 && 0.3456 < a
  {
    if mag > 0.12 then
      var pushDot := -Dot(Scale(iv, 1.0 / mag), normal);
      if pushDot > 0.12 then 1.6 * Constrain(pushDot * 1.8, 0.0, 1.8) else 0.0
    else 0.0
  }

  /** Because normal points from the dwarf to the node, a dig happens only
      when the held directions point away from the node. */
  lemma {:induction false} DigNeedsInputAway(iv: Vec, mag: real, normal: Vec)
    ensures DigAmount(iv, mag, normal) != 0.0 ==> Dot(iv, normal) < 0.0
  {
    if DigAmount(iv, mag, normal) != 0.0 {
      var k := 1.0 / mag;
      assert Dot(Scale(iv, k), normal) == k * Dot(iv, normal);
      assert k * Dot(iv, normal) < 0.0;
      if Dot(iv, normal) >= 0.0 {
        MulNonneg(k, Dot(iv, normal));
      }
    }
  }

  /** The radius around the dwarf in which it looks for nodes to push against. */
  function Reach(cave: Cave): real
    reads cave
  {
    Radius + cave.nodeRadius * 1.2
  }

  class Dwarf {
    const id: int
    const controls: Controls
    var pos: Vec
    var vel: Vec
    var input: Input
    var shootCooldown: int
    var facing: int
    var stunned: bool
    var stunTimer: int

    /** The cooldown stays in [0, 18], the stun timer is never negative, the
        dwarf faces left or right, and a running stun timer means stunned. */
    ghost predicate Valid()
      reads this
    {
      && 0 <= shootCooldown <= ShootCooldownFrames
      && 0 <= stunTimer
      && (facing == 1 || facing == -1)
      && (stunTimer > 0 ==> stunned)
    }

    /** new Dwarf(x, y, colour, controls, id): at rest, facing right, no
        input, ready to shoot. */
    constructor (x: real, y: real, controls: Controls, id: int)
      ensures Valid()
      ensures this.id == id && this.controls == controls
      ensures pos == Vec(x, y) && vel == Zero && input == NoInput
      ensures shootCooldown == 0 && facing == 1 && !stunned && stunTimer == 0
    {
      this.id := id;
      this.controls := controls;
      pos := Vec(x, y);
      vel := Zero;
      input := NoInput;
      shootCooldown := 0;
      facing := 1;
      stunned := false;
      stunTimer := 0;
    }

    /** The shot this dwarf fires along dir. */
    function ShotAlong(dir: Vec): (s: Shot)
      reads this
      ensures s.owner == id && s.dir == dir
      ensures DistSq(s.origin, pos) == MuzzleDistance * MuzzleDistance * NormSq(dir)
    {
      Shot(Add(pos, Scale(dir, MuzzleDistance)), dir, id)
    }

    /** tryShoot(): fires along aim when the cooldown has run out and the
        dwarf is not stunned, then restarts the cooldown. */
    method TryShoot(aim: Vec) returns (shot: Option<Shot>)
      requires Valid() && SideAim(aim, facing)
      modifies this`shootCooldown
      ensures Valid()
      ensures shot.Some? <==> old(shootCooldown) <= 0 && !stunned
      ensures shot.Some? ==> shot.value == ShotAlong(aim) && shootCooldown == ShootCooldownFrames
      ensures shot.None? ==> shootCooldown == old(shootCooldown)
    {
      shot := None;
      if shootCooldown <= 0 {
        if stunned {
          return;
        }
        shot := Some(ShotAlong(aim));
        shootCooldown := ShootCooldownFrames;
      }
    }

    /** shootDown(): the same, along a nearly vertical aim. */
    method ShootDown(aim: Vec) returns (shot: Option<Shot>)
      requires Valid() && DownAim(aim)
      modifies this`shootCooldown
      ensures Valid()
      ensures shot.Some? <==> old(shootCooldown) <= 0 && !stunned
      ensures shot.Some? ==> shot.value == ShotAlong(aim) && shootCooldown == ShootCooldownFrames
      ensures shot.None? ==> shootCooldown == old(shootCooldown)
    {
      shot := None;
      if stunned {
        return;
      }
      if shootCooldown > 0 {
        return;
      }
      shot := Some(ShotAlong(aim));
      shootCooldown := ShootCooldownFrames;
    }

    /** keyPressed(kc): ignored while stunned; otherwise sets the matching
        flag, and the down and shoot keys also try to fire. One key press
        fires at most once: the first shot restarts the cooldown. */
    method KeyPressed(kc: int, downAim: Vec, sideAim: Vec) returns (shots: seq<Shot>)
      requires Valid()
      requires kc == controls.down ==> DownAim(downAim)
      requires kc == controls.shoot ==> SideAim(sideAim, facing)
      modifies this`input, this`shootCooldown
      ensures Valid()
      ensures old(stunned) ==> input == old(input) && shots == [] && shootCooldown == old(shootCooldown)
      ensures !old(stunned) ==> input == Press(old(input), controls, kc)
      ensures shots == (if stunned || old(shootCooldown) > 0 then []
                        else if kc == controls.down then [ShotAlong(downAim)]
                        else if kc == controls.shoot then [ShotAlong(sideAim)]
                        else [])
      ensures shootCooldown == (if shots == [] then old(shootCooldown) else ShootCooldownFrames)
    {
      shots := [];
      if stunned {
        return;
      }
      input := Press(input, controls, kc);
      if kc == controls.down {
        var s := ShootDown(downAim);
        if s.Some? {
          shots := shots + [s.value];
        }
      }
      if kc == controls.shoot {
        var s := TryShoot(sideAim);
        if s.Some? {
          shots := shots + [s.value];
        }
      }
    }

    /** keyReleased(kc): clears the matching flag, stunned or not. */
    method KeyReleased(kc: int)
      modifies this`input
      ensures input == Release(old(input), controls, kc)
    {
      if kc == controls.left {
        input := input.(left := false);
      }
      if kc == controls.right {
        input := input.(right := false);
      }
      if kc == controls.up {
        input := input.(up := false);
      }
      if kc == controls.down {
        input := input.(down := false);
      }
    }

    /** stun(frames): stunned for at least the given number of frames. */
    method Stun(frames: int)
      requires Valid()
      modifies this`stunTimer, this`stunned
      ensures Valid()
      ensures stunned && stunTimer == (if old(stunTimer) < frames then frames else old(stunTimer))
    {
      stunTimer := if stunTimer < frames then frames else stunTimer;
      stunned := true;
    }

    /** The timer half of update(): the cooldown and stun timer count down,
        the stun flag follows the timer, and an unstunned dwarf turns to
        face its input. */
    method Tick()
      requires Valid()
      modifies this`shootCooldown, this`stunTimer, this`stunned, this`facing
      ensures Valid()
      ensures shootCooldown == (if old(shootCooldown) > 0 then old(shootCooldown) - 1 else old(shootCooldown))
      ensures stunTimer == (if old(stunTimer) > 0 then old(stunTimer) - 1 else old(stunTimer))
      ensures stunned == (old(stunTimer) > 0)
      ensures facing == (if stunned then old(facing) else NewFacing(old(facing), input))
    {
      if shootCooldown > 0 {
        shootCooldown := shootCooldown - 1;
      }
      if stunTimer > 0 {
        stunTimer := stunTimer - 1;
        stunned := true;
      } else {
        stunned := false;
      }
      if !stunned {
        facing := NewFacing(facing, input);
      }
    }

    /** update(game): counts the timers down, flies one frame, keeps the
        dwarf on the canvas, then pushes it out of (and lets it dig into)
        the nearby nodes. jitter(k) is the random() draw for the k-th nearby
        node's velocity reflection. */
    method Update(gravity: real, cave: Cave, width: int, height: int, sqrt: real -> real, jitter: int -> real)
      requires Valid() && cave.Valid() && IsSqrt(sqrt)
      requires forall k :: 0.0 <= jitter(k) < 1.0
      modifies this`shootCooldown, this`stunTimer, this`stunned, this`facing, this`pos, this`vel
      modifies cave`nodes, cave.Repr
      ensures Valid() && cave.Valid()
      ensures shootCooldown == (if old(shootCooldown) > 0 then old(shootCooldown) - 1 else old(shootCooldown))
      ensures stunTimer == (if old(stunTimer) > 0 then old(stunTimer) - 1 else old(stunTimer))
      ensures stunned == (old(stunTimer) > 0)
      ensures facing == (if stunned then old(facing) else NewFacing(old(facing), input))
      ensures forall n <- cave.nodes :: n in old(cave.nodes)
      ensures forall n <- cave.Repr :: n.r <= old(n.r)
      ensures InputVector(input) == Zero ==>
                cave.nodes == old(cave.nodes) && forall n <- cave.Repr :: n.r == old(n.r)
      ensures var flown := Clamp(Integrate(Body(old(pos), old(vel)), input, stunned, gravity), width, height);
              old(InRange(cave.nodes, flown.pos, Reach(cave))) == [] ==> pos == flown.pos && vel == flown.vel
      ensures var flown := Clamp(Integrate(Body(old(pos), old(vel)), input, stunned, gravity), width, height);
              forall n <- cave.Repr :: n.r == old(n.r) ||
                (n in old(InRange(cave.nodes, flown.pos, Reach(cave))) && sqrt(NormSq(InputVector(input))) > 0.12
                 && 0.3456 < old(n.r) - n.r <= 2.88)
    {
      Tick();
      var b := Clamp(Integrate(Body(pos, vel), input, stunned, gravity), width, height);
      pos, vel := b.pos, b.vel;
      PushOut(cave, sqrt, jitter);
    }

    /** The node loop of update(game): for each nearby node the dwarf
        overlaps, move out by half the overlap, remove most of the velocity
        heading into the node, and dig it when the held directions ask for
        it. Every node that shrinks was nearby, the input was longer than
        0.12, and it lost more than 0.3456 and at most 2.88. */
    method PushOut(cave: Cave, sqrt: real -> real, jitter: int -> real)
      requires cave.Valid() && IsSqrt(sqrt)
      requires forall k :: 0.0 <= jitter(k) < 1.0
      modifies this`pos, this`vel, cave`nodes, cave.Repr
      ensures cave.Valid()
      ensures forall n <- cave.nodes :: n in old(cave.nodes)
      ensures forall n <- cave.Repr :: n.r <= old(n.r)
      ensures forall n <- cave.Repr :: n.r == old(n.r) ||
                (n in old(InRange(cave.nodes, pos, Reach(cave))) && sqrt(NormSq(InputVector(input))) > 0.12
                 && 0.3456 < old(n.r) - n.r <= 2.88)
      ensures InputVector(input) == Zero ==>
                cave.nodes == old(cave.nodes) && forall n <- cave.Repr :: n.r == old(n.r)
      ensures old(InRange(cave.nodes, pos, Reach(cave))) == [] ==> pos == old(pos) && vel == old(vel)
    {
      var nearby := cave.NodesInRange(pos, Reach(cave));
      InRangeDistinct(cave.nodes, pos, Reach(cave));
      forall n <- nearby ensures n in cave.nodes {
        InRangeMembers(cave.nodes, old(pos), Reach(cave), n);
      }
      var iv := InputVector(input);
      var inputMag := sqrt(NormSq(iv));
      if iv == Zero {
        ZeroInputIsShort(sqrt);
      }
      var i := 0;
      while i < |nearby|
        invariant 0 <= i <= |nearby|
        invariant forall n <- nearby :: n in cave.Repr
        invariant cave.Valid()
        invariant forall n <- cave.nodes :: n in old(cave.nodes)
        invariant forall n <- cave.Repr :: n.r <= old(n.r)
        invariant forall n <- cave.Repr :: n.r == old(n.r) ||
                    (n in nearby[..i] && inputMag > 0.12 && 0.3456 < old(n.r) - n.r <= 2.88)
        invariant iv == Zero ==>
                    cave.nodes == old(cave.nodes) && forall n <- cave.Repr :: n.r == old(n.r)
        invariant i == 0 ==> pos == old(pos) && vel == old(vel)
      {
        var n := nearby[i];
        assert n in nearby && n !in nearby[..i];
        PushOutOf(n, cave, sqrt, jitter(i), iv, inputMag);
        PrefixStep(nearby, i);
        i := i + 1;
      }
      assert nearby[..i] == nearby;
      assert iv == InputVector(input);
      if iv == Zero {
        assert cave.nodes == old(cave.nodes);
        assert forall n <- cave.Repr :: n.r == old(n.r);
      }
    }

    /** How deep the dwarf's body sinks into node n. */
    function Depth(n: CaveNode, sqrt: real -> real): real
      reads this, n
    {
      (Radius + n.r) - sqrt(DistSq(n.pos, pos))
    }

    /** The dwarf overlaps node n, and their centres are apart. */
    predicate Overlaps(n: CaveNode, sqrt: real -> real)
      reads this, n
    {
      sqrt(DistSq(n.pos, pos)) > 0.001 && Depth(n, sqrt) > 0.0
    }

    /** The search radius of the push-out loop misses no node the dwarf
        overlaps: every such node of the cave is among the nearby ones. */
    lemma OverlapIsNearby(cave: Cave, n: CaveNode, sqrt: real -> real)
      requires cave.Valid() && IsSqrt(sqrt) && n in cave.nodes && Overlaps(n, sqrt)
      ensures n in InRange(cave.nodes, pos, Reach(cave))
    {
      assert DistSq(pos, n.pos) == DistSq(n.pos, pos);
      TouchesIsDistanceTest(n, pos, Reach(cave), sqrt);
      InRangeMembers(cave.nodes, pos, Reach(cave), n);
    }

    /** One step of the node loop, against node n; jit is its random() draw
        and iv, inputMag the held directions and their length. An
        overlapped node moves the dwarf out along the normal by half the
        depth, deflects its velocity and may be dug; any other node leaves
        everything as it is. */
    method PushOutOf(n: CaveNode, cave: Cave, sqrt: real -> real, jit: real, iv: Vec, inputMag: real)
      requires cave.Valid() && 0.0 <= jit < 1.0
      modifies this`pos, this`vel, cave`nodes, n
      ensures cave.Valid()
      ensures !old(Overlaps(n, sqrt)) ==> pos == old(pos) && vel == old(vel) && n.r == old(n.r)
      ensures old(Overlaps(n, sqrt)) ==>
                var normal := Normalize(Sub(n.pos, old(pos)), sqrt);
                && pos == Add(old(pos), Scale(normal, -old(Depth(n, sqrt)) * 0.5))
                && vel == Deflect(old(vel), normal, jit)
                && n.r == old(n.r) - DigAmount(iv, inputMag, normal)
      ensures cave.nodes == (if n.r < old(n.r) && n.r < MinRadius then RemoveFirst(old(cave.nodes), n) else old(cave.nodes))
      ensures forall m <- cave.nodes :: m in old(cave.nodes)
    {
      var toNode := Sub(n.pos, pos);
      var d := sqrt(NormSq(toNode));
      if d <= 0.001 {
        return;
      }
      var overlap := (Radius + n.r) - d;
      if overlap > 0.0 {
        var normal := Scale(toNode, 1.0 / d);
        assert normal == Normalize(toNode, sqrt);
        pos := Add(pos, Scale(normal, -overlap * 0.5));
        vel := Deflect(vel, normal, jit);
        var amount := DigAmount(iv, inputMag, normal);
        if amount != 0.0 {
          cave.Dig(n, amount);
        }
      }
    }

    /** A gem is collectable when the dwarf's centre is within
        radius + 0.9 * gem.r of it (compared squared) and no node still
        covering it (within 8 of the gem) is bigger than 6. */
    predicate Collectible(gem: Gem, cave: Cave)
      reads this, cave, cave.nodes
    {
      var bound := Radius + gem.r * 0.9;
      && 0.0 <= bound && DistSq(pos, gem.pos) <= bound * bound
      && forall n <- InRange(cave.nodes, gem.pos, 8.0) :: n.r <= 6.0
    }

    /** canCollect(gem, cave). */
    method CanCollect(gem: Gem, cave: Cave) returns (ok: bool)
      ensures ok == Collectible(gem, cave)
    {
      var bound := Radius + gem.r * 0.9;
      if bound < 0.0 || DistSq(pos, gem.pos) > bound * bound {
        return false;
      }
      var covering := cave.NodesInRange(gem.pos, 8.0);
      var i := 0;
      while i < |covering|
        invariant 0 <= i <= |covering|
        invariant forall k :: 0 <= k < i ==> covering[k].r <= 6.0
      {
        if covering[i].r > 6.0 {
          return false;
        }
        i := i + 1;
      }
      return true;
    }

    /** The pickup gate in the source's own terms: a gem is collectable
        exactly when dist(dwarf, gem) <= radius + 0.9 * gem.r and every node touching the
        8-radius circle around the gem has shrunk to 6 or less. */
    lemma {:induction false} CollectibleIff(gem: Gem, cave: Cave, sqrt: real -> real)
      requires IsSqrt(sqrt)
      ensures Collectible(gem, cave) <==>
                && sqrt(DistSq(pos, gem.pos)) <= Radius + gem.r * 0.9
                && forall n <- cave.nodes :: Touches(n, gem.pos, 8.0) ==> n.r <= 6.0
    {
      SquaredFartherIsDistanceFarther(pos, gem.pos, Radius + gem.r * 0.9, sqrt);
      forall n: CaveNode {
        InRangeMembers(cave.nodes, gem.pos, 8.0, n);
      }
    }
  }
}
