/** The per-tick logic of the biplane battle (sketch.js): bubble shots,
    hot-air balloons and the power-ups they drop, bombs and their scoring,
    and the capped particle buffer explosions append to.

    Planes belong to code outside this file; the objects here see a plane
    only as a snapshot of the fields they read (PlaneView). The constants
    the file uses but never defines (GROUND_Y, POWERUP_SIZE, the bomb and
    power-up settings, the canvas size) are parameters. */
module Biplane {
  import opened Wrappers
  import opened Geometry

  const GravityForce := 0.1
  const MaxParticles := 250
  const BalloonRespawnFrames := 360

  function Sq(x: real): real { x * x }

  /** What the objects of this file read of a plane: its id, whether it is
      alive, its respawn countdown, its fixed collision size and position. */
  datatype PlaneView = PlaneView(id: int, isAlive: bool, respawnTimer: int, size: real, position: Vec)

  /** A plane that can be hit: alive and not waiting to respawn. */
  predicate Targetable(p: PlaneView) {
    p.isAlive && p.respawnTimer <= 0
  }

  /** A hut, as the bomb reads it. */
  datatype Hut = Hut(x: real, y: real, w: real, h: real, destroyed: bool)

  /** One particle of an explosion. Only where it starts matters here:
      its motion and colour are cosmetic. */
  datatype Particle = Particle(origin: Vec)

  /** n particles starting at p. */
  function Burst(p: Vec, n: nat): (ps: seq<Particle>)
    ensures |ps| == n && forall q <- ps :: q.origin == p
  {
    seq(n, _ => Particle(p))
  }

  /** How many particles createExplosion(count) appends to a buffer of
      length len: none once the buffer is over the cap, otherwise as many
      as asked for up to the cap. */
  function Added(len: nat, count: int): (n: nat)
    ensures len > MaxParticles ==> n == 0
    ensures len <= MaxParticles ==> len + n <= MaxParticles
    ensures n <= count || n == 0
    ensures len <= MaxParticles && 0 <= count ==> n == Min(count, MaxParticles - len)
  {
    if len > MaxParticles || count <= 0 then 0 else Min(count, MaxParticles - len)
  }

  function Min(a: int, b: int): int { if a < b then a else b }

  /** Which player a bomb blast credits. */
  datatype Scorer = Nobody | Player1 | Player2

  /** The credit for one plane in a blast at `at`: the plane must be alive,
      inside the blast radius, report a successful hit, and not belong to
      the bomb's owner; hitting plane 1 credits player 2, any other plane
      credits player 1. */
  function Credit(ownerId: int, at: Vec, radius: real, p: PlaneView, hitSuccess: bool): (c: Scorer)
    ensures c != Nobody ==> p.id != ownerId && p.isAlive && hitSuccess
    ensures c == Player2 ==> p.id == 1
    ensures c == Player1 ==> p.id != 1
  {
    if p.isAlive && DistSq(at, p.position) < Sq(radius + p.size * 0.5) && hitSuccess && ownerId != p.id then
      (if p.id == 1 then Player2 else Player1)
    else Nobody
  }

  /** How many of the credits go to who. */
  function Points(cs: seq<Scorer>, who: Scorer): (n: nat)
    ensures n <= |cs|
  {
    if cs == [] then 0 else (if cs[0] == who then 1 else 0) + Points(cs[1..], who)
  }

  lemma PointsSnoc(cs: seq<Scorer>, c: Scorer, who: Scorer)
    ensures Points(cs + [c], who) == Points(cs, who) + (if c == who then 1 else 0)
  {
    if cs != [] {
      assert (cs + [c])[1..] == cs[1..] + [c];
      PointsSnoc(cs[1..], c, who);
    }
  }

  /** With the two planes numbered 1 and 2, a bomb only ever scores for its
      owner's side: a blast never gives a point to the owner's opponent. */
  lemma {:induction false} OwnerOnlyScores(ownerId: int, at: Vec, radius: real, planes: seq<PlaneView>, hits: seq<bool>)
    requires |hits| == |planes| && (ownerId == 1 || ownerId == 2)
    requires forall k :: 0 <= k < |planes| ==> planes[k].id == 1 || planes[k].id == 2
    ensures Points(Credits(ownerId, at, radius, planes, hits), if ownerId == 1 then Player2 else Player1) == 0
  {
    if planes != [] {
      OwnerOnlyScores(ownerId, at, radius, planes[1..], hits[1..]);
    }
  }

  /** The credit for each plane of the blast, in order. */
  function Credits(ownerId: int, at: Vec, radius: real, planes: seq<PlaneView>, hits: seq<bool>): (cs: seq<Scorer>)
    requires |hits| == |planes|
    ensures |cs| == |planes|
  {
    if planes == [] then []
    else [Credit(ownerId, at, radius, planes[0], hits[0])] + Credits(ownerId, at, radius, planes[1..], hits[1..])
  }

  /** The i-th credit of a blast is the credit of its i-th plane. */
  lemma {:induction false} CreditsAt(ownerId: int, at: Vec, radius: real, planes: seq<PlaneView>, hits: seq<bool>, i: int)
    requires |hits| == |planes| && 0 <= i < |planes|
    ensures Credits(ownerId, at, radius, planes, hits)[i] == Credit(ownerId, at, radius, planes[i], hits[i])
  {
    if i > 0 {
      CreditsAt(ownerId, at, radius, planes[1..], hits[1..], i - 1);
    }
  }

  lemma CreditsSnoc(ownerId: int, at: Vec, radius: real, planes: seq<PlaneView>, hits: seq<bool>, i: int)
    requires |hits| == |planes| && 0 <= i < |planes|
    ensures Credits(ownerId, at, radius, planes[..i + 1], hits[..i + 1])
            == Credits(ownerId, at, radius, planes[..i], hits[..i]) + [Credit(ownerId, at, radius, planes[i], hits[i])]
  {
    if i > 0 {
      assert planes[..i + 1][1..] == planes[1..][..i];
      assert hits[..i + 1][1..] == hits[1..][..i];
      assert planes[..i][1..] == planes[1..][..i - 1];
      assert hits[..i][1..] == hits[1..][..i - 1];
      CreditsSnoc(ownerId, at, radius, planes[1..], hits[1..], i - 1);
    }
  }

  /** The shared state the objects of this file change: the particle
      buffer, the power-ups on screen and the two scores. */
  class World {
    var particles: seq<Particle>
    var powerUps: seq<PowerUp>
    var score1: int
    var score2: int

    constructor ()
      ensures particles == [] && powerUps == [] && score1 == 0 && score2 == 0
    {
      particles := [];
      powerUps := [];
      score1 := 0;
      score2 := 0;
    }

    /** createExplosion(x, y, count): nothing when the buffer is already
        over MAX_PARTICLES, otherwise one particle per count until the
        buffer is full. */
    method CreateExplosion(at: Vec, count: int)
      modifies this`particles
      ensures particles == old(particles) + Burst(at, Added(|old(particles)|, count))
    {
      if |particles| > MaxParticles {
        assert Burst(at, 0) == [];
        return;
      }
      var i := 0;
      while i < count
        invariant 0 <= i && (i == 0 || i <= count)
        invariant |old(particles)| + i <= MaxParticles
        invariant particles == old(particles) + Burst(at, i)
      {
        if |particles| < MaxParticles {
          particles := particles + [Particle(at)];
        } else {
          assert i == Added(|old(particles)|, count);
          break;
        }
        i := i + 1;
      }
    }
  }

  /** A bubble shot. */
  class BubbleProjectile {
    var position: Vec
    var velocity: Vec
    const ownerId: int
    const size := 25.0
    var life: int

    /** new BubbleProjectile(x, y, angle, ownerId); the launch velocity
        fromAngle(angle, BUBBLE_SPEED) is given. */
    constructor (x: real, y: real, launch: Vec, ownerId: int)
      ensures position == Vec(x, y) && velocity == launch && this.ownerId == ownerId
      ensures life == 240
    {
      position := Vec(x, y);
      velocity := launch;
      this.ownerId := ownerId;
      life := 240;
    }

    /** update(): a slight lift, drag, one step of motion, one tick of life. */
    method Update()
      modifies this`position, this`velocity, this`life
      ensures velocity == Scale(Vec(old(velocity.x), old(velocity.y) - GravityForce * 0.05), 0.995)
      ensures position == Add(old(position), velocity)
      ensures life == old(life) - 1
    {
      velocity := velocity.(y := velocity.y - GravityForce * 0.05);
      velocity := Scale(velocity, 0.995);
      position := Add(position, velocity);
      life := life - 1;
    }

    /** isOffscreen(): spent, or past the canvas margins. */
    function IsOffscreen(width: real, height: real): (r: bool)
      reads this
      ensures life <= 0 ==> r
      ensures r && life > 0 ==> position.x < -size * 2.0 || position.x > width + size * 2.0
                                || position.y < -size * 2.0 || position.y > height + size
    {
      life <= 0 || position.x < -size * 2.0 || position.x > width + size * 2.0
      || position.y < -size * 2.0 || position.y > height + size
    }

    /** checkCollision(plane): a missing, dead or respawning plane, or the
        shooter's own, is never hit; otherwise the circles of radius
        0.8 * size and size / 2 overlap. */
    function HitsPlane(target: Option<PlaneView>): (r: bool)
      reads this
      ensures r ==> target.Some? && Targetable(target.value) && target.value.id != ownerId
    {
      if target.None? || !target.value.isAlive then false
      else if target.value.id == ownerId || target.value.respawnTimer > 0 then false
      else DistSq(position, target.value.position) < Sq(target.value.size * 0.8 + size / 2.0)
    }

    /** checkCollision(balloon, true): a missing or dead balloon is never
        hit; otherwise the bubble and the balloon circles overlap. */
    function HitsBalloon(target: Balloon?): (r: bool)
      reads this, target
      ensures r ==> target != null && target.isAlive
    {
      if target == null || !target.isAlive then false
      else DistSq(position, target.pos) < Sq(target.radius + size / 2.0)
    }
  }

  /** The squared test of HitsPlane is the distance test it stands for. */
  lemma BubbleHitsPlaneWithinReach(b: BubbleProjectile, p: PlaneView, sqrt: real -> real)
    requires IsSqrt(sqrt) && 0.0 <= p.size
    ensures b.HitsPlane(Some(p)) <==>
              Targetable(p) && p.id != b.ownerId && sqrt(DistSq(b.position, p.position)) < p.size * 0.8 + b.size / 2.0
  {
    SquaredTestIsDistanceTest(b.position, p.position, p.size * 0.8 + b.size / 2.0, sqrt);
  }

  /** The squared test of HitsBalloon is the distance test it stands for. */
  lemma BubbleHitsBalloonWithinReach(b: BubbleProjectile, target: Balloon, sqrt: real -> real)
    requires IsSqrt(sqrt)
    ensures b.HitsBalloon(target) <==> target.isAlive && sqrt(DistSq(b.position, target.pos)) < target.radius + b.size / 2.0
  {
    SquaredTestIsDistanceTest(b.position, target.pos, target.radius + b.size / 2.0, sqrt);
  }

  /** The balloon's respawn state. */
  datatype Cycle = Cycle(isAlive: bool, respawnTimer: int)

  /** A balloon is alive exactly when no respawn countdown runs, and the
      countdown never exceeds BALLOON_RESPAWN_FRAMES. */
  predicate CycleValid(c: Cycle) {
    0 <= c.respawnTimer <= BalloonRespawnFrames && (c.isAlive <==> c.respawnTimer == 0)
  }

  /** What one update() does to the respawn state: a running countdown
      ticks, and respawns the balloon when it reaches zero. */
  function NextCycle(c: Cycle): (n: Cycle)
    ensures CycleValid(c) ==> CycleValid(n)
    ensures c.respawnTimer > 0 ==> n.respawnTimer == c.respawnTimer - 1
    ensures c.respawnTimer <= 0 ==> n == c
  {
    if c.respawnTimer > 0 then
      (if c.respawnTimer - 1 <= 0 then Cycle(true, c.respawnTimer - 1) else Cycle(c.isAlive, c.respawnTimer - 1))
    else c
  }

  /** n updates; each keeps the respawn invariant. */
  function Cycles(c: Cycle, n: nat): (r: Cycle)
    ensures CycleValid(c) ==> CycleValid(r)
    decreases n
  {
    if n == 0 then c else Cycles(NextCycle(c), n - 1)
  }

  /** A balloon whose countdown reads t stays down for t - 1 more updates
      and is up again after update t. */
  lemma {:induction false} CountdownRespawns(t: int, alive: bool, n: nat)
    requires 0 < t && n <= t
    ensures Cycles(Cycle(alive, t), n).respawnTimer == t - n
    ensures n < t ==> Cycles(Cycle(alive, t), n).isAlive == alive
    ensures n == t ==> Cycles(Cycle(alive, t), n).isAlive
  {
    if n > 0 {
      if t == 1 {
        assert NextCycle(Cycle(alive, t)) == Cycle(true, 0);
      } else {
        assert NextCycle(Cycle(alive, t)) == Cycle(alive, t - 1);
        CountdownRespawns(t - 1, alive, n - 1);
      }
    }
  }

  /** A hit balloon is down for exactly BALLOON_RESPAWN_FRAMES updates. */
  lemma HitBalloonReturnsAfterRespawnFrames(n: nat)
    requires n <= BalloonRespawnFrames
    ensures !Cycles(Cycle(false, BalloonRespawnFrames), n).isAlive <==> n < BalloonRespawnFrames
  {
    CountdownRespawns(BalloonRespawnFrames, false, n);
  }

  /** The horizontal drift of an alive balloon: one step of driftSpeed,
      wrapping to the far side once it is twice the visual radius past an
      edge. A balloon inside that band stays inside it. */
  function Drift(x: real, speed: real, width: real, margin: real): (r: real)
    ensures -margin <= x <= width + margin ==> -margin <= r <= width + margin
    ensures speed > 0.0 && x + speed > width + margin ==> r == -margin
    ensures speed < 0.0 && x + speed < -margin ==> r == width + margin
  {
    var nx := x + speed;
    if speed > 0.0 && nx > width + margin then -margin
    else if speed < 0.0 && nx < -margin then width + margin
    else nx
  }

  /** respawn()'s random draws: a base position in
      [0.1, 0.9) x [0.15, 0.55) of the canvas and a drift speed of
      magnitude in [0.1, 0.3) in either direction. */
  datatype RespawnDraw = RespawnDraw(base: Vec, drift: real)

  /** random(0.1, 0.3) * (random() > 0.5 ? 1 : -1). */
  predicate DriftInRange(drift: real) {
    (0.1 <= drift < 0.3) || (-0.3 < drift <= -0.1)
  }

  predicate RespawnInRange(d: RespawnDraw, width: real, height: real) {
    && width * 0.1 <= d.base.x < width * 0.9
    && height * 0.15 <= d.base.y < height * 0.55
    && DriftInRange(d.drift)
  }

  /** A hot-air balloon. `position` is the same vector object as `pos` in
      the game, so the model keeps one field. */
  class Balloon {
    var basePos: Vec
    var pos: Vec
    var driftSpeed: real
    const radius := 30.0
    const visualRadius := 30.0
    var isAlive: bool
    var respawnTimer: int

    function State(): Cycle
      reads this
    {
      Cycle(isAlive, respawnTimer)
    }

    ghost predicate Valid()
      reads this
    {
      CycleValid(State())
    }

    /** new Balloon(x, y) with its random drift speed. */
    constructor (x: real, y: real, driftSpeed: real)
      requires DriftInRange(driftSpeed)
      ensures Valid() && isAlive
      ensures basePos == Vec(x, y) && pos == basePos && this.driftSpeed == driftSpeed
    {
      basePos := Vec(x, y);
      pos := Vec(x, y);
      this.driftSpeed := driftSpeed;
      isAlive := true;
      respawnTimer := 0;
    }

    /** update(): a running countdown ticks (respawning at zero) and the
        balloon does nothing else; a dead balloon with no countdown stays
        put; an alive one drifts, wraps and bobs by `bobble`
        (sin(frameCount * bobbleSpeed) * 6). */
    method Update(width: real, height: real, bobble: real, draw: RespawnDraw)
      requires RespawnInRange(draw, width, height)
      modifies this
      ensures State() == NextCycle(old(State()))
      ensures old(respawnTimer) > 0 && respawnTimer == 0 ==>
                basePos == draw.base && pos == draw.base && driftSpeed == draw.drift
      ensures old(respawnTimer) > 0 && respawnTimer > 0 ==>
                basePos == old(basePos) && pos == old(pos) && driftSpeed == old(driftSpeed)
      ensures old(respawnTimer) <= 0 && !old(isAlive) ==> basePos == old(basePos) && pos == old(pos) && driftSpeed == old(driftSpeed)
      ensures old(respawnTimer) <= 0 && old(isAlive) ==>
                && basePos == Vec(Drift(old(basePos.x), driftSpeed, width, visualRadius * 2.0), old(basePos.y))
                && pos == Vec(basePos.x, basePos.y + bobble)
                && driftSpeed == old(driftSpeed)
    {
      if respawnTimer > 0 {
        respawnTimer := respawnTimer - 1;
        if respawnTimer <= 0 {
          Respawn(width, height, draw);
        }
        return;
      }
      if !isAlive {
        return;
      }
      basePos := basePos.(x := basePos.x + driftSpeed);
      if driftSpeed > 0.0 && basePos.x > width + visualRadius * 2.0 {
        basePos := basePos.(x := -visualRadius * 2.0);
      } else if driftSpeed < 0.0 && basePos.x < -visualRadius * 2.0 {
        basePos := basePos.(x := width + visualRadius * 2.0);
      }
      pos := Vec(basePos.x, basePos.y + bobble);
    }

    /** respawn(): alive again at a fresh random spot with a fresh drift. */
    method Respawn(width: real, height: real, draw: RespawnDraw)
      requires RespawnInRange(draw, width, height)
      modifies this`isAlive, this`basePos, this`driftSpeed, this`pos
      ensures isAlive && basePos == draw.base && pos == draw.base && driftSpeed == draw.drift
      ensures RespawnInRange(RespawnDraw(basePos, driftSpeed), width, height)
    {
      isAlive := true;
      basePos := draw.base;
      driftSpeed := draw.drift;
      pos := basePos;
    }

    /** hit(): ignored when already down; otherwise the balloon goes down
        for BALLOON_RESPAWN_FRAMES updates, bursts into 25 particles and
        drops one power-up of the drawn type where it was. */
    method Hit(world: World, kind: string, spread: real, fallSpeed: real, powerUpSize: real, duration: real)
      requires -0.5 <= spread < 0.5
      modifies this`isAlive, this`respawnTimer, world`particles, world`powerUps
      ensures old(!isAlive) ==> isAlive == old(isAlive) && respawnTimer == old(respawnTimer)
                                && world.particles == old(world.particles) && world.powerUps == old(world.powerUps)
      ensures old(isAlive) ==>
                && State() == Cycle(false, BalloonRespawnFrames)
                && world.particles == old(world.particles) + Burst(pos, Added(|old(world.particles)|, 25))
                && |world.powerUps| == |old(world.powerUps)| + 1
                && world.powerUps[..|old(world.powerUps)|] == old(world.powerUps)
                && var p := world.powerUps[|old(world.powerUps)|];
                   fresh(p) && p.position == pos && p.kind == kind && p.velocity == Vec(spread, fallSpeed)
                   && p.size == powerUpSize && p.lifespan == duration * 1.5
    {
      if !isAlive {
        return;
      }
      isAlive := false;
      respawnTimer := BalloonRespawnFrames;
      world.CreateExplosion(pos, 25);
      var p := new PowerUp(pos.x, pos.y, kind, spread, fallSpeed, powerUpSize, duration);
      world.powerUps := world.powerUps + [p];
    }
  }

  /** A power-up dropped by a balloon. */
  class PowerUp {
    var position: Vec
    var velocity: Vec
    const kind: string
    const size: real
    var lifespan: real

    /** new PowerUp(x, y, type): drifting sideways by `spread`
        (random(-0.5, 0.5)) and falling at POWERUP_FALL_SPEED, for
        1.5 * POWERUP_DURATION_FRAMES updates. */
    constructor (x: real, y: real, kind: string, spread: real, fallSpeed: real, size: real, duration: real)
      requires -0.5 <= spread < 0.5
      ensures position == Vec(x, y) && velocity == Vec(spread, fallSpeed)
      ensures this.kind == kind && this.size == size && lifespan == duration * 1.5
    {
      position := Vec(x, y);
      velocity := Vec(spread, fallSpeed);
      this.kind := kind;
      this.size := size;
      lifespan := duration * 1.5;
    }

    /** update(): one step of motion, gravity and drag, one tick of life;
        at the ground it rests on the ground line and bounces, losing most
        of its vertical speed and some of its horizontal speed. */
    method Update(groundY: real)
      modifies this`position, this`velocity, this`lifespan
      ensures position.y <= groundY - size / 2.0
      ensures lifespan == old(lifespan) - 1.0
      ensures var moved := Add(old(position), old(velocity));
              var slowed := Scale(Vec(old(velocity.x), old(velocity.y) + GravityForce * 0.2), 0.99);
              if moved.y > groundY - size / 2.0 then
                position == Vec(moved.x, groundY - size / 2.0) && velocity == Vec(slowed.x * 0.8, slowed.y * -0.4)
              else
                position == moved && velocity == slowed
    {
      position := Add(position, velocity);
      velocity := velocity.(y := velocity.y + GravityForce * 0.2);
      velocity := Scale(velocity, 0.99);
      lifespan := lifespan - 1.0;
      if position.y > groundY - size / 2.0 {
        position := position.(y := groundY - size / 2.0);
        velocity := Vec(velocity.x * 0.8, velocity.y * -0.4);
      }
    }

    /** isOffscreen(): spent, or fallen well below the canvas. */
    function IsOffscreen(height: real): (r: bool)
      reads this
      ensures lifespan <= 0.0 ==> r
      ensures r && lifespan > 0.0 ==> position.y > height + size * 2.0
    {
      lifespan <= 0.0 || position.y > height + size * 2.0
    }

    /** checkCollision(plane): a missing, dead or respawning plane is never
        collected by; otherwise the circles of radius 0.8 * plane.size and
        size / 2 overlap. */
    function CheckCollision(plane: Option<PlaneView>): (r: bool)
      reads this
      ensures r ==> plane.Some? && Targetable(plane.value)
    {
      if plane.None? || !plane.value.isAlive || plane.value.respawnTimer > 0 then false
      else DistSq(position, plane.value.position) < Sq(plane.value.size * 0.8 + size / 2.0)
    }
  }

  /** The squared test of PowerUp.CheckCollision is the distance test. */
  lemma PowerUpCollectedWithinReach(u: PowerUp, p: PlaneView, sqrt: real -> real)
    requires IsSqrt(sqrt) && 0.0 <= p.size && 0.0 <= u.size
    ensures u.CheckCollision(Some(p)) <==> Targetable(p) && sqrt(DistSq(u.position, p.position)) < p.size * 0.8 + u.size / 2.0
  {
    SquaredTestIsDistanceTest(u.position, p.position, p.size * 0.8 + u.size / 2.0, sqrt);
  }

  /** A bomb, dropped by a plane. */
  class Bomb {
    var position: Vec
    var velocity: Vec
    const ownerId: int
    const size := 12.0
    var fuseTimer: int

    /** new Bomb(x, y, ownerId, planeVelocity): half the plane's velocity
        plus BOMB_DROP_VELOCITY_Y downwards, fuse set to BOMB_FUSE_FRAMES. */
    constructor (x: real, y: real, ownerId: int, planeVelocity: Vec, dropSpeed: real, fuse: int)
      ensures position == Vec(x, y) && velocity == Add(Scale(planeVelocity, 0.5), Vec(0.0, dropSpeed))
      ensures this.ownerId == ownerId && fuseTimer == fuse
    {
      position := Vec(x, y);
      velocity := Add(Scale(planeVelocity, 0.5), Vec(0.0, dropSpeed));
      this.ownerId := ownerId;
      fuseTimer := fuse;
    }

    /** update(): one step of motion, heavy gravity, drag, one fuse tick. */
    method Update()
      modifies this`position, this`velocity, this`fuseTimer
      ensures position == Add(old(position), old(velocity))
      ensures velocity == Scale(Vec(old(velocity.x), old(velocity.y) + GravityForce * 1.5), 0.985)
      ensures fuseTimer == old(fuseTimer) - 1
    {
      position := Add(position, velocity);
      velocity := velocity.(y := velocity.y + GravityForce * 1.5);
      velocity := Scale(velocity, 0.985);
      fuseTimer := fuseTimer - 1;
    }

    /** checkCollision(plane): a missing, dead or respawning plane is never
        hit; otherwise the circles of radius 0.7 * plane.size and size / 2
        overlap. */
    function CheckCollision(plane: Option<PlaneView>): (r: bool)
      reads this
      ensures r ==> plane.Some? && Targetable(plane.value)
    {
      if plane.None? || !plane.value.isAlive || plane.value.respawnTimer > 0 then false
      else DistSq(position, plane.value.position) < Sq(plane.value.size * 0.7 + size / 2.0)
    }

    /** checkCollisionHut(hut): strictly inside a standing hut's rectangle,
        that is, strictly within half its width and half its height of its
        centre. */
    function CheckCollisionHut(hut: Option<Hut>): (r: bool)
      reads this
      ensures r <==> hut.Some? && !hut.value.destroyed
                     && Abs(position.x - hut.value.x) < hut.value.w / 2.0
                     && Abs(position.y - hut.value.y) < hut.value.h / 2.0
    {
      if hut.None? || hut.value.destroyed then false
      else position.x > hut.value.x - hut.value.w / 2.0 && position.x < hut.value.x + hut.value.w / 2.0
           && position.y > hut.value.y - hut.value.h / 2.0 && position.y < hut.value.y + hut.value.h / 2.0
    }

    /** checkCollisionGround(): the bomb's lower edge has reached the ground. */
    function CheckCollisionGround(groundY: real): (r: bool)
      reads this
      ensures r <==> position.y + size / 2.0 >= groundY
    {
      position.y >= groundY - size / 2.0
    }

    /** isOffscreen(): only long after the fuse ran out, and far off-canvas. */
    function IsOffscreen(width: real, height: real): (r: bool)
      reads this
      ensures r ==> fuseTimer < -300
      ensures fuseTimer < -300 && position.y > height + size * 5.0 ==> r
    {
      fuseTimer < -300 && (position.y > height + size * 5.0 || position.x < -width || position.x > width * 2.0)
    }

    /** explode(hut): a burst of BOMB_EXPLOSION_PARTICLES; each of the two
        planes alive inside the blast is hit (hits[k] is what its hit()
        reports) and a successful hit on another player's plane scores for
        the bomb's owner's side; a standing hut inside the blast is
        destroyed (reported by the result), a destroyed one throws up 10
        more particles of rubble. */
    method Explode(world: World, plane1: PlaneView, plane2: PlaneView, hits: seq<bool>,
                   hut: Option<Hut>, blastRadius: real, blastParticles: int) returns (destroyHut: bool)
      requires |hits| == 2
      modifies world`particles, world`score1, world`score2
      ensures var cs := Credits(ownerId, position, blastRadius, [plane1, plane2], hits);
              && world.score1 == old(world.score1) + Points(cs, Player1)
              && world.score2 == old(world.score2) + Points(cs, Player2)
      ensures destroyHut <==> hut.Some? && !hut.value.destroyed && InBlast(hut.value, blastRadius)
      ensures var burst := old(world.particles) + Burst(position, Added(|old(world.particles)|, blastParticles));
              world.particles == burst + (if hut.Some? && hut.value.destroyed && InBlast(hut.value, blastRadius)
                                          then Burst(position, Added(|burst|, 10)) else [])
    {
      world.CreateExplosion(position, blastParticles);
      var planes := [plane1, plane2];
      var i := 0;
      while i < 2
        invariant 0 <= i <= 2
        invariant var cs := Credits(ownerId, position, blastRadius, planes[..i], hits[..i]);
                  && world.score1 == old(world.score1) + Points(cs, Player1)
                  && world.score2 == old(world.score2) + Points(cs, Player2)
        invariant world.particles == old(world.particles) + Burst(position, Added(|old(world.particles)|, blastParticles))
      {
        var plane := planes[i];
        CreditsSnoc(ownerId, position, blastRadius, planes, hits, i);
        PointsSnoc(Credits(ownerId, position, blastRadius, planes[..i], hits[..i]), Credit(ownerId, position, blastRadius, plane, hits[i]), Player1);
        PointsSnoc(Credits(ownerId, position, blastRadius, planes[..i], hits[..i]), Credit(ownerId, position, blastRadius, plane, hits[i]), Player2);
        CreditPlane(world, plane, hits[i], blastRadius);
        i := i + 1;
      }
      assert planes[..2] == planes && hits[..2] == hits;
      destroyHut := false;
      if hut.Some? {
        var h := hut.value;
        var hutDistSq := Sq(position.x - h.x) + Sq(position.y - h.y);
        var threshold := blastRadius + Max(h.w, h.h) * 0.5;
        if !h.destroyed && hutDistSq < threshold * threshold {
          destroyHut := true;
        } else if h.destroyed && hutDistSq < threshold * threshold {
          world.CreateExplosion(position, 10);
        }
      }
    }

    /** One plane of explode()'s loop: an alive plane inside the blast is
        hit, and a successful hit on a plane other than the owner's scores
        for the other side. */
    method CreditPlane(world: World, plane: PlaneView, hitSuccess: bool, blastRadius: real)
      modifies world`score1, world`score2
      ensures var c := Credit(ownerId, position, blastRadius, plane, hitSuccess);
              && world.score1 == old(world.score1) + (if c == Player1 then 1 else 0)
              && world.score2 == old(world.score2) + (if c == Player2 then 1 else 0)
    {
      if plane.isAlive {
        var distSq := Sq(position.x - plane.position.x) + Sq(position.y - plane.position.y);
        var radiusSq := Sq(blastRadius + plane.size * 0.5);
        if distSq < radiusSq {
          if hitSuccess && ownerId != plane.id {
            if plane.id == 1 {
              world.score2 := world.score2 + 1;
            } else {
              world.score1 := world.score1 + 1;
            }
          }
        }
      }
    }

    /** The hut lies inside the blast: its centre is closer than the blast
        radius plus half its larger side. */
    ghost predicate InBlast(h: Hut, blastRadius: real)
      reads this
    {
      DistSq(position, Vec(h.x, h.y)) < Sq(blastRadius + Max(h.w, h.h) * 0.5)
    }
  }

  function Max(a: real, b: real): real { if a < b then b else a }

  /** The squared test of Bomb.CheckCollision is the distance test. */
  lemma BombHitsWithinReach(b: Bomb, p: PlaneView, sqrt: real -> real)
    requires IsSqrt(sqrt) && 0.0 <= p.size
    ensures b.CheckCollision(Some(p)) <==> Targetable(p) && sqrt(DistSq(b.position, p.position)) < p.size * 0.7 + b.size / 2.0
  {
    SquaredTestIsDistanceTest(b.position, p.position, p.size * 0.7 + b.size / 2.0, sqrt);
  }

  function Abs(x: real): real { if x < 0.0 then -x else x }
}
