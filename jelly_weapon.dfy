/** The jelly miner's weapon: a bouncy ball that falls under reduced gravity,
    rebounds off the jelly nodes it runs into while carving them (and their
    neighbours), and stuns the first other dwarf it touches. */
module JellyWeapon {
  import opened Geometry
  import opened JellyCave
  import opened JellyDwarf

  /** The ball's radius, launch speed, bounce budget and lifetime in frames. */
  const BallRadius := 8.0
  const LaunchSpeed := 8.0
  const StartBounces := 6
  const StartLife := 420
  /** How long a hit dwarf is stunned, in frames. */
  const StunFrames := 360
  /** A dwarf is hit within ball radius + 0.8 * dwarf radius. */
  const HitRange := 24.0

  /** The rebound off a node with unit normal n (from the node towards the
      ball): the normal part of the velocity is reflected with restitution
      0.9, then the whole velocity is damped by 0.94. */
  function Bounce(v: Vec, n: Vec): Vec {
    Scale(Sub(v, Scale(n, 1.9 * Dot(v, n))), 0.94)
  }

  /** After a bounce the ball moves away from the node with 0.846 of the
      normal speed it came in with. */
  lemma {:induction false} BounceReversesNormal(v: Vec, n: Vec)
    requires IsUnit(n)
    ensures Dot(Bounce(v, n), n) == -0.846 * Dot(v, n)
  {
    var vn := Dot(v, n);
    var xx, yy := n.x * n.x, n.y * n.y;
    var w := Sub(v, Scale(n, 1.9 * vn));
    assert Dot(w, n) == vn - 1.9 * vn * (xx + yy);
    assert Dot(Bounce(v, n), n) == 0.94 * Dot(w, n);
  }

  /** The motion along the node's surface only loses the 0.94 damping. */
  lemma {:induction false} BounceKeepsTangent(v: Vec, n: Vec, t: Vec)
    requires Dot(n, t) == 0.0
    ensures Dot(Bounce(v, n), t) == 0.94 * Dot(v, t)
  {
    var vn := Dot(v, n);
    var w := Sub(v, Scale(n, 1.9 * vn));
    assert Dot(w, t) == Dot(v, t) - 1.9 * vn * Dot(n, t);
  }

  /** A bounce never speeds the ball up: |Bounce(v, n)|^2 is
      0.8836 * (|v|^2 - 0.19 * (v . n)^2). */
  lemma {:induction false} BounceSlows(v: Vec, n: Vec)
    requires IsUnit(n)
    ensures NormSq(Bounce(v, n)) <= NormSq(v)
  {
    var vn := Dot(v, n);
    var k := 1.9 * vn;
    var w := Sub(v, Scale(n, k));
    var xx, yy := n.x * n.x, n.y * n.y;
    assert NormSq(w) == NormSq(v) - 2.0 * k * vn + k * k * (xx + yy);
    assert NormSq(w) == NormSq(v) - 0.19 * (vn * vn);
    assert NormSq(Bounce(v, n)) == 0.8836 * NormSq(w);
  }

  /** The carve strength of a ball moving at v: 1.6 times the speed factor
      |v| / 8 clamped to [0.5, 3]. */
  function CarveDamage(v: Vec, sqrt: real -> real): (d: real)
    ensures 0.8 <= d <= 4.8
  {
    1.6 * Constrain(sqrt(NormSq(v)) / 8.0, 0.5, 3.0)
  }

  class Weapon {
    var pos: Vec
    var vel: Vec
    const r: real
    const owner: int
    var bounces: int
    var life: int
    var isDead: bool

    /** A ball out of time or out of bounces is dead. */
    ghost predicate Valid()
      reads this
    {
      && r == BallRadius
      && (life <= 0 ==> isDead)
      && (bounces <= 0 ==> isDead)
    }

    /** new Weapon(x, y, angle, ownerId): launched from the shot's origin at
        speed 8 along its direction. */
    constructor (shot: Shot)
      ensures Valid()
      ensures pos == shot.origin && vel == Scale(shot.dir, LaunchSpeed) && owner == shot.owner
      ensures bounces == StartBounces && life == StartLife && !isDead
    {
      pos := shot.origin;
      vel := Scale(shot.dir, LaunchSpeed);
      r := BallRadius;
      owner := shot.owner;
      bounces := StartBounces;
      life := StartLife;
      isDead := false;
    }

    /** The ball is touching dwarf d, which is not its owner. */
    predicate Strikes(d: Dwarf, sqrt: real -> real)
      reads this, d
    {
      d.id != owner && sqrt(DistSq(pos, d.pos)) < HitRange
    }

    /** update(game): gravity and motion, one frame of life, the node
        collisions, then the dwarf hit. The ghost result is the index of
        the dwarf hit, or -1. */
    method Update(gravity: real, cave: Cave, dwarfs: seq<Dwarf>, sqrt: real -> real) returns (ghost hit: int)
      requires Valid() && cave.Valid() && IsSqrt(sqrt)
      requires forall d <- dwarfs :: d.Valid()
      requires forall i, j :: 0 <= i < j < |dwarfs| ==> dwarfs[i] != dwarfs[j]
      modifies this, cave`nodes, cave.Repr, dwarfs
      ensures Valid() && cave.Valid()
      ensures forall d <- dwarfs :: d.Valid()
      ensures life == old(life) - 1
      ensures pos == Add(old(pos), Add(old(vel), Vec(0.0, gravity * 0.6)))
      ensures NormSq(vel) <= NormSq(Add(old(vel), Vec(0.0, gravity * 0.6)))
      ensures bounces <= old(bounces)
      ensures isDead == (old(isDead) || life <= 0 || bounces <= 0 || 0 <= hit)
      ensures forall n <- cave.nodes :: n in old(cave.nodes)
      ensures forall n <- old(cave.nodes) :: MinRadius <= n.r ==> n in cave.nodes
      ensures forall n <- cave.Repr :: n.r <= old(n.r)
      ensures -1 <= hit < |dwarfs|
      ensures forall j :: 0 <= j < |dwarfs| && j != hit ==> unchanged(dwarfs[j])
      ensures forall j :: 0 <= j < (if hit < 0 then |dwarfs| else hit) ==> !Strikes(dwarfs[j], sqrt)
      ensures 0 <= hit ==> Struck(dwarfs[hit], sqrt)
    {
      Advance(gravity);
      CollideNodes(cave, sqrt);
      hit := StrikeDwarfs(dwarfs, sqrt);
    }

    /** The start of update(game): 0.6 of gravity joins the velocity, the
        ball moves by it and spends a frame of life, dying at none left. */
    method Advance(gravity: real)
      requires Valid()
      modifies this`vel, this`pos, this`life, this`isDead
      ensures Valid()
      ensures vel == Add(old(vel), Vec(0.0, gravity * 0.6)) && pos == Add(old(pos), vel)
      ensures life == old(life) - 1 && isDead == (old(isDead) || life <= 0)
    {
      vel := Add(vel, Vec(0.0, gravity * 0.6));
      pos := Add(pos, vel);
      life := life - 1;
      if life <= 0 {
        isDead := true;
      }
    }

    /** Dwarf d was just hit: it is the struck dwarf, knocked away from the
        ball by 3 and stunned for at least 360 frames; nothing else of it
        changes. */
    twostate predicate Struck(d: Dwarf, sqrt: real -> real)
      reads this, d
    {
      && Strikes(d, sqrt)
      && d.vel == Add(old(d.vel), Scale(Normalize(Sub(d.pos, pos), sqrt), 3.0))
      && d.stunned
      && d.stunTimer == (if old(d.stunTimer) < StunFrames then StunFrames else old(d.stunTimer))
      && d.pos == old(d.pos) && d.input == old(d.input) && d.shootCooldown == old(d.shootCooldown)
      && d.facing == old(d.facing)
    }

    /** The node loop of update(game). */
    method CollideNodes(cave: Cave, sqrt: real -> real)
      requires Valid() && cave.Valid() && IsSqrt(sqrt)
      modifies this`vel, this`bounces, this`isDead, cave`nodes, cave.Repr
      ensures Valid() && cave.Valid()
      ensures NormSq(vel) <= NormSq(old(vel))
      ensures bounces <= old(bounces)
      ensures isDead == (old(isDead) || bounces <= 0)
      ensures forall n <- cave.nodes :: n in old(cave.nodes)
      ensures forall n <- old(cave.nodes) :: MinRadius <= n.r ==> n in cave.nodes
      ensures forall n <- cave.Repr :: n.r <= old(n.r)
      ensures (forall n <- old(cave.nodes) :: !old(Overlaps(n, sqrt))) ==>
                && vel == old(vel) && bounces == old(bounces) && cave.nodes == old(cave.nodes)
                && forall n <- cave.Repr :: n.r == old(n.r)
    {
      var nearby := cave.NodesInRange(pos, r + cave.nodeRadius * 1.2);
      forall n <- nearby ensures n in cave.nodes {
        InRangeMembers(cave.nodes, pos, r + cave.nodeRadius * 1.2, n);
      }
      var i := 0;
      while i < |nearby|
        invariant 0 <= i <= |nearby|
        invariant forall n <- nearby :: n in cave.Repr
        invariant Valid() && cave.Valid()
        invariant NormSq(vel) <= NormSq(old(vel))
        invariant bounces <= old(bounces)
        invariant isDead == (old(isDead) || bounces <= 0)
        invariant forall n <- cave.nodes :: n in old(cave.nodes)
        invariant forall n <- old(cave.nodes) :: MinRadius <= n.r ==> n in cave.nodes
        invariant forall n <- cave.Repr :: n.r <= old(n.r)
        invariant (forall n <- old(cave.nodes) :: !old(Overlaps(n, sqrt))) ==>
                    && vel == old(vel) && bounces == old(bounces) && cave.nodes == old(cave.nodes)
                    && forall n <- cave.Repr :: n.r == old(n.r)
      {
        assert nearby[i] in nearby;
        HitNode(nearby[i], cave, sqrt);
        i := i + 1;
      }
    }

    /** The ball overlaps node n (and their centres are apart). */
    predicate Overlaps(n: CaveNode, sqrt: real -> real)
      reads this, n
    {
      var d := sqrt(DistSq(pos, n.pos));
      d > 0.001 && (r + n.r) - d > 0.0
    }

    /** The search radius of the node loop misses no node the ball
        overlaps: every such node of the cave is among the nearby ones. */
    lemma OverlapIsNearby(cave: Cave, n: CaveNode, sqrt: real -> real)
      requires Valid() && cave.Valid() && IsSqrt(sqrt) && n in cave.nodes && Overlaps(n, sqrt)
      ensures n in InRange(cave.nodes, pos, r + cave.nodeRadius * 1.2)
    {
      TouchesIsDistanceTest(n, pos, r + cave.nodeRadius * 1.2, sqrt);
      InRangeMembers(cave.nodes, pos, r + cave.nodeRadius * 1.2, n);
    }

    /** One step of the node loop: when the ball overlaps n, it rebounds if
        it is moving into n (spending a bounce), n is carved by the carve
        strength of the new velocity, and every other node within n's new
        radius + 18 of n's centre by 35% of that. Otherwise nothing changes. */
    method HitNode(n: CaveNode, cave: Cave, sqrt: real -> real)
      requires Valid() && cave.Valid() && IsSqrt(sqrt)
      modifies this`vel, this`bounces, this`isDead, cave`nodes, cave.Repr, n
      ensures Valid() && cave.Valid()
      ensures NormSq(vel) <= NormSq(old(vel))
      ensures isDead == (old(isDead) || bounces <= 0)
      ensures forall m <- cave.nodes :: m in old(cave.nodes)
      ensures forall m <- old(cave.nodes) :: MinRadius <= m.r ==> m in cave.nodes
      ensures forall m <- cave.Repr :: m.r <= old(m.r)
      ensures old(Overlaps(n, sqrt)) && Dot(old(vel), Normalize(Sub(pos, n.pos), sqrt)) < 0.0 ==>
                vel == Bounce(old(vel), Normalize(Sub(pos, n.pos), sqrt)) && bounces == old(bounces) - 1
      ensures old(Overlaps(n, sqrt)) && 0.0 <= Dot(old(vel), Normalize(Sub(pos, n.pos), sqrt)) ==>
                vel == old(vel) && bounces == old(bounces)
      ensures old(Overlaps(n, sqrt)) ==> n.r == old(n.r) - CarveDamage(vel, sqrt)
      ensures old(Overlaps(n, sqrt)) ==>
                var reach := n.r + 18.0;
                forall m <- old(cave.nodes) :: m != n ==>
                  m.r == old(m.r) - (if old(Touches(m, n.pos, reach)) then 0.35 * CarveDamage(vel, sqrt) else 0.0)
      ensures forall m <- cave.Repr :: m != n && m !in old(cave.nodes) ==> m.r == old(m.r)
      ensures !old(Overlaps(n, sqrt)) ==>
                && vel == old(vel) && bounces == old(bounces) && cave.nodes == old(cave.nodes)
                && n.r == old(n.r) && forall m <- cave.Repr :: m.r == old(m.r)
    {
      var toNode := Sub(pos, n.pos);
      var d := sqrt(NormSq(toNode));
      if d <= 0.001 {
        return;
      }
      var overlap := (r + n.r) - d;
      if overlap > 0.0 {
        NormalizedIsUnit(toNode, sqrt);
        Rebound(Scale(toNode, 1.0 / d));
        Carve(n, cave, sqrt);
      }
    }

    /** Reflects the velocity off a surface with unit normal `normal` when
        the ball is moving into it, spending one bounce. */
    method Rebound(normal: Vec)
      requires Valid() && IsUnit(normal)
      modifies this`vel, this`bounces, this`isDead
      ensures Valid()
      ensures NormSq(vel) <= NormSq(old(vel))
      ensures Dot(old(vel), normal) < 0.0 ==> vel == Bounce(old(vel), normal) && bounces == old(bounces) - 1
      ensures 0.0 <= Dot(old(vel), normal) ==> vel == old(vel) && bounces == old(bounces)
      ensures isDead == (old(isDead) || bounces <= 0)
    {
      var vn := Dot(vel, normal);
      if vn < 0.0 {
        BounceSlows(vel, normal);
        vel := Bounce(vel, normal);
        bounces := bounces - 1;
        if bounces <= 0 {
          isDead := true;
        }
      }
    }

    /** Carves node n by the carve strength of the ball's velocity, and
        every other node within n's new radius + 18 of n's centre by 35% of
        that; a node leaves the cave only when it drops below MinRadius. */
    method Carve(n: CaveNode, cave: Cave, sqrt: real -> real)
      requires cave.Valid() && IsSqrt(sqrt)
      modifies cave`nodes, cave.Repr, n
      ensures cave.Valid()
      ensures n.r == old(n.r) - CarveDamage(vel, sqrt)
      ensures var reach := n.r + 18.0;
              forall m <- old(cave.nodes) :: m != n ==>
                m.r == old(m.r) - (if old(Touches(m, n.pos, reach)) then 0.35 * CarveDamage(vel, sqrt) else 0.0)
      ensures forall m <- cave.Repr :: m != n && m !in old(cave.nodes) ==> m.r == old(m.r)
      ensures forall m <- cave.Repr :: m.r <= old(m.r)
      ensures forall m <- cave.nodes :: m in old(cave.nodes)
      ensures forall m <- old(cave.nodes) :: MinRadius <= m.r ==> m in cave.nodes
    {
      var speedFactor := Constrain(sqrt(NormSq(vel)) / 8.0, 0.5, 3.0);
      var damage := 1.6 * speedFactor;
      cave.Dig(n, damage);
      SplashAround(n, cave, damage * 0.35);
    }

    /** The neighbour search and splash loop of the carve: every node other
        than n within n.r + 18 of n's centre is dug by amount. */
    method SplashAround(n: CaveNode, cave: Cave, amount: real)
      requires cave.Valid() && 0.0 <= amount
      modifies cave`nodes, cave.Repr
      ensures cave.Valid()
      ensures forall m <- old(cave.nodes) :: m != n ==>
                m.r == old(m.r) - (if old(Touches(m, n.pos, n.r + 18.0)) then amount else 0.0)
      ensures forall m <- cave.Repr :: m != n && m !in old(cave.nodes) ==> m.r == old(m.r)
      ensures n.r == old(n.r)
      ensures forall m <- cave.nodes :: m in old(cave.nodes)
      ensures forall m <- old(cave.nodes) :: MinRadius <= m.r ==> m in cave.nodes
    {
      var neighbors := cave.NodesInRange(n.pos, n.r + 18.0);
      InRangeDistinct(cave.nodes, n.pos, n.r + 18.0);
      forall m <- old(cave.nodes) ensures m in neighbors <==> m in cave.nodes && Touches(m, n.pos, n.r + 18.0) {
        InRangeMembers(cave.nodes, n.pos, n.r + 18.0, m);
      }
      forall m <- neighbors ensures m in cave.nodes {
        InRangeMembers(cave.nodes, n.pos, n.r + 18.0, m);
      }
      Splash(n, neighbors, cave, amount);
    }

    /** The splash loop: digs every node of neighbors except n by amount,
        once each. Nothing else shrinks, and a node leaves the cave only
        when it drops below MinRadius. */
    method Splash(n: CaveNode, neighbors: seq<CaveNode>, cave: Cave, amount: real)
      requires cave.Valid() && 0.0 <= amount
      requires forall m <- neighbors :: m in cave.nodes
      requires forall i, j :: 0 <= i < j < |neighbors| ==> neighbors[i] != neighbors[j]
      modifies cave`nodes, cave.Repr
      ensures cave.Valid()
      ensures forall m <- neighbors :: m != n ==> m.r == old(m.r) - amount
      ensures forall m <- cave.Repr :: (m !in neighbors || m == n) ==> m.r == old(m.r)
      ensures n.r == old(n.r)
      ensures forall m <- cave.nodes :: m in old(cave.nodes)
      ensures forall m <- old(cave.nodes) :: MinRadius <= m.r ==> m in cave.nodes
    {
      var i := 0;
      while i < |neighbors|
        invariant 0 <= i <= |neighbors|
        invariant cave.Valid()
        invariant forall k :: 0 <= k < i && neighbors[k] != n ==> neighbors[k].r == old(neighbors[k].r) - amount
        invariant forall m <- cave.Repr :: (m !in neighbors[..i] || m == n) ==> m.r == old(m.r)
        invariant n.r == old(n.r)
        invariant forall m <- cave.nodes :: m in old(cave.nodes)
        invariant forall m <- old(cave.nodes) :: MinRadius <= m.r ==> m in cave.nodes
      {
        var m := neighbors[i];
        if m != n {
          assert m in old(cave.nodes) && m !in neighbors[..i];
          cave.Dig(m, amount);
        }
        assert neighbors[..i + 1] == neighbors[..i] + [m];
        i := i + 1;
      }
      assert neighbors[..i] == neighbors;
    }

    /** The dwarf loop of update(game): the first non-owner dwarf within
        reach is knocked away, stunned for 360 frames and kills the ball. */
    method StrikeDwarfs(dwarfs: seq<Dwarf>, sqrt: real -> real) returns (ghost hit: int)
      requires forall d <- dwarfs :: d.Valid()
      requires forall i, j :: 0 <= i < j < |dwarfs| ==> dwarfs[i] != dwarfs[j]
      modifies this`isDead, dwarfs
      ensures forall d <- dwarfs :: d.Valid()
      ensures -1 <= hit < |dwarfs|
      ensures isDead == (old(isDead) || 0 <= hit)
      ensures forall j :: 0 <= j < |dwarfs| && j != hit ==> unchanged(dwarfs[j])
      ensures forall j :: 0 <= j < (if hit < 0 then |dwarfs| else hit) ==> !Strikes(dwarfs[j], sqrt)
      ensures 0 <= hit ==> Struck(dwarfs[hit], sqrt)
    {
      hit := -1;
      var i := 0;
      while i < |dwarfs|
        invariant 0 <= i <= |dwarfs|
        invariant forall j :: 0 <= j < i ==> !Strikes(dwarfs[j], sqrt)
        invariant forall j :: 0 <= j < |dwarfs| ==> unchanged(dwarfs[j])
        invariant isDead == old(isDead)
      {
        var d := dwarfs[i];
        assert d in dwarfs;
        if d.id != owner && sqrt(DistSq(pos, d.pos)) < HitRange {
          var impulse := Scale(Normalize(Sub(d.pos, pos), sqrt), 3.0);
          d.vel := Add(d.vel, impulse);
          d.Stun(StunFrames);
          isDead := true;
          hit := i;
          return;
        }
        i := i + 1;
      }
    }
  }
}
