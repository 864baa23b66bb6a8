/** The jelly miner's game loop: two dwarfs, the cave, the flying weapons,
    twelve gems and the two scores. */
module JellyGame {
  import opened Geometry
  import opened JellyCave
  import opened JellyDwarf
  import opened JellyWeapon

  /** The settings of a round: gravity, the cave grid's spacing and node
      radius, the number of gems, and the key code of R, which restarts. */
  const Gravity := 0.55
  const Spacing := 40
  const NodeRadius := 28.0
  const GemCount := 12
  const RestartKey := 82

  /** v lies between a and b, the range p5's random(a, b) draws from. */
  predicate Between(v: real, a: int, b: int) {
    if a <= b then a as real <= v <= b as real else b as real <= v <= a as real
  }

  /** A gem scattered inside the cave region, with radius random(8, 14). */
  predicate Placed(g: Gem, width: int, height: int) {
    Between(g.pos.x, 120, width - 120) && Between(g.pos.y, 140, height - 120) && 8.0 <= g.r < 14.0
  }

  /** The index of the first dwarf that can collect gem g, or -1: the dwarf
      the gem loop awards it to. */
  function FirstCollector(ds: seq<Dwarf>, g: Gem, cave: Cave): (k: int)
    reads ds, cave, cave.nodes
    ensures -1 <= k < |ds|
    ensures 0 <= k ==> ds[k].Collectible(g, cave)
    ensures forall j :: 0 <= j < (if k < 0 then |ds| else k) ==> !ds[j].Collectible(g, cave)
  {
    if ds == [] then -1
    else if ds[0].Collectible(g, cave) then 0
    else
      var k := FirstCollector(ds[1..], g, cave);
      if k < 0 then -1 else k + 1
  }

  /** FirstCollector is pinned down by its contract: the index k it
      returns is the only one that satisfies it. */
  lemma {:induction false} CollectorIsFirst(ds: seq<Dwarf>, g: Gem, cave: Cave, k: int)
    requires -1 <= k < |ds|
    requires 0 <= k ==> ds[k].Collectible(g, cave)
    requires forall j :: 0 <= j < (if k < 0 then |ds| else k) ==> !ds[j].Collectible(g, cave)
    ensures FirstCollector(ds, g, cave) == k
  {
    if ds != [] && !ds[0].Collectible(g, cave) {
      CollectorIsFirst(ds[1..], g, cave, if k < 0 then -1 else k - 1);
    }
  }

  /** The award of every gem of gs: the index of the dwarf it goes to, or
      -1 when nobody can collect it. */
  function Awards(gs: seq<Gem>, ds: seq<Dwarf>, cave: Cave): (aw: seq<int>)
    reads ds, cave, cave.nodes
    ensures |aw| == |gs|
    ensures forall a <- aw :: -1 <= a < |ds|
  {
    if gs == [] then [] else [FirstCollector(ds, gs[0], cave)] + Awards(gs[1..], ds, cave)
  }

  /** The award of the i-th gem is its first collector. */
  lemma {:induction false} AwardAt(gs: seq<Gem>, ds: seq<Dwarf>, cave: Cave, i: int)
    requires 0 <= i < |gs|
    ensures Awards(gs, ds, cave)[i] == FirstCollector(ds, gs[i], cave)
  {
    if i > 0 {
      AwardAt(gs[1..], ds, cave, i - 1);
    }
  }

  /** The gems of gs whose award is -1, in order. */
  function Kept(gs: seq<Gem>, aw: seq<int>): (out: seq<Gem>)
    requires |aw| == |gs|
    ensures |out| <= |gs|
  {
    if gs == [] then [] else (if aw[0] < 0 then [gs[0]] else []) + Kept(gs[1..], aw[1..])
  }

  /** The number of awards that go to dwarf di. */
  function Count(aw: seq<int>, di: int): nat {
    if aw == [] then 0 else (if aw[0] == di then 1 else 0) + Count(aw[1..], di)
  }

  /** The gems of gs nobody can collect, in order. */
  function Uncollected(gs: seq<Gem>, ds: seq<Dwarf>, cave: Cave): seq<Gem>
    reads ds, cave, cave.nodes
  {
    Kept(gs, Awards(gs, ds, cave))
  }

  /** The number of gems of gs awarded to dwarf di. */
  function CollectedBy(gs: seq<Gem>, ds: seq<Dwarf>, cave: Cave, di: int): nat
    reads ds, cave, cave.nodes
  {
    Count(Awards(gs, ds, cave), di)
  }

  /** One step of the gem loop, from the back: the gem at index i is either
      kept or awarded. */
  lemma GemStep(gs: seq<Gem>, aw: seq<int>, i: int)
    requires |aw| == |gs| && 0 <= i < |gs|
    ensures Kept(gs[i..], aw[i..]) == (if aw[i] < 0 then [gs[i]] else []) + Kept(gs[i + 1..], aw[i + 1..])
    ensures Count(aw[i..], 0) == (if aw[i] == 0 then 1 else 0) + Count(aw[i + 1..], 0)
    ensures Count(aw[i..], 1) == (if aw[i] == 1 then 1 else 0) + Count(aw[i + 1..], 1)
  {
    assert gs[i..][0] == gs[i] && aw[i..][0] == aw[i];
    assert gs[i..][1..] == gs[i + 1..] && aw[i..][1..] == aw[i + 1..];
  }

  /** The gem loop's bookkeeping for index gi: before the step the gem at
      gi is still in place; after it, the gems are the untouched prefix, the
      kept gems from gi on, and one more replacement if gi was awarded. */
  lemma GemLoopStep(gs: seq<Gem>, aw: seq<int>, gi: int, spawn: seq<Gem>, spawned: int, gems: seq<Gem>)
    requires |aw| == |gs| && 0 <= gi < |gs| && 0 <= spawned < |spawn|
    requires gems == gs[..gi + 1] + Kept(gs[gi + 1..], aw[gi + 1..]) + spawn[..spawned]
    ensures gi < |gems| && gems[gi] == gs[gi]
    ensures aw[gi] < 0 ==> gems == gs[..gi] + Kept(gs[gi..], aw[gi..]) + spawn[..spawned]
    ensures 0 <= aw[gi] ==>
              gems[..gi] + gems[gi + 1..] + [spawn[spawned]] == gs[..gi] + Kept(gs[gi..], aw[gi..]) + spawn[..spawned + 1]
  {
    GemStep(gs, aw, gi);
    assert gs[..gi + 1] == gs[..gi] + [gs[gi]];
    assert spawn[..spawned + 1] == spawn[..spawned] + [spawn[spawned]];
    Splice(gs[..gi], gs[gi], Kept(gs[gi + 1..], aw[gi + 1..]), spawn[..spawned], spawn[spawned]);
  }

  /** Cutting pre + [g] + mid + post at |pre| finds g; taking it out and
      appending x leaves pre + mid + post + [x]. */
  lemma Splice<T>(pre: seq<T>, g: T, mid: seq<T>, post: seq<T>, x: T)
    ensures var s := pre + [g] + mid + post;
            && |pre| < |s| && s[|pre|] == g
            && s == pre + ([g] + mid) + post
            && s[..|pre|] + s[|pre| + 1..] + [x] == pre + mid + (post + [x])
  {
    var s := pre + [g] + mid + post;
    assert s[..|pre|] == pre;
    assert s[|pre| + 1..] == mid + post;
  }

  /** With two dwarfs every award is -1, 0 or 1, so every gem is either
      kept or scores exactly one point for exactly one of the two players. */
  lemma {:induction false} OnePointPerGem(gs: seq<Gem>, ds: seq<Dwarf>, cave: Cave)
    requires |ds| == 2
    ensures CollectedBy(gs, ds, cave, 0) + CollectedBy(gs, ds, cave, 1) + |Uncollected(gs, ds, cave)| == |gs|
  {
    AwardsPartition(gs, Awards(gs, ds, cave));
  }

  lemma {:induction false} AwardsPartition(gs: seq<Gem>, aw: seq<int>)
    requires |aw| == |gs| && forall a <- aw :: -1 <= a < 2
    ensures Count(aw, 0) + Count(aw, 1) + |Kept(gs, aw)| == |gs|
  {
    if gs != [] {
      assert aw[0] in aw;
      assert forall a <- aw[1..] :: a in aw;
      AwardsPartition(gs[1..], aw[1..]);
    }
  }

  /** No element of s is listed twice. */
  predicate Distinct<T(==)>(s: seq<T>) {
    forall i, j :: 0 <= i < j < |s| ==> s[i] != s[j]
  }

  /** The isDead flag of every weapon of ws. */
  function Deaths(ws: seq<Weapon>): (dead: seq<bool>)
    reads ws
    ensures |dead| == |ws|
  {
    if ws == [] then [] else [ws[0].isDead] + Deaths(ws[1..])
  }

  /** Deaths is read off the weapons one by one. */
  lemma {:induction false} DeathsAre(ws: seq<Weapon>, dead: seq<bool>)
    requires |dead| == |ws| && forall k :: 0 <= k < |ws| ==> ws[k].isDead == dead[k]
    ensures Deaths(ws) == dead
  {
    if ws != [] {
      DeathsAre(ws[1..], dead[1..]);
    }
  }

  /** The weapons of ws whose flag in dead is false, in order. */
  function Live(ws: seq<Weapon>, dead: seq<bool>): (out: seq<Weapon>)
    requires |dead| == |ws|
    ensures |out| <= |ws|
  {
    if ws == [] then [] else (if dead[0] then [] else [ws[0]]) + Live(ws[1..], dead[1..])
  }

  /** The weapons of ws still alive, in order. */
  function Survivors(ws: seq<Weapon>): seq<Weapon>
    reads ws
  {
    Live(ws, Deaths(ws))
  }

  /** Survivors takes the weapons one at a time. */
  lemma SurvivorsUnfold(ws: seq<Weapon>)
    requires ws != []
    ensures Survivors(ws) == (if ws[0].isDead then [] else [ws[0]]) + Survivors(ws[1..])
  {
    assert Deaths(ws)[1..] == Deaths(ws[1..]);
  }

  /** Before the weapon loop's step at index i the weapon there is ws[i]. */
  lemma PruneAt<T>(ws: seq<T>, i: int, rest: seq<T>, s: seq<T>)
    requires 0 <= i < |ws| && s == ws[..i + 1] + rest
    ensures s == ws[..i] + [ws[i]] + rest
    ensures i < |s| && s[i] == ws[i]
  {
    assert ws[..i + 1] == ws[..i] + [ws[i]];
  }

  /** The weapon loop's bookkeeping: a weapon g still alive (d false)
      stays in place; a dead one is spliced out. */
  lemma PruneStep<T>(pre: seq<T>, g: T, rest: seq<T>, tail: seq<T>, d: bool, s: seq<T>)
    requires s == pre + [g] + rest
    requires tail == (if d then [] else [g]) + rest
    ensures !d ==> s == pre + tail
    ensures d ==> |pre| < |s| && s[..|pre|] + s[|pre| + 1..] == pre + tail
  {
    if d {
      assert tail == rest;
      assert s[..|pre|] == pre;
      assert s[|pre| + 1..] == rest;
    }
  }

  /** What the weapon loop knows once it has stepped weapons i.. of ws:
      every weapon is valid, and dead records which of those stepped died. */
  ghost predicate Stepped(ws: seq<Weapon>, dead: seq<bool>, i: int)
    reads ws
  {
    && 0 <= i <= |ws| == |dead|
    && (forall k :: 0 <= k < |ws| ==> ws[k].Valid())
    && (forall k :: i <= k < |ws| ==> ws[k].isDead == dead[k])
  }

  /** A dwarf's input after a key press: kept while stunned, otherwise the
      key's flag is set. */
  ghost predicate Pressed(d: Dwarf, input: Input, stunned: bool, kc: int)
    reads d
  {
    d.input == (if stunned then input else Press(input, d.controls, kc))
  }

  /** A dwarf's timers after one update: the cooldown and the stun timer
      have each counted down by one unless already at zero. */
  ghost predicate Ticked(d: Dwarf, cooldown: int, timer: int)
    reads d
  {
    && d.shootCooldown == (if cooldown > 0 then cooldown - 1 else 0)
    && d.stunTimer == (if timer > 0 then timer - 1 else 0)
  }

  /** One step of the weapon loop, from the back. */
  lemma LiveStep(ws: seq<Weapon>, dead: seq<bool>, i: int)
    requires 0 <= i < |ws| && |dead| == |ws| - i
    ensures Live(ws[i..], dead) == (if dead[0] then [] else [ws[i]]) + Live(ws[i + 1..], dead[1..])
  {
    assert ws[i..][0] == ws[i];
    assert ws[i..][1..] == ws[i + 1..];
  }

  /** One step of the weapon loop, from the back: once weapon i is known
      to be dead (d) or alive, dropping it or keeping it extends the pruned
      suffix by one weapon. */
  lemma PruneOne(ws: seq<Weapon>, dead: seq<bool>, i: int, d: bool, cur: seq<Weapon>)
    requires 0 <= i < |ws| == |dead|
    requires cur == ws[..i] + [ws[i]] + Live(ws[i + 1..], dead[i + 1..])
    ensures i < |cur|
    ensures (if d then cur[..i] + cur[i + 1..] else cur) == ws[..i] + Live(ws[i..], dead[i := d][i..])
  {
    var dead' := dead[i := d];
    LiveStep(ws, dead'[i..], i);
    assert dead'[i..][0] == d && dead'[i..][1..] == dead[i + 1..];
    PruneStep(ws[..i], ws[i], Live(ws[i + 1..], dead[i + 1..]), Live(ws[i..], dead'[i..]), d, cur);
  }

  /** Exactly the live weapons survive. */
  lemma {:induction false} SurvivorsMembers(ws: seq<Weapon>, w: Weapon)
    ensures w in Survivors(ws) <==> w in ws && !w.isDead
  {
    if ws != [] {
      SurvivorsUnfold(ws);
      SurvivorsMembers(ws[1..], w);
      assert ws == [ws[0]] + ws[1..];
    }
  }

  /** No weapon survives twice. */
  lemma {:induction false} SurvivorsDistinct(ws: seq<Weapon>)
    requires Distinct(ws)
    ensures Distinct(Survivors(ws))
  {
    if ws != [] {
      SurvivorsUnfold(ws);
      SurvivorsDistinct(ws[1..]);
      SurvivorsMembers(ws[1..], ws[0]);
      assert ws[0] !in ws[1..];
    }
  }

  /** kc is one of the two keys that fire for controls c. */
  predicate FireKey(c: Controls, kc: int) {
    kc == c.down || kc == c.shoot
  }

  /** A dwarf as it starts a round: at rest, facing right, with no input,
      ready to shoot and not stunned. */
  ghost predicate AtRest(d: Dwarf)
    reads d
  {
    && d.vel == Zero && d.input == NoInput && d.shootCooldown == 0
    && d.facing == 1 && !d.stunned && d.stunTimer == 0
  }

  /** The state a round starts in on a width x height canvas: the cave
      with spacing 40 and node radius 28, laid as the grid of the drawn
      cells with every node at full radius, and the two dwarfs a fifth of
      the way down, a quarter in from either side, at rest. */
  ghost predicate RoundStart(cave: Cave, dwarfs: seq<Dwarf>, width: int, height: int, cells: (int, int) -> CellDraw)
    reads cave, cave.nodes, dwarfs
  {
    && cave.spacing == Spacing && cave.nodeRadius == NodeRadius
    && SeedsOf(cave.nodes) == GridFrom(Margin, Spacing, NodeRadius, width, height, cells)
    && (forall n <- cave.nodes :: n.r == n.maxR && cave.Laid(n, width, height))
    && |dwarfs| == 2
    && dwarfs[0].pos == Vec(width as real * 0.25, height as real * 0.2)
    && dwarfs[1].pos == Vec(width as real * 0.75, height as real * 0.2)
    && AtRest(dwarfs[0]) && AtRest(dwarfs[1])
  }

  /** Dwarf d would fire on key kc: kc is its down or shoot key, its
      cooldown has run out and it is not stunned. */
  ghost predicate Fires(d: Dwarf, kc: int)
    reads d
  {
    FireKey(d.controls, kc) && d.shootCooldown <= 0 && !d.stunned
  }

  /** The shot dwarf d fires on key kc: straight down for its down key,
      otherwise along the side aim of its facing. */
  ghost function ShotFor(d: Dwarf, kc: int, downAim: Vec, sideAim: int -> Vec): Shot
    reads d
  {
    d.ShotAlong(if kc == d.controls.down then downAim else sideAim(d.facing))
  }

  /** w is a weapon just launched by shot: alive at the shot's origin with
      speed 8 along its direction, 6 bounces and 420 frames of life. */
  ghost predicate Launched(w: Weapon, shot: Shot)
    reads w
  {
    && w.Valid() && !w.isDead && w.owner == shot.owner
    && w.pos == shot.origin && w.vel == Scale(shot.dir, LaunchSpeed)
    && w.bounces == StartBounces && w.life == StartLife
  }

  /** A key event left dwarf d's position, velocity, facing and stun state
      as they were. */
  twostate predicate Steady(d: Dwarf)
    reads d
  {
    && d.pos == old(d.pos) && d.vel == old(d.vel) && d.facing == old(d.facing)
    && d.stunned == old(d.stunned) && d.stunTimer == old(d.stunTimer)
  }

  /** A fresh round on a width x height canvas: the cave grid, the two
      dwarfs a fifth of the way down, a quarter in from either side, and
      the gems drawn for it. */
  method NewRound(width: int, height: int, cells: (int, int) -> CellDraw, gemDraws: seq<Gem>)
    returns (cave: Cave, dwarfs: seq<Dwarf>, gems: seq<Gem>)
    requires DrawsInRange(cells, Spacing)
    requires |gemDraws| == GemCount && forall g <- gemDraws :: Placed(g, width, height)
    ensures fresh(cave) && cave.Valid() && forall n <- cave.nodes :: fresh(n)
    ensures |dwarfs| == 2 && fresh(dwarfs[0]) && fresh(dwarfs[1]) && dwarfs[0] != dwarfs[1]
    ensures dwarfs[0].Valid() && dwarfs[0].id == 0 && dwarfs[0].controls == Player1Keys
    ensures dwarfs[1].Valid() && dwarfs[1].id == 1 && dwarfs[1].controls == Player2Keys
    ensures RoundStart(cave, dwarfs, width, height, cells)
    ensures gems == gemDraws
  {
    cave := new Cave(Spacing, NodeRadius, width, height, cells);
    var d0 := new Dwarf(width as real * 0.25, height as real * 0.2, Player1Keys, 0);
    var d1 := new Dwarf(width as real * 0.75, height as real * 0.2, Player2Keys, 1);
    dwarfs := [d0, d1];
    gems := [];
    for i := 0 to GemCount
      invariant gems == gemDraws[..i]
    {
      gems := gems + [gemDraws[i]];
    }
  }

  /** The index of the first dwarf that can collect g: the inner loop of
      the gem loop. */
  method Collector(ds: seq<Dwarf>, g: Gem, cave: Cave) returns (who: int)
    ensures who == FirstCollector(ds, g, cave)
  {
    who := 0;
    while who < |ds|
      invariant 0 <= who <= |ds|
      invariant forall j :: 0 <= j < who ==> !ds[j].Collectible(g, cave)
    {
      var ok := ds[who].CanCollect(g, cave);
      if ok {
        CollectorIsFirst(ds, g, cave, who);
        return;
      }
      who := who + 1;
    }
    CollectorIsFirst(ds, g, cave, -1);
    who := -1;
  }

  /** Collector, for the gem at index gi of gs. */
  method Award(ds: seq<Dwarf>, g: Gem, cave: Cave, ghost gs: seq<Gem>, ghost aw: seq<int>, ghost gi: int) returns (who: int)
    requires 0 <= gi < |gs| && gs[gi] == g && aw == Awards(gs, ds, cave)
    ensures |aw| == |gs| && who == aw[gi] && -1 <= who < |ds|
  {
    who := Collector(ds, g, cave);
    AwardAt(gs, ds, cave, gi);
  }

  /** The gem loop of update(), run from the last gem to the first: each
      gem the first able dwarf can collect scores for that dwarf and is
      replaced by the next gem of spawn, appended at the end. */
  method GemLoop(gems: seq<Gem>, scores: seq<int>, spawn: seq<Gem>, ds: seq<Dwarf>, cave: Cave)
    returns (gemsOut: seq<Gem>, scoresOut: seq<int>)
    requires |scores| == 2 && |ds| == 2 && |gems| <= |spawn|
    ensures var kept := Uncollected(gems, ds, cave);
            gemsOut == kept + spawn[..|gems| - |kept|]
    ensures |scoresOut| == 2
    ensures scoresOut[0] == scores[0] + CollectedBy(gems, ds, cave, 0)
    ensures scoresOut[1] == scores[1] + CollectedBy(gems, ds, cave, 1)
  {
    ghost var gs := gems;
    ghost var aw := Awards(gs, ds, cave);
    var gemsNow, scoresNow := gems, scores;
    var spawned := 0;
    var gi := |gemsNow|;
    while gi > 0
      invariant 0 <= gi <= |gs| <= |spawn|
      invariant spawned == |gs| - gi - |Kept(gs[gi..], aw[gi..])|
      invariant 0 <= spawned <= |spawn|
      invariant gemsNow == gs[..gi] + Kept(gs[gi..], aw[gi..]) + spawn[..spawned]
      invariant |scoresNow| == 2
      invariant scoresNow[0] == scores[0] + Count(aw[gi..], 0)
      invariant scoresNow[1] == scores[1] + Count(aw[gi..], 1)
    {
      gi := gi - 1;
      GemStep(gs, aw, gi);
      GemLoopStep(gs, aw, gi, spawn, spawned, gemsNow);
      var who := Award(ds, gemsNow[gi], cave, gs, aw, gi);
      if 0 <= who {
        scoresNow := scoresNow[who := scoresNow[who] + 1];
        gemsNow := gemsNow[..gi] + gemsNow[gi + 1..] + [spawn[spawned]];
        spawned := spawned + 1;
      }
    }
    assert gs[0..] == gs && aw[0..] == aw;
    gemsOut, scoresOut := gemsNow, scoresNow;
  }

  class Game {
    const width: int
    const height: int
    var gravity: real
    var cave: Cave
    var gems: seq<Gem>
    var weapons: seq<Weapon>
    var scores: seq<int>
    var dwarfs: seq<Dwarf>

    /** The two dwarfs are distinct, numbered 0 and 1 and on their own
        keys; every dwarf, weapon and the cave keep their invariants; no
        weapon is listed twice; there are two scores; gravity is the
        round's setting, which only a new round assigns. */
    ghost predicate Valid()
      reads this, cave, cave.nodes, dwarfs, weapons
    {
      && gravity == Gravity
      && Ready()
      && dwarfs[0].id == 0 && dwarfs[0].controls == Player1Keys
      && dwarfs[1].id == 1 && dwarfs[1].controls == Player2Keys
      && Distinct(weapons)
      && (forall w <- weapons :: w.Valid())
      && |scores| == 2
    }

    /** The part of Valid that updating a weapon relies on and keeps: the
        cave and the two distinct dwarfs keep their invariants. */
    ghost predicate Ready()
      reads this, cave, cave.nodes, dwarfs
    {
      && cave.Valid()
      && |dwarfs| == 2 && dwarfs[0] != dwarfs[1]
      && (forall d <- dwarfs :: d.Valid())
    }

    /** new Game(): a first round. */
    constructor (width: int, height: int, cells: (int, int) -> CellDraw, gemDraws: seq<Gem>)
      requires DrawsInRange(cells, Spacing)
      requires |gemDraws| == GemCount && forall g <- gemDraws :: Placed(g, width, height)
      ensures Valid()
      ensures this.width == width && this.height == height
      ensures gravity == Gravity && fresh(cave) && gems == gemDraws && weapons == [] && scores == [0, 0]
      ensures fresh(dwarfs[0]) && fresh(dwarfs[1]) && RoundStart(cave, dwarfs, width, height, cells)
    {
      this.width := width;
      this.height := height;
      var c, ds, gs := NewRound(width, height, cells, gemDraws);
      gravity, cave, gems, weapons, scores, dwarfs := Gravity, c, gs, [], [0, 0], ds;
    }

    /** reset(): a new round, scores back to zero. */
    method Reset(cells: (int, int) -> CellDraw, gemDraws: seq<Gem>)
      requires DrawsInRange(cells, Spacing)
      requires |gemDraws| == GemCount && forall g <- gemDraws :: Placed(g, width, height)
      modifies this
      ensures Valid()
      ensures gravity == Gravity && fresh(cave) && gems == gemDraws && weapons == [] && scores == [0, 0]
      ensures fresh(dwarfs[0]) && fresh(dwarfs[1]) && RoundStart(cave, dwarfs, width, height, cells)
    {
      var c, ds, gs := NewRound(width, height, cells, gemDraws);
      gravity, cave, gems, weapons, scores, dwarfs := Gravity, c, gs, [], [0, 0], ds;
    }

    /** spawnWeapon(x, y, angle, ownerId): appends a freshly launched weapon. */
    method SpawnWeapon(shot: Shot)
      modifies this`weapons
      ensures |weapons| == |old(weapons)| + 1 && weapons[..|old(weapons)|] == old(weapons)
      ensures fresh(weapons[|old(weapons)|]) && Launched(weapons[|old(weapons)|], shot)
    {
      var w := new Weapon(shot);
      weapons := weapons + [w];
    }

    /** onKeyPressed(kc): R starts a new round; then every dwarf sees the
        key. Since the two players' keys differ, one key press launches at
        most one weapon, and R launches none. */
    method OnKeyPressed(kc: int, downAim: Vec, sideAim: int -> Vec, cells: (int, int) -> CellDraw, gemDraws: seq<Gem>)
      requires Valid()
      requires DownAim(downAim) && SideAim(sideAim(1), 1) && SideAim(sideAim(-1), -1)
      requires DrawsInRange(cells, Spacing)
      requires |gemDraws| == GemCount && forall g <- gemDraws :: Placed(g, width, height)
      modifies this, dwarfs
      ensures Valid()
      ensures kc == RestartKey ==>
                && fresh(cave) && gems == gemDraws && weapons == [] && scores == [0, 0]
                && fresh(dwarfs[0]) && fresh(dwarfs[1]) && RoundStart(cave, dwarfs, width, height, cells)
      ensures kc != RestartKey ==> cave == old(cave) && gems == old(gems) && scores == old(scores) && dwarfs == old(dwarfs)
      ensures kc != RestartKey ==>
                forall i :: 0 <= i < 2 ==>
                  && Pressed(dwarfs[i], old(dwarfs[i].input), old(dwarfs[i].stunned), kc) && Steady(dwarfs[i])
                  && dwarfs[i].shootCooldown == (if old(Fires(dwarfs[i], kc)) then ShootCooldownFrames else old(dwarfs[i].shootCooldown))
      ensures kc != RestartKey ==>
                && |weapons| == |old(weapons)| + (if old(Fires(dwarfs[0], kc) || Fires(dwarfs[1], kc)) then 1 else 0)
                && weapons[..|old(weapons)|] == old(weapons)
                && forall i :: 0 <= i < 2 && old(Fires(dwarfs[i], kc)) ==>
                     fresh(weapons[|old(weapons)|])
                     && Launched(weapons[|old(weapons)|], old(ShotFor(dwarfs[i], kc, downAim, sideAim)))
    {
      if kc == RestartKey {
        Reset(cells, gemDraws);
      }
      DeliverKey(kc, downAim, sideAim);
    }

    /** The dwarf loop of onKeyPressed. Since the two players' fire keys
        differ, at most one dwarf fires. */
    method DeliverKey(kc: int, downAim: Vec, sideAim: int -> Vec)
      requires Valid()
      requires DownAim(downAim) && SideAim(sideAim(1), 1) && SideAim(sideAim(-1), -1)
      modifies this`weapons, dwarfs
      ensures Valid()
      ensures forall i :: 0 <= i < 2 ==>
                && Pressed(dwarfs[i], old(dwarfs[i].input), old(dwarfs[i].stunned), kc) && Steady(dwarfs[i])
                && dwarfs[i].shootCooldown == (if old(Fires(dwarfs[i], kc)) then ShootCooldownFrames else old(dwarfs[i].shootCooldown))
      ensures |weapons| == |old(weapons)| + (if old(Fires(dwarfs[0], kc) || Fires(dwarfs[1], kc)) then 1 else 0)
      ensures weapons[..|old(weapons)|] == old(weapons)
      ensures forall i :: 0 <= i < 2 && old(Fires(dwarfs[i], kc)) ==>
                fresh(weapons[|old(weapons)|]) && Launched(weapons[|old(weapons)|], old(ShotFor(dwarfs[i], kc, downAim, sideAim)))
    {
      var i := 0;
      while i < |dwarfs|
        invariant 0 <= i <= 2
        invariant Valid()
        invariant forall j :: i <= j < 2 ==> unchanged(dwarfs[j])
        invariant forall j :: 0 <= j < i ==>
                    && Pressed(dwarfs[j], old(dwarfs[j].input), old(dwarfs[j].stunned), kc) && Steady(dwarfs[j])
                    && dwarfs[j].shootCooldown == (if old(Fires(dwarfs[j], kc)) then ShootCooldownFrames else old(dwarfs[j].shootCooldown))
        invariant |weapons| == |old(weapons)| + (if (0 < i && old(Fires(dwarfs[0], kc))) || (1 < i && old(Fires(dwarfs[1], kc))) then 1 else 0)
        invariant weapons[..|old(weapons)|] == old(weapons)
        invariant forall j :: 0 <= j < i && old(Fires(dwarfs[j], kc)) ==>
                    fresh(weapons[|old(weapons)|]) && Launched(weapons[|old(weapons)|], old(ShotFor(dwarfs[j], kc, downAim, sideAim)))
      {
        var _ := PressFor(i, kc, downAim, sideAim);
        i := i + 1;
      }
    }

    /** keyPressed delivered to dwarf i, and the weapon its shot (if any)
        spawns. */
    method PressFor(i: int, kc: int, downAim: Vec, sideAim: int -> Vec) returns (fired: bool)
      requires 0 <= i < 2 && Valid()
      requires DownAim(downAim) && SideAim(sideAim(1), 1) && SideAim(sideAim(-1), -1)
      modifies this`weapons, dwarfs[i]
      ensures Valid()
      ensures Pressed(dwarfs[i], old(dwarfs[i].input), old(dwarfs[i].stunned), kc) && Steady(dwarfs[i])
      ensures fired == old(Fires(dwarfs[i], kc))
      ensures dwarfs[i].shootCooldown == (if fired then ShootCooldownFrames else old(dwarfs[i].shootCooldown))
      ensures |weapons| == |old(weapons)| + (if fired then 1 else 0)
      ensures weapons[..|old(weapons)|] == old(weapons)
      ensures fired ==> fresh(weapons[|old(weapons)|]) && Launched(weapons[|old(weapons)|], old(ShotFor(dwarfs[i], kc, downAim, sideAim)))
    {
      var d := dwarfs[i];
      var shots := d.KeyPressed(kc, downAim, sideAim(d.facing));
      fired := shots != [];
      if fired {
        SpawnWeapon(shots[0]);
      }
    }

    /** onKeyReleased(kc): every dwarf sees the release. */
    method OnKeyReleased(kc: int)
      requires Valid()
      modifies dwarfs
      ensures Valid()
      ensures forall i :: 0 <= i < |dwarfs| ==> dwarfs[i].input == Release(old(dwarfs[i].input), dwarfs[i].controls, kc)
      ensures forall i :: 0 <= i < |dwarfs| ==> Steady(dwarfs[i]) && dwarfs[i].shootCooldown == old(dwarfs[i].shootCooldown)
    {
      var i := 0;
      while i < |dwarfs|
        invariant 0 <= i <= |dwarfs|
        invariant Valid()
        invariant forall j :: 0 <= j < i ==> dwarfs[j].input == Release(old(dwarfs[j].input), dwarfs[j].controls, kc)
        invariant forall j :: i <= j < |dwarfs| ==> dwarfs[j].input == old(dwarfs[j].input)
        invariant forall j :: 0 <= j < |dwarfs| ==> Steady(dwarfs[j]) && dwarfs[j].shootCooldown == old(dwarfs[j].shootCooldown)
      {
        dwarfs[i].KeyReleased(kc);
        i := i + 1;
      }
    }

    /** update(): the dwarfs, then the weapons (the dead ones removed), then
        the gems: each gem the first able dwarf can collect scores for that
        dwarf and is replaced by a fresh one appended at the end.
        jitter(i, k) is dwarf i's random() draw for its k-th nearby node;
        spawn lists the gems drawn to replace the collected ones, in the
        order they are drawn. */
    method Update(sqrt: real -> real, jitter: (int, int) -> real, spawn: seq<Gem>)
      requires Valid() && IsSqrt(sqrt)
      requires forall i, k :: 0.0 <= jitter(i, k) < 1.0
      requires |gems| <= |spawn| && forall g <- spawn :: Placed(g, width, height)
      modifies this, cave`nodes, cave.Repr, (set d <- dwarfs), (set w <- weapons)
      ensures Valid()
      ensures cave == old(cave) && dwarfs == old(dwarfs)
      ensures forall n <- cave.Repr :: n.r <= old(n.r)
      ensures weapons == Survivors(old(weapons))
      ensures var kept := Uncollected(old(gems), dwarfs, cave);
              gems == kept + spawn[..|old(gems)| - |kept|]
      ensures |gems| == |old(gems)|
      ensures |scores| == 2
      ensures scores[0] == old(scores[0]) + CollectedBy(old(gems), dwarfs, cave, 0)
      ensures scores[1] == old(scores[1]) + CollectedBy(old(gems), dwarfs, cave, 1)
    {
      UpdateDwarfs(sqrt, jitter);
      UpdateWeapons(sqrt);
      CollectGems(spawn);
    }

    /** The dwarf loop of update(). */
    method UpdateDwarfs(sqrt: real -> real, jitter: (int, int) -> real)
      requires Valid() && IsSqrt(sqrt)
      requires forall i, k :: 0.0 <= jitter(i, k) < 1.0
      modifies cave`nodes, cave.Repr, (set d <- dwarfs)
      ensures Valid()
      ensures forall n <- cave.Repr :: n.r <= old(n.r)
      ensures forall d <- dwarfs :: Ticked(d, old(d.shootCooldown), old(d.stunTimer))
    {
      var i := 0;
      while i < |dwarfs|
        invariant 0 <= i <= |dwarfs|
        invariant Ready()
        invariant forall n <- cave.Repr :: n.r <= old(n.r)
        invariant forall j :: 0 <= j < i ==> Ticked(dwarfs[j], old(dwarfs[j].shootCooldown), old(dwarfs[j].stunTimer))
        invariant forall j :: i <= j < |dwarfs| ==> unchanged(dwarfs[j])
      {
        StepDwarf(i, sqrt, k => jitter(i, k));
        i := i + 1;
      }
    }

    /** Dwarf.update() for dwarf i of the dwarf loop, with what the loop
        needs to know of it. */
    method StepDwarf(i: int, sqrt: real -> real, jitter: int -> real)
      requires 0 <= i < 2 && Ready() && IsSqrt(sqrt)
      requires forall k :: 0.0 <= jitter(k) < 1.0
      modifies cave`nodes, cave.Repr, dwarfs[i]
      ensures Ready()
      ensures forall n <- cave.Repr :: n.r <= old(n.r)
      ensures Ticked(dwarfs[i], old(dwarfs[i].shootCooldown), old(dwarfs[i].stunTimer))
    {
      dwarfs[i].Update(gravity, cave, width, height, sqrt, jitter);
    }

    /** The weapon loop of update(), run from the last weapon to the first. */
    method UpdateWeapons(sqrt: real -> real)
      requires Valid() && IsSqrt(sqrt)
      modifies this`weapons, cave`nodes, cave.Repr, (set d <- dwarfs), (set w <- weapons)
      ensures Valid()
      ensures forall n <- cave.Repr :: n.r <= old(n.r)
      ensures weapons == Survivors(old(weapons))
    {
      ghost var ws := weapons;
      var live;
      ghost var dead;
      live, dead := StepAll(sqrt);
      weapons := live;
      DeathsAre(ws, dead);
      SurvivorsDistinct(ws);
      forall w <- weapons ensures w.Valid() {
        SurvivorsMembers(ws, w);
      }
    }

    /** The weapon loop of update(): every weapon, from the last to the
        first, is updated; live is the list without the ones that died,
        and dead records which did. */
    method StepAll(sqrt: real -> real) returns (live: seq<Weapon>, ghost dead: seq<bool>)
      requires Valid() && IsSqrt(sqrt)
      modifies cave`nodes, cave.Repr, (set d <- dwarfs), (set w <- weapons)
      ensures Ready() && Distinct(weapons) && Stepped(weapons, dead, 0)
      ensures live == Live(weapons, dead)
      ensures forall n <- cave.Repr :: n.r <= old(n.r)
    {
      ghost var ws := weapons;
      dead := seq(|ws|, k => false);
      live := weapons;
      var i := |live|;
      while i > 0
        invariant Distinct(ws) && Stepped(ws, dead, i)
        invariant live == ws[..i] + Live(ws[i..], dead[i..])
        invariant Ready()
        invariant forall n <- cave.Repr :: n.r <= old(n.r)
      {
        i := i - 1;
        live, dead := StepAndPrune(live, i, sqrt, ws, dead);
      }
      assert ws[0..] == ws && dead[0..] == dead;
    }

    /** One pass of the weapon loop: Weapon.update() for weapon i, which
        is then dropped from the list if it died. */
    method StepAndPrune(live: seq<Weapon>, i: int, sqrt: real -> real, ghost ws: seq<Weapon>, ghost dead: seq<bool>)
      returns (pruned: seq<Weapon>, ghost dead': seq<bool>)
      requires 0 <= i < |ws| && Distinct(ws)
      requires Stepped(ws, dead, i + 1) && Ready() && IsSqrt(sqrt)
      requires live == ws[..i + 1] + Live(ws[i + 1..], dead[i + 1..])
      modifies ws[i], cave`nodes, cave.Repr, (set d <- dwarfs)
      ensures Stepped(ws, dead', i)
      ensures pruned == ws[..i] + Live(ws[i..], dead'[i..])
      ensures Ready()
      ensures forall n <- cave.Repr :: n.r <= old(n.r)
    {
      PruneAt(ws, i, Live(ws[i + 1..], dead[i + 1..]), live);
      var w := live[i];
      StepWeapon(w, sqrt, ws, dead, i);
      PruneOne(ws, dead, i, w.isDead, live);
      dead' := dead[i := w.isDead];
      pruned := if w.isDead then live[..i] + live[i + 1..] else live;
    }

    /** Weapon.update() for weapon i of the weapon loop, with what the loop
        needs to know of it. */
    method StepWeapon(w: Weapon, sqrt: real -> real, ghost ws: seq<Weapon>, ghost dead: seq<bool>, ghost i: int)
      requires 0 <= i < |ws| && ws[i] == w && Distinct(ws)
      requires Stepped(ws, dead, i + 1) && Ready() && IsSqrt(sqrt)
      modifies w, cave`nodes, cave.Repr, (set d <- dwarfs)
      ensures Stepped(ws, dead[i := w.isDead], i)
      ensures Ready()
      ensures forall n <- cave.Repr :: n.r <= old(n.r)
    {
      var _ := w.Update(gravity, cave, dwarfs, sqrt);
    }

    /** The gem loop of update(). */
    method CollectGems(spawn: seq<Gem>)
      requires |scores| == 2 && |dwarfs| == 2 && |gems| <= |spawn|
      modifies this`gems, this`scores
      ensures var kept := Uncollected(old(gems), dwarfs, cave);
              gems == kept + spawn[..|old(gems)| - |kept|]
      ensures |gems| == |old(gems)|
      ensures |scores| == 2
      ensures scores[0] == old(scores[0]) + CollectedBy(old(gems), dwarfs, cave, 0)
      ensures scores[1] == old(scores[1]) + CollectedBy(old(gems), dwarfs, cave, 1)
    {
      gems, scores := GemLoop(gems, scores, spawn, dwarfs, cave);
    }
  }
}
