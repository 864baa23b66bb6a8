# Jelly miner and biplane battle: the per-tick simulation, verified

This project models the game logic of two small p5.js games and proves what
their code promises.

- **Jelly miner** (`jelly_sketch.js`). Two dwarfs fly through a cave made of
  soft circular jelly nodes. A dwarf digs a node by steering into it, and
  fires bouncy weapons. A weapon rebounds off nodes, carves them, and stuns
  the first other dwarf it touches. Gems are freed as the nodes covering
  them shrink; the first dwarf able to reach a gem scores for it, and the
  gem is replaced.
- **Biplane battle** (`sketch.js`). Bubble shots, hot-air balloons that
  respawn after being hit and drop power-ups, bombs whose blast scores for
  the other player, and a particle buffer with a capacity cap.

Positions and velocities are exact `real` vectors (module `Geometry`).
Objects whose methods update their fields in place are classes with
`modifies` frames: `Cave`, `CaveNode`, `Dwarf`, `Weapon`, `Game`, `World`,
`BubbleProjectile`, `Balloon`, `PowerUp` and `Bomb`. Pure tests are
functions and predicates over those fields.

Inputs from outside the game logic are parameters:

- **Square roots.** `mag()`, `dist()` and `normalize()` use an oracle
  `sqrt`, required to be the real square root (`IsSqrt`). Some tests are
  modelled on squared distances where the source calls `dist()`: the node
  range query, `findNodeAt`, `canCollect` and the biplane collision tests.
  A lemma proves each of them equivalent to the distance test it stands for
  (`TouchesIsDistanceTest`, `CollectibleIff`, the `...WithinReach` lemmas).
  The overlap tests of the dwarf and the weapon apply the oracle directly.
- **Randomness.** Each `random(...)` draw is an oracle value constrained to
  p5's range `[a, b)`; the gem placements are allowed the closed range
  `[a, b]`, which admits more draws than p5 makes. These are grid jitter, node radius factors, gem
  placements, the velocity reflection factor, respawn spots and drifts, and
  power-up spread.
- **Angles.** `fromAngle` and `cos`/`sin` become unit direction vectors,
  given with the aim bounds the random spread allows (`SideAim`, `DownAim`).
- **Code not in these files.** The plane is seen as a snapshot of the fields
  the objects read (`PlaneView`). The outcome of `plane.hit()` is an input.
  The undefined constants (`GROUND_Y`, `POWERUP_SIZE`, the bomb blast
  settings, and so on) are parameters.

The modules follow the source:

- `JellyCave`, `JellyDwarf`, `JellyWeapon` and `JellyGame` model
  `jelly_sketch.js`.
- `Biplane` models `sketch.js`.
- `Geometry` and `Wrappers` are shared.

In the source, `tryShoot` and `shootDown` call the global
`game.spawnWeapon` directly. Here they return a `Shot` request, and
`Game.PressFor` spawns the weapon from it. This keeps the dwarf free of a
reference to the game.

The code's floor restitution is 0.35, while the other three walls use 0.3;
the model follows the code (`JellyDwarf.Clamp`). A stunned dwarf keeps its
held inputs, so it still digs while it drifts; the model keeps that too.

The source's comment on the dig test speaks of pushing into the node, but
the normal points from the dwarf towards the node and `pushDot` is minus the
input's component along it. A dwarf therefore digs a node only while its
held directions point away from that node. The model follows the code:
`DigNeedsInputAway` proves the direction.

## Model

| member | source | states |
|---|---|---|
| Geometry.Constrain | jelly_sketch.js:346 | p5's `constrain` returns a value in `[lo, hi]`, and its input unchanged when that is already in range |
| Geometry.SquaredTestIsDistanceTest | sketch.js:45-47 | for a bound `R >= 0`, `distSq < R^2` holds exactly when the distance is below `R` |
| Geometry.SquaredFartherIsDistanceFarther | jelly_sketch.js:311 | `dist > R` holds exactly when `R < 0` or `distSq > R^2` |
| Geometry.NormalizedIsUnit | jelly_sketch.js:337 | dividing a vector by its positive length gives a unit normal |
| Geometry.NormalizeIsUnit | jelly_sketch.js:246 | `normalize()` turns a vector of nonzero length into a unit vector pointing the same way (positive dot product with the input), and leaves a vector of length 0 unchanged |
| JellyCave.CaveNode.constructor | jelly_sketch.js:111 | a node starts at full radius: `r == maxR`, and its centre is the given point |
| JellyCave.TouchesIsDistanceTest | jelly_sketch.js:135 | the squared rim test of the range query holds exactly when `dist(p, n.pos) < rad + n.r` |
| JellyCave.InRange | jelly_sketch.js:135 | the range filter returns at most the nodes it is given, and only nodes from the list |
| JellyCave.InRangeMembers | jelly_sketch.js:135 | a node is reported by the range query exactly when it is in the list and `dist < rad + n.r` |
| JellyCave.InRangeAppend | jelly_sketch.js:135 | the filter distributes over concatenation, so it keeps the nodes' relative order |
| JellyCave.InRangeDistinct | jelly_sketch.js:135 | a list without repeats gives a result without repeats |
| JellyCave.IndexOf | jelly_sketch.js:139 | `indexOf` returns the first position holding x, or -1 exactly when x is absent |
| JellyCave.RemoveFirst | jelly_sketch.js:139 | `splice(indexOf(x), 1)` leaves the list unchanged when x is absent, and otherwise is the list with one occurrence of x cut out |
| JellyCave.RemoveFirstMembers | jelly_sketch.js:139 | in a list without repeats, splicing out x keeps exactly the other elements |
| JellyCave.RemoveFirstKeepsOthers | jelly_sketch.js:139 | in a list without repeats, splicing out x leaves a list without repeats holding every element except x, and nothing else |
| JellyCave.Cell | jelly_sketch.js:123-125 | a cell lays at most one node |
| JellyCave.CellLaid | jelly_sketch.js:123-125 | a cell outside the open top strip, or whose coin is at least 0.85, lays exactly one node: at the grid point moved by its jitter, with radius `nodeRadius * scale` |
| JellyCave.RowFromStep | jelly_sketch.js:121 | the inner loop's cells from x on are cell x followed by the cells from `x + spacing`, and none once x reaches `width - 60` |
| JellyCave.GridFromStep | jelly_sketch.js:120 | the outer loop's rows from y on are row y followed by the rows from `y + spacing`, and none once y reaches `height - 60` |
| JellyCave.RowGrows | jelly_sketch.js:121-126 | appending the nodes of cell x to the nodes laid for the cells before it lays every cell before `x + spacing` |
| JellyCave.GridGrows | jelly_sketch.js:120-127 | appending the nodes of row y to the nodes laid for the rows above it lays every row above `y + spacing` |
| JellyCave.SeedsOf | jelly_sketch.js:125 | the place and full radius of each node, one per node |
| JellyCave.SeedsOfMatch | jelly_sketch.js:125 | each node has the place and full radius of its own entry |
| JellyCave.SeedsOfConcat | jelly_sketch.js:125 | the entries of two runs of nodes are those of the first followed by those of the second |
| JellyCave.SeedsOfOne | jelly_sketch.js:125 | a single node's entry is its place and full radius |
| JellyCave.ScaleWithin | jelly_sketch.js:124 | a radius factor in `[0.85, 1.15)` puts the node radius in `[0.85, 1.15) * nodeRadius` |
| JellyCave.Cave.constructor | jelly_sketch.js:115 | `new Cave(spacing, nodeRadius)` records both settings and lays exactly the grid `GridFrom(60, ...)` of the drawn cells in fresh nodes at full radius |
| JellyCave.Cave.BuildGrid | jelly_sketch.js:116-128 | the old nodes are discarded; the new nodes are, in order, exactly the grid `GridFrom(60, ...)`: row by row from y = 60 and cell by cell from x = 60 in steps of `spacing`, one node per cell not left open; each is fresh, at `r == maxR` within `[0.85, 1.15) * nodeRadius`, and within a quarter spacing of its grid point; the cave invariant `3 <= r <= maxR` holds |
| JellyCave.Cave.LayRow | jelly_sketch.js:121-126 | one row appends exactly the nodes `RowFrom(60, y, ...)` of its cells, in order, all fresh and at full radius, and keeps every node already laid |
| JellyCave.Cave.LayCell | jelly_sketch.js:123-125 | one cell appends exactly `Cell(x, y, ...)`: nothing when the top strip leaves it open, else one fresh node at its jittered grid point with radius `nodeRadius * scale` |
| JellyCave.Cave.FindNodeAt | jelly_sketch.js:130-133 | null exactly when no node contains the point; otherwise the first node in list order that contains it |
| JellyCave.Cave.NodesInRange | jelly_sketch.js:135 | the result is the order-preserving filter `InRange` of the nodes within `rad` of their rim |
| JellyCave.Cave.Dig | jelly_sketch.js:138-140 | a null node is a no-op; otherwise `r` drops by exactly `amount`; the node is spliced out exactly when the new `r < 3`, and the others keep their order; no node is ever added; the cave invariant is kept |
| JellyDwarf.Press | jelly_sketch.js:173-180 | pressing kc sets exactly the flags of the directions bound to kc, keeps every flag already set, and changes nothing for an unbound key |
| JellyDwarf.Release | jelly_sketch.js:183 | releasing kc clears exactly the flags of the directions bound to kc, sets none, and changes nothing for an unbound key |
| JellyDwarf.ReleaseUndoesPress | jelly_sketch.js:171-183 | releasing a key undoes pressing it when its flag was clear |
| JellyDwarf.Thrust | jelly_sketch.js:211-216 | the steering force is at most 0.9 sideways, 1.1 up and 0.45 down; it has no sideways part exactly when left and right are both held or both released; it points up exactly when up is held, and down exactly when down is held without up |
| JellyDwarf.InputVector | jelly_sketch.js:256-260 | the dig direction has each component in `[-1, 1]` |
| JellyDwarf.InputVectorZeroIff | jelly_sketch.js:256-260 | the dig direction is zero exactly when left and right agree and up and down agree |
| JellyDwarf.NewFacing | jelly_sketch.js:213-214 | right input faces right, left alone faces left, no horizontal input keeps the facing |
| JellyDwarf.Integrate | jelly_sketch.js:211-228 | the position advances by the new velocity |
| JellyDwarf.GravityIgnoresMass | jelly_sketch.js:222-227 | with no input, gravity reaches the velocity undivided by the mass (1.6), then 0.985 damping applies |
| JellyDwarf.StunnedIgnoresInput | jelly_sketch.js:212-220 | while stunned the held keys have no effect: the velocity is slowed by 0.92, gains gravity and is damped |
| JellyDwarf.Clamp | jelly_sketch.js:231-234 | for `width, height >= 24` the dwarf ends inside `[12, size - 12]`; a clamped velocity component is multiplied by -0.3, by -0.35 on the floor; a body already inside is unchanged |
| JellyDwarf.ClampIdempotent | jelly_sketch.js:231-234 | clamping a clamped body changes nothing |
| JellyDwarf.ZeroInputIsShort | jelly_sketch.js:256-262 | with no net input direction, the input length never passes the 0.12 dig threshold |
| JellyDwarf.DeflectSlowsInflow | jelly_sketch.js:251-252 | against a unit normal and a draw in `[0, 1)`, a dwarf moving into the node keeps between 0 and a fifth of that motion, and a dwarf moving away keeps its velocity |
| JellyDwarf.DigAmount | jelly_sketch.js:261-269 | the dig is 0 or between 0.3456 and 2.88, and never happens when the input is not longer than 0.12 |
| JellyDwarf.DigNeedsInputAway | jelly_sketch.js:262-266 | a dig happens only when the held directions point away from the node |
| JellyDwarf.Dwarf.constructor | jelly_sketch.js:154-170 | a new dwarf is at rest, faces right, holds no input, can shoot, is not stunned, and keeps its id and keys |
| JellyDwarf.Dwarf.ShotAlong | jelly_sketch.js:190 | a shot belongs to the dwarf, flies along the aim, and starts 1.2 radii (24) from the dwarf's centre |
| JellyDwarf.Dwarf.TryShoot | jelly_sketch.js:185-192 | a shot is produced exactly when the cooldown has run out and the dwarf is not stunned, and it restarts the cooldown at 18; otherwise the cooldown is untouched |
| JellyDwarf.Dwarf.ShootDown | jelly_sketch.js:194-201 | the same gate and cooldown for the downward shot |
| JellyDwarf.Dwarf.KeyPressed | jelly_sketch.js:171-182 | every key is ignored while stunned; otherwise the input becomes `Press(input, keys, kc)`, and the down or shoot key fires exactly when the cooldown allows, at most one shot per press |
| JellyDwarf.Dwarf.KeyReleased | jelly_sketch.js:183 | the key's direction flag is cleared whether or not the dwarf is stunned |
| JellyDwarf.Dwarf.Stun | jelly_sketch.js:203 | the stun timer becomes `max(stunTimer, frames)`, refreshed and never stacked, and the dwarf is stunned |
| JellyDwarf.Dwarf.Tick | jelly_sketch.js:207-214 | a positive cooldown and a positive stun timer each drop by one; `stunned` is exactly "the timer was positive"; an unstunned dwarf turns to its input |
| JellyDwarf.Dwarf.Update | jelly_sketch.js:205-278 | the timer facts of `Tick`; a dwarf with no node within reach of its flown position ends exactly where flight plus the wall clamp put it; the cave only loses nodes and shrinks them; a node that shrinks was within reach, the input was longer than 0.12, and it lost more than 0.3456 and at most 2.88; with no net input no node is dug; the dwarf and cave invariants hold |
| JellyDwarf.Dwarf.OverlapIsNearby | jelly_sketch.js:238-244 | the search radius `Reach`, `20 + 1.2 * nodeRadius`, misses no node the dwarf overlaps: every overlapped cave node is among the nearby ones |
| JellyDwarf.Dwarf.PushOut | jelly_sketch.js:238-276 | the push-out loop only shrinks and removes nodes; a node that shrinks was nearby, the input was longer than 0.12, and it lost more than 0.3456 and at most 2.88; no input digs nothing; no nearby node leaves the dwarf alone |
| JellyDwarf.Dwarf.PushOutOf | jelly_sketch.js:240-275 | against an overlapped node with normal `normalize(n.pos - pos)`: the dwarf moves by `-depth / 2` along the normal, its velocity becomes `Deflect(vel, normal, jit)`, and the node loses exactly `DigAmount(input, normal)`, being spliced out when it drops below 3; a node not overlapped leaves everything as it is |
| JellyDwarf.Dwarf.CanCollect | jelly_sketch.js:309-318 | the result is exactly the pickup gate `Collectible` |
| JellyDwarf.Dwarf.CollectibleIff | jelly_sketch.js:309-318 | a gem is collectable exactly when `dist <= radius + 0.9 * gem.r` and every node within 8 of the gem has `r <= 6` |
| JellyWeapon.BounceReversesNormal | jelly_sketch.js:339-342 | for a unit normal, a rebound leaves the normal component at `-0.846 * vn` |
| JellyWeapon.BounceKeepsTangent | jelly_sketch.js:341-342 | the tangential component only loses the 0.94 damping |
| JellyWeapon.BounceSlows | jelly_sketch.js:341-342 | a rebound never speeds the ball up |
| JellyWeapon.CarveDamage | jelly_sketch.js:346-347 | the carve strength `1.6 * constrain(|v| / 8, 0.5, 3)` lies in `[0.8, 4.8]` |
| JellyWeapon.Weapon.constructor | jelly_sketch.js:323 | a new weapon is alive with 6 bounces and 420 frames of life, launched at speed 8 along the aim from the shot's origin |
| JellyWeapon.Weapon.Update | jelly_sketch.js:324-372 | life drops by 1; the ball moves by its velocity plus gravity*0.6; the node loop never speeds it up; bounces never increase; it is dead exactly when it was already dead, its life or bounces ran out, or it hit a dwarf; at most one dwarf is hit, never the owner, and it is the first in list order within `r + 0.8 * radius`; the hit dwarf is knocked away by 3 and stunned to at least 360; the other dwarfs are unchanged; the cave only loses and shrinks nodes, and keeps every node still at radius 3 or more |
| JellyWeapon.Weapon.Advance | jelly_sketch.js:325-327 | gravity * 0.6 joins the vertical velocity, the ball moves by the new velocity, life drops by one, and the ball dies at life 0 |
| JellyWeapon.Weapon.CollideNodes | jelly_sketch.js:330-355 | the node loop never speeds the ball up and never adds bounces; it kills the ball exactly when the bounces run out; the cave only loses nodes below radius 3 and only shrinks; a ball overlapping no node changes nothing |
| JellyWeapon.Weapon.OverlapIsNearby | jelly_sketch.js:330-336 | the search radius `r + 1.2 * nodeRadius` misses no node the ball overlaps |
| JellyWeapon.Weapon.HitNode | jelly_sketch.js:332-354 | a node the ball does not overlap is left alone; against an overlapped node the ball rebounds off `normalize(pos - n.pos)` spending a bounce exactly when it moves into it, the node loses exactly `CarveDamage` of the new velocity, and every other node within the node's new radius + 18 loses exactly 35% of that, and no other node changes |
| JellyWeapon.Weapon.Rebound | jelly_sketch.js:339-344 | the ball rebounds, spending one bounce, exactly when it moves into the node (`vn < 0`), and it dies when the bounces reach 0 |
| JellyWeapon.Weapon.Carve | jelly_sketch.js:346-351 | the struck node loses exactly `CarveDamage(vel)`; every other node within its new radius + 18 of its centre loses exactly 35% of that, and the rest are unchanged |
| JellyWeapon.Weapon.SplashAround | jelly_sketch.js:350-351 | every node other than the struck one within its radius + 18 loses exactly the splash amount, and the rest, the struck node included, are unchanged |
| JellyWeapon.Weapon.Splash | jelly_sketch.js:351 | every node of the neighbour list except the struck one loses exactly the splash amount, once; nothing else shrinks |
| JellyWeapon.Weapon.StrikeDwarfs | jelly_sketch.js:358-371 | the first non-owner dwarf within `r + 0.8 * radius` is knocked and stunned and kills the ball; no earlier dwarf was within reach; every other dwarf is unchanged |
| JellyGame.FirstCollector | jelly_sketch.js:77 | the dwarf a gem goes to is the lowest-index dwarf able to collect it, or -1 when none can |
| JellyGame.CollectorIsFirst | jelly_sketch.js:77 | that lowest index is unique |
| JellyGame.Awards | jelly_sketch.js:77 | one award per gem, each -1 or a dwarf index |
| JellyGame.AwardAt | jelly_sketch.js:77 | the award of the i-th gem is its first collector |
| JellyGame.OnePointPerGem | jelly_sketch.js:77 | with two dwarfs, every gem is either kept or scores exactly one point for exactly one player |
| JellyGame.AwardsPartition | jelly_sketch.js:77 | the counts awarded to dwarf 0 and dwarf 1 plus the kept gems add up to the number of gems |
| JellyGame.GemStep | jelly_sketch.js:77 | one backward step of the gem loop either keeps the gem or awards it |
| JellyGame.GemLoopStep | jelly_sketch.js:77 | splicing out an awarded gem and appending its replacement extends the loop's bookkeeping by one gem |
| JellyGame.DeathsAre | jelly_sketch.js:73 | the dead flags are read off the weapons one by one |
| JellyGame.Live | jelly_sketch.js:73 | pruning keeps at most the weapons it is given |
| JellyGame.SurvivorsUnfold | jelly_sketch.js:73 | the survivors of a list are its first weapon, if alive, followed by the survivors of the rest |
| JellyGame.PruneOne | jelly_sketch.js:73 | splicing weapon i out exactly when it died extends the pruned suffix by that one weapon |
| JellyGame.SurvivorsMembers | jelly_sketch.js:73 | a weapon survives exactly when it was in the list and is not dead |
| JellyGame.SurvivorsDistinct | jelly_sketch.js:73 | no weapon survives twice |
| JellyGame.NewRound | jelly_sketch.js:40-58 | a fresh cave with spacing 40 and node radius 28, every node at full radius, laid exactly as `GridFrom(60, ...)`; two fresh, distinct dwarfs, ids 0 and 1, on their own keys, a fifth of the way down and a quarter in from either side, at rest (no velocity, no input, no cooldown, facing right, not stunned); exactly the 12 drawn gems |
| JellyGame.Collector | jelly_sketch.js:77 | the inner dwarf loop finds the first collector |
| JellyGame.Award | jelly_sketch.js:77 | the collector of gem gi is its award |
| JellyGame.GemLoop | jelly_sketch.js:77 | the gems are the uncollected ones in order, followed by one replacement per collected gem; each score grows by the number of gems awarded to that player |
| JellyGame.Game.constructor | jelly_sketch.js:37-39 | the first round: gravity 0.55, a fresh cave laid exactly as `GridFrom(60, 40, 28, ...)`, two fresh dwarfs at their start places and at rest, the drawn gems, no weapons, scores 0-0, and the game invariant |
| JellyGame.Game.Reset | jelly_sketch.js:40-59 | a new round: a fresh cave laid exactly as `GridFrom(60, 40, 28, ...)`, two fresh dwarfs at their start places and at rest, the drawn gems, scores back to 0-0, no weapons |
| JellyGame.Game.SpawnWeapon | jelly_sketch.js:67 | exactly one fresh weapon is appended, the others kept: alive, of the shooter, at the shot's origin, moving at speed 8 along the shot, with 6 bounces and a life of 420 |
| JellyGame.Game.OnKeyPressed | jelly_sketch.js:63-64 | R starts a new round (fresh cave laid as the grid, dwarfs at rest at their start places, no weapons, scores 0-0); any other key goes to both dwarfs with the `DeliverKey` facts; in both cases the game invariant holds, so gravity is 0.55 |
| JellyGame.Game.DeliverKey | jelly_sketch.js:64 | each dwarf registers the key and keeps its place, velocity, facing and stun; a dwarf fires exactly when the key is one of its fire keys, its cooldown has run out and it is not stunned, and its cooldown then restarts at 18; one weapon is appended when one of them fires, launched along that dwarf's shot, none otherwise |
| JellyGame.Game.PressFor | jelly_sketch.js:64 | the dwarf registers the key and keeps its place, velocity, facing and stun; it fires exactly when the key is one of its fire keys, its cooldown has run out and it is not stunned; firing restarts the cooldown at 18 and appends one weapon launched along its shot (origin, owner, speed, bounces, life); otherwise the cooldown and the weapons are unchanged |
| JellyGame.Game.OnKeyReleased | jelly_sketch.js:65 | every dwarf's flags are released for the key; its place, velocity, facing, stun and cooldown are unchanged |
| JellyGame.Game.Update | jelly_sketch.js:69-78 | weapons become exactly the survivors of their update, in order; the gem count is constant; the gems are the uncollected ones plus one replacement per collected gem; each score grows by the gems awarded to that player; the cave only shrinks; the game invariant holds, which includes gravity staying 0.55 |
| JellyGame.Game.UpdateDwarfs | jelly_sketch.js:71 | every dwarf is updated once: its cooldown and stun timer count down |
| JellyGame.Game.StepDwarf | jelly_sketch.js:71 | the update of dwarf i counts its cooldown and stun timer down, only shrinks the cave, and keeps the cave and both dwarfs valid |
| JellyGame.Game.UpdateWeapons | jelly_sketch.js:73 | after the backward loop the weapons are exactly `Survivors` of the old list, and all valid and distinct |
| JellyGame.Game.StepAll | jelly_sketch.js:73 | every weapon is updated, from the last to the first, and its death is recorded; the list returned is exactly the weapons that did not die, in order |
| JellyGame.Game.StepAndPrune | jelly_sketch.js:73 | one pass updates weapon i and splices it out exactly when it died |
| JellyGame.Game.StepWeapon | jelly_sketch.js:73 | the update of weapon i records whether it died, keeps every weapon valid, and only shrinks the cave |
| JellyGame.Game.CollectGems | jelly_sketch.js:77 | the gem loop's result, stored in the game |
| Biplane.Burst | sketch.js:81 | n particles, all starting at the explosion point |
| Biplane.Added | sketch.js:81 | none is added when the buffer is over the cap; otherwise `min(count, 250 - len)`, so the buffer never passes 250 |
| Biplane.World.CreateExplosion | sketch.js:81 | the buffer grows by exactly `Added(len, count)` particles at the explosion point |
| Biplane.BubbleProjectile.constructor | sketch.js:34 | a bubble starts at the launch point with the launch velocity and 240 frames of life |
| Biplane.BubbleProjectile.Update | sketch.js:35 | a slight lift, 0.995 drag, one step of motion, and life drops by exactly 1 |
| Biplane.BubbleProjectile.IsOffscreen | sketch.js:37 | a spent bubble is off screen whatever its position; a live one only past the margins |
| Biplane.BubbleProjectile.HitsPlane | sketch.js:38-48 | a missing, dead or respawning plane, or the shooter's own, is never hit |
| Biplane.BubbleProjectile.HitsBalloon | sketch.js:38-48 | a missing or dead balloon is never hit |
| Biplane.BubbleHitsPlaneWithinReach | sketch.js:38-48 | a plane is hit exactly when it is targetable, not the shooter's, and within `0.8 * size + 12.5` |
| Biplane.BubbleHitsBalloonWithinReach | sketch.js:38-48 | a balloon is hit exactly when it is alive and within `radius + 12.5` |
| Biplane.NextCycle | sketch.js:62 | a running countdown drops by one and the balloon respawns at 0; with no countdown nothing changes; the alive-iff-no-countdown invariant is kept |
| Biplane.Cycles | sketch.js:62 | any number of updates keeps the alive-iff-no-countdown invariant |
| Biplane.CountdownRespawns | sketch.js:62 | a balloon whose countdown reads t is down for t - 1 updates and alive after the t-th |
| Biplane.HitBalloonReturnsAfterRespawnFrames | sketch.js:13 | a hit balloon is down exactly for the first 360 updates |
| Biplane.Drift | sketch.js:62 | drifting wraps past the far edge by twice the visual radius, and keeps a balloon inside that band |
| Biplane.Balloon.constructor | sketch.js:61 | a new balloon is alive at its base position |
| Biplane.Balloon.Update | sketch.js:62 | the respawn state follows `NextCycle`; a respawn takes the drawn spot and drift; while counting down nothing else moves; a dead balloon with no countdown stays put; an alive one drifts, wraps and bobs |
| Biplane.Balloon.Respawn | sketch.js:65 | the balloon is alive again at the drawn spot with the drawn drift |
| Biplane.Balloon.Hit | sketch.js:64 | no-op on a dead balloon; otherwise it goes down for 360 updates, bursts into 25 particles under the cap, and exactly one fresh power-up of the drawn kind is appended where it was, of the power-up size and with a lifespan of 1.5 times the duration |
| Biplane.PowerUp.constructor | sketch.js:86 | a power-up lasts 1.5 times its duration, falls at its fall speed and drifts by its spread |
| Biplane.PowerUp.Update | sketch.js:87 | lifespan drops by 1; the power-up never ends below the ground line; a ground contact multiplies vy by -0.4 and vx by 0.8 |
| Biplane.PowerUp.IsOffscreen | sketch.js:114 | a spent power-up is off screen; a live one only once well below the canvas |
| Biplane.PowerUp.CheckCollision | sketch.js:115-121 | a missing, dead or respawning plane never collects |
| Biplane.PowerUpCollectedWithinReach | sketch.js:115-121 | a plane collects exactly when it is targetable and within `0.8 * plane.size + size / 2` |
| Biplane.Bomb.constructor | sketch.js:129 | a bomb takes half the plane's velocity plus the drop speed downward, and the fuse |
| Biplane.Bomb.Update | sketch.js:130 | one step of motion, gravity * 1.5, 0.985 drag, and the fuse drops by 1 |
| Biplane.Bomb.CheckCollision | sketch.js:142-146 | a missing, dead or respawning plane is never hit |
| Biplane.BombHitsWithinReach | sketch.js:142-146 | a plane is hit exactly when it is targetable and within `0.7 * plane.size + 6` |
| Biplane.Bomb.CheckCollisionHut | sketch.js:147 | true exactly for a standing hut with the bomb strictly inside its rectangle |
| Biplane.Bomb.CheckCollisionGround | sketch.js:148 | true exactly when the bomb's lower edge reaches the ground |
| Biplane.Bomb.IsOffscreen | sketch.js:149 | only long after the fuse ran out (below -300), and then whenever it is far below the canvas |
| Biplane.Credit | sketch.js:135-138 | a plane scores only when it is alive, inside the blast, reports a successful hit, and is not the bomb owner's; plane 1 credits player 2, any other credits player 1 |
| Biplane.Points | sketch.js:138 | a player gets at most one point per plane |
| Biplane.PointsSnoc | sketch.js:133-140 | one more plane adds its own credit to the tally |
| Biplane.Credits | sketch.js:133-140 | one credit per plane of the blast; see `CreditsAt` |
| Biplane.CreditsAt | sketch.js:133-140 | the i-th credit is exactly the credit of the i-th plane with its own hit report |
| Biplane.CreditsSnoc | sketch.js:133-140 | the credits of the planes, taken one more at a time |
| Biplane.OwnerOnlyScores | sketch.js:138 | with the planes numbered 1 and 2, a bomb of owner 1 never scores for player 2 and a bomb of owner 2 never for player 1 |
| Biplane.Bomb.CreditPlane | sketch.js:135-139 | one plane of the blast changes the scores by exactly its credit |
| Biplane.Bomb.Explode | sketch.js:132-141 | the scores grow by the credits of the two planes; the hut is destroyed exactly when it is standing and inside the blast; the blast particles are appended under the cap, plus 10 of rubble for an already destroyed hut inside the blast |

## Left out

- Drawing and display methods, colours, the gradient background and UI text are cosmetic and have no effect on the game state.
- Sound-envelope calls in `createExplosion` and `Balloon.hit` are audio side effects only.
- `setup`, `draw`, `windowResized`, `onResize`, `mousePressed`, `touchStarted`, fullscreen and the key-event dispatch are browser and framework glue.
- The jelly game's `ParticleEffect` objects and their removal loop are cosmetic. In the biplane game, particles are kept only by starting point and count, as far as the 250 cap needs.
- IEEE floating point is not modelled: all arithmetic is on exact reals.
- `sqrt`, `cos`, `sin` and `fromAngle` are oracles or unit vectors, as described above. Bobbing enters `Balloon.Update` as the offset `bobble`.
- The `Plane` class, `plane.hit()`, `destroyHut`, the `powerUps` and `particles` globals, and the undefined constants are not part of these files. They are a snapshot, an input, a returned flag, fields of `World`, and parameters respectively.
- Rotation, `rotationSpeed`, `bobbleOffset`, the bubble wobble, the bird animation and the gem hue are drawing-only fields and are dropped.
- The `typeof ... === 'undefined'` guards of the collision tests cannot fail on the modelled records, so they have no counterpart.
- `BubbleProjectile.checkCollision` is modelled as its two intended uses: `HitsPlane` for a plane and `HitsBalloon` for a balloon. The mismatched calls, a plane with `targetIsBalloon` set or a balloon without it, are not modelled.
- The `shoot` flag of the dwarf's input record is never set or read, and is left out.
- `BubbleProjectile.hitEffect` and `checkCollisionHut` only delegate to the plane or return false, and are not modelled.
- JellyCave.Cave.Dig: requires `amount >= 0`, which every caller meets (every dig amount in the source is positive). Without it the invariant `r <= maxR` would not hold.
- JellyCave.Cave.constructor: requires `3 <= 0.85 * nodeRadius`, so that fresh nodes meet the cave invariant; the game uses node radius 28.
- Biplane.Bomb.Explode: `plane.hit()` runs between the blast burst and the rubble burst, and the model assumes it adds no particles and changes no score; the exact particle buffer and scores it ensures hold only under that assumption. `destroyHut` is left to the caller, so whatever it adds comes after the state the contract describes.
- JellyGame.Game.Update: does not restate the per-weapon life, bounce and hit facts of `Weapon.Update`, the per-dwarf flight and dig facts of `Dwarf.Update`, or the dwarfs' timer countdown (the weapon loop that follows the dwarf loop can stun a dwarf again). Only the pruning, the gem and score results, and node shrinking are lifted to the game level.
- JellyGame.Game.UpdateDwarfs: lifts only the cooldown and stun-timer countdown and the cave's shrinking, not each dwarf's flight, push-out and dig facts, because composing those two-state facts across dwarfs that share the cave is not modelled.
- JellyGame.Game.StepDwarf: lifts only the countdown, the shrinking and validity from `Dwarf.Update`, not its flight, push-out and dig facts, for the same reason.
- JellyGame.Game.UpdateWeapons: lifts only which weapons survive, not each weapon's life, bounce, carve and hit facts, because composing those through the loop over the shared cave and dwarfs is not modelled.
- JellyGame.Game.StepAll: lifts only the recorded deaths and the pruned list, for the same reason.
- JellyGame.Game.StepAndPrune: lifts only the death and the splice of weapon i, for the same reason.
- JellyGame.Game.StepWeapon: lifts only the death flag, validity and the cave's shrinking from `Weapon.Update`, for the same reason.
- Biplane.Balloon.Update: `position` and `pos` are one object in the source. The model keeps the single field `pos`.
- JellyDwarf.Dwarf.Update: the exact push-out displacement and velocity reflection against each node are stated for one node by `PushOutOf`, not composed over the loop. Update and PushOut state the no-nearby-node case, which nodes may shrink and by how much.
- JellyDwarf.Dwarf.PushOut: the per-node dig amount `DigAmount` depends on a normal that moves as the dwarf is pushed out, so the loop states bounds on each node's loss (more than 0.3456, at most 2.88) instead of its exact value.
- JellyWeapon.Weapon.CollideNodes: the exact carve and splash amounts of each node are stated for one node by `HitNode`, not composed over the loop, because the carve strength depends on the velocity after the earlier rebounds. The loop states the speed, bounce and death facts and that the cave only shrinks.
- JellyWeapon.Weapon.Update: inherits the gap of `CollideNodes`. The erosion of each node is bounded by the cave-wide shrink facts, not stated exactly.
