# Asteroids: a verified model of the game's core

This project models the game logic of `asteroids/asteroids.py`, a pygame
Asteroids clone. It covers one round of `game_loop`:

- **Start-up.** A ship centred on the screen, five size-40 asteroids at random
  points and a score of 0.
- **Per-frame order.** Events come first: a quit ends the round, and each Space
  key-down fires two bullets. Then the ship, the bullet group and the asteroid
  group are updated. Then the collision pass, and finally the ship's own
  collision test.
- **Asteroid.** Its fragmentation state machine: `split` either halves the
  asteroid, calls `create_explosion`, or returns nothing. It also has a
  fragment countdown and wrap-around motion.
- **Bullet.** Straight-line flight, killed once outside the closed screen box.
- **Spaceship.** The discrete part of its controller: turning, the thrust flag
  and wrap-around. `fire_bullet` produces two bullets along the ship's heading.

Sprites are Dafny classes whose fields are updated in place. A pygame `Group`
is a distinct, insertion-ordered `seq` of those objects: `add` appends, and
`kill()` is `Groups.Remove`. `Group.update()` is `MoveBullets` /
`MoveAsteroids`. They update every member in group order and keep those that
did not kill themselves (`Groups.Kept`).

The collision pass walks the group's snapshot in order. A bullet that hits
leaves the group. The asteroid it hit is replaced by what `split` returned,
and the score grows by one exactly when `split` returned nothing. `Game.Missed`
over the pass's log of `Shot`s describes the bullets that stay. `Game.Resolved`
states what one bullet does to the asteroid group: a miss iff nothing collides,
otherwise the first colliding member is destroyed or halved, and a halved
member's two fragments take half its size and the half-size rect centred on
its rect. `Game.Pass` chains
those steps over the whole pass, each bullet against the group the earlier
bullets left.

The `random` module is an injected `Rand.Random` whose draws always land in
the requested closed range. The floating-point motion (`speed * cos(angle)`,
the ship's velocity vector) and the rect-overlap test are function-typed
parameters: `Screen.Advance`, the ship's `shipMoved` and muzzle points in
`Game.Frame`, and `Screen.Collide`.

Scoring follows the code. A point is awarded only when `split()` returns an
empty list, which is the case for a never-split asteroid of size 10. The
ten-fragment explosion does not score. `Game.Round.Tick` also proves that
every asteroid left in the group after a frame has `has_split` false. So
from `game_loop` the explosion branch of `split` is never taken: the
half-split parent is always killed in the same pass in which it split.
`Asteroid.Split` still models that branch faithfully.

## Model

| member | source | states |
|---|---|---|
| Screen.CenteredRect | asteroids/asteroids.py:203 | `get_rect(center=(cx, cy))` keeps the surface's size and puts the rect's centre exactly on (cx, cy) |
| Screen.Wrap | asteroids/asteroids.py:167-168 | `v %= bound` lands in [0, bound) and leaves a value already in range unchanged |
| Screen.WrapUnique | asteroids/asteroids.py:167-168 | the wrapped value is the unique r in [0, bound) with v == q * bound + r, i.e. Python's floored modulo, also for negative v |
| Rand.Random.RandInt | asteroids/asteroids.py:155-159 | `random.randint(lo, hi)` returns a value in the closed range [lo, hi] and consumes one draw |
| Asteroids.TimedLifetime | asteroids/asteroids.py:170-173 | an asteroid whose timer holds t survives n updates iff n == 0 or n < t |
| Asteroids.FragmentLifetime | asteroids/asteroids.py:15 | a fragment with the full 30-frame lifetime survives 29 updates and is killed by the 30th |
| Asteroids.UntimedNeverExpires | asteroids/asteroids.py:160 | an asteroid created without a fragment timer never kills itself, however many updates pass |
| Asteroids.SplitShrinks | asteroids/asteroids.py:178-187 | every asteroid `split` returns is strictly smaller than its parent |
| Asteroids.SizeLadder | asteroids/asteroids.py:178-187 | a fresh size-40 asteroid halves to 20, a 20 to 10, and a never-split 10 yields nothing |
| Asteroids.Asteroid.constructor | asteroids/asteroids.py:150-161 | the centre is the given coordinate or a draw in [0, WIDTH] / [0, HEIGHT]; speed in [1, 3], angle in [0, 360], 5 to 8 vertices; timer 30 iff size is 10; `has_split` false |
| Asteroids.Asteroid.Update | asteroids/asteroids.py:163-173 | the corner moves by the displacement and wraps into [0, WIDTH) x [0, HEIGHT); a present timer drops by one; the asteroid kills itself iff the timer is now at most 0 |
| Asteroids.Asteroid.Split | asteroids/asteroids.py:178-187 | a never-split asteroid above size 10 sets `has_split` and yields two fresh half-size asteroids at its centre; an already-split one yields ten explosion fragments; otherwise nothing, with `has_split` unchanged |
| Asteroids.Asteroid.CreateExplosion | asteroids/asteroids.py:189-197 | ten distinct fresh size-10 fragments at the parent's centre, never split, each with speed in [2, 5], angle in [0, 360] and timer 30 |
| Bullets.Bullet.constructor | asteroids/asteroids.py:200-205 | a 4 by 10 rect centred on the spawn point, speed 10, the given heading |
| Bullets.Bullet.Update | asteroids/asteroids.py:207-212 | the corner moves by the displacement without wrapping; the bullet kills itself iff the corner has left the closed box [0, WIDTH] x [0, HEIGHT] |
| Ships.Turned | asteroids/asteroids.py:111-114 | Left turns by +5, Right by -5, both or neither leave the heading unchanged |
| Ships.Spaceship.constructor | asteroids/asteroids.py:100-106 | a 40 by 40 ship centred on the screen, heading 0, not thrusting |
| Ships.Spaceship.Update | asteroids/asteroids.py:108-130 | the heading is `Turned`; `moving` holds iff Up is held; the corner wraps into [0, WIDTH) x [0, HEIGHT) |
| Ships.Spaceship.FireBullet | asteroids/asteroids.py:138-147 | two distinct fresh bullets centred on the two muzzle points, both with the ship's heading and speed 10 |
| Groups.Remove | asteroids/asteroids.py:266 | `kill()` takes the sprite out of the group and keeps every other member |
| Groups.RemoveAt | asteroids/asteroids.py:275 | killing the member at slot j of a distinct group removes exactly that slot |
| Groups.DistinctRemove | asteroids/asteroids.py:275 | a group stays free of duplicates after a kill |
| Groups.DistinctAppend | asteroids/asteroids.py:270-271 | adding sprites that are not yet members keeps the group free of duplicates |
| Groups.KillAfterAdd | asteroids/asteroids.py:270-275 | adding the fragments and then killing the hit asteroid leaves the other members in order, followed by the fragments, all distinct |
| Groups.KeptWithin | asteroids/asteroids.py:260-261 | `Group.update()` never adds a member |
| Groups.DistinctKept | asteroids/asteroids.py:260-261 | `Group.update()` keeps the group free of duplicates |
| Game.FirstHit | asteroids/asteroids.py:264 | `spritecollideany` answers the first member in group order whose rect collides, and nothing iff no member collides |
| Game.MissedFrom | asteroids/asteroids.py:263-266 | every bullet left after the collision pass was in the group before it |
| Game.MissedOmits | asteroids/asteroids.py:263-266 | a bullet not in the pass's snapshot is not among the bullets left after it |
| Game.PassAt | asteroids/asteroids.py:263-275 | in a collision pass, the k-th log entry is the `Resolved` step of the k-th bullet against the group left by the bullets before it |
| Game.PassSizes | asteroids/asteroids.py:268-275 | over a whole pass the asteroid count grows by one per halving and drops by one per destruction |
| Game.ResolvedHit | asteroids/asteroids.py:264-275 | removing the first colliding asteroid and appending its split result, two half-size fragments at its centre or nothing for size 10, is a `Resolved` step, destroyed iff nothing came back; each fragment's rect is the half-size rect centred on the hit asteroid's rect |
| Game.MoveBullets | asteroids/asteroids.py:260 | updating the first n bullets moves each by the displacement; the survivors are those inside the closed box, in order |
| Game.MoveAsteroids | asteroids/asteroids.py:261 | updating the first n asteroids moves each from its old corner along its own speed and heading, wraps it into the screen and counts its timer down; the survivors are exactly those whose timer has not run out, in order |
| Game.Round.constructor | asteroids/asteroids.py:238-245 | a ship centred at (width / 2, height / 2), at heading 0, not thrusting; five never-split size-40 asteroids centred in the closed screen box; no bullets; score 0 |
| Game.Round.HandleEvents | asteroids/asteroids.py:250-256 | a quit event ends the round; otherwise each Space key-down appends two fresh bullets with the ship's heading and speed 10 after the existing ones (`fired`); the ship, the asteroids and the existing bullets are left as they were |
| Game.Round.UpdateBullets | asteroids/asteroids.py:260 | the bullet group becomes the members that stayed in the closed box, each moved by the displacement |
| Game.Round.UpdateAsteroids | asteroids/asteroids.py:261 | the asteroid group becomes the members whose timer has not run out, in order; every member moved from its old corner along its speed and heading, wrapped into the screen, with its timer one frame on |
| Game.Round.SplitHit | asteroids/asteroids.py:268-275 | the hit asteroid leaves its slot and what `split` returned is appended: for a never-split asteroid above size 10, it is marked split and two fresh asteroids of half its size, centred on it, with speed in [1, 3] and the timer their size calls for, with the score unchanged; for a size-10 one, nothing, with the score up by one |
| Game.Round.ResolveBullet | asteroids/asteroids.py:264-275 | the asteroid hit is `FirstHit` of the bullet's rect against the group's rects; with none, nothing changes; otherwise the bullet is killed and that asteroid is replaced by its split result (two half-size fresh asteroids at its centre, or nothing and a point); the other members keep their rects |
| Game.Round.ResolveShot | asteroids/asteroids.py:263-275 | one bullet against the group: its shot is `Resolved`, i.e. a miss iff no asteroid collides, and otherwise the first colliding asteroid leaves its slot, destroyed iff its size is 10 (the bullet killed, a point scored), else halved into two half-size asteroids appended with the half-size rect centred on its rect |
| Game.Round.ResolveNext | asteroids/asteroids.py:263-275 | one more bullet of the snapshot: the log grows by its shot, the bullet group is the misses so far followed by the bullets not yet tried, the score grows by the destructions, and `PassFrom` extends by the step that bullet's collision makes |
| Game.Round.ResolveHits | asteroids/asteroids.py:263-275 | the pass over the snapshot of the bullet group: each log entry is `Resolved` for that bullet's rect against the group the earlier bullets left (`Pass`), from the group before the pass to the group after it; bullet k is tested with its own rect and the first step with the rects of the group before the pass; exactly the missing bullets stay, in order; the score grows by the destructions; the asteroid count by halvings minus destructions; no asteroid's corner, speed, heading or timer changes |
| Game.Round.MoveGroups | asteroids/asteroids.py:260-261 | the bullet group becomes the members left inside the closed box, each moved along its heading from its old corner (`origins`); the asteroid group becomes those whose timer has not run out, each moved and wrapped with its timer one frame on; groups only lose members |
| Game.Round.MoveAndResolve | asteroids/asteroids.py:260-275 | each bullet moves along its heading from its old corner and survives `bullets.update()` iff it lands inside the closed box; each asteroid moves, wraps and counts its timer down, and survives `asteroids.update()` iff the timer has not run out; the survivors then go through the collision pass: the bullets left are the misses among the surviving bullets, the asteroid group is the end of a `Pass` from the surviving asteroids' rects, each surviving bullet tested with its moved rect, and the score grows by the destructions |
| Game.Round.UpdateAndCollide | asteroids/asteroids.py:258-278 | the ship turns by the held keys, thrusts iff Up is held and its corner is the wrapped moved point; each bullet and asteroid moves as `Game.Round.MoveAndResolve` states, the survival flags being those motion rules; after the updates and the collision pass, the bullets left are the misses among the survivors, the asteroid group is the end of a `Pass` from the surviving asteroids, each surviving bullet tested with its rect after the update and the first step against the surviving asteroids' rects, the score grows by the destructions, and the round is over iff the ship collides |
| Game.Round.Tick | asteroids/asteroids.py:248-278 | a frame quits iff a quit event is queued, and then only bullets were added, with the ship, the asteroids and the existing bullets untouched; otherwise two fresh bullets per Space press with the ship's heading and speed 10 are added, the ship turns, thrusts and wraps, every bullet (old ones from their old corners, fired ones from the corner `origins` records for them) moves and survives iff inside the closed box, every asteroid moves, wraps and counts its timer down and survives iff the timer has not run out, and the bullets left are the misses of the collision pass over the survivors, whose `Pass` runs from the surviving asteroids' rects to the group left, each bullet tested with its rect after the update; the score grows by the destructions; the round is over iff the ship then collides, reporting the score; no asteroid left has split |
| Game.Round.Play | asteroids/asteroids.py:247-278 | each frame, in order, is played by `Tick`; `Halted` holds: while running no frame quit, and a stopped run stopped at its last frame, which quit iff it had a quit event; a finished round reports the current score and its ship collides; a round still running after at least one frame has a ship clear of asteroids; a round still running has played every frame; the score never decreases |

## Left out

- The floating-point motion is not modelled. That covers `speed * cos/sin(angle)` for asteroids and bullets, the ship's velocity vector with acceleration 0.1, deceleration 0.05 and its cap of 5, and the muzzle offsets of `fire_bullet`. These are inputs instead: `Screen.Advance` for asteroids and bullets, and `Frame.shipMoved` and `Frame.muzzle1/2` for the ship. The integer truncation pygame applies when a float is stored into a `Rect` is folded into those inputs too.
- The rect-overlap test of `spritecollideany` is the uninterpreted `Screen.Collide`. Only its first-match-in-group-order semantics is modelled.
- `Rand.Random.RandInt` maps a fixed stream of raw draws into the range by modulo. Python's Mersenne Twister is not modelled, only the range of each draw.
- `Rand.Random.RandInt` requires a non-empty range, because Python raises `ValueError` otherwise. The only ranges that could be empty are `randint(0, WIDTH)` and `randint(0, HEIGHT)` (asteroids.py:155-156) on a negative width or height, and the constructor requires a non-negative width and height for them.
- Sound synthesis and playback (`synthesize_sound`, `synthesize_white_noise`, the `.play()` calls) are not modelled, since they do not affect game state.
- Drawing is not modelled. That covers `draw_*`, `screen.fill`, `display.flip`, the score text, the start and game-over screens, `main`, and the `all_sprites` group, which is only used for drawing.
- The frame clock (`clock.tick(FPS)`) and the display query that sets `WIDTH, HEIGHT` are left out. The screen size is the `Screen.Config` parameter.
- An asteroid's `vertices` value is only used for rendering. Its range is kept in the constructor's contract.
- `Game.MoveBullets` and `Game.MoveAsteroids` model pygame's library `Group.update()` as a recursion over the group's members in order, rather than the library's loop.
- Game.Round.HandleEvents: the fired bullets' spawn points are stated by `Ships.Spaceship.FireBullet` and not carried into its contract or `Game.Round.Tick`'s, so `Game.Round.Tick` names a fired bullet's starting corner only as its ghost `origins` entry.
- Game.Round.Play: its contract gives the quit rule (`Halted`) and the collision rule for the frame it stopped on; it does not restate what each earlier frame did, nor that no earlier frame ended in a collision, since the model keeps no per-frame record of past states. Each frame is a `Game.Round.Tick`, whose contract states the frame up to the fired bullets' spawn points (line above).
- `Game.Round.Play` runs over a finite sequence of frames, where the game runs until quit or game over. It returns `Running` when the frames run out.
- Restarting after game over (`main` calling `game_loop` again) is left out. `Game.Round.constructor` is a fresh round.
