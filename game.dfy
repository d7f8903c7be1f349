/** One round of `game_loop`: the start-up state, the per-frame order of
    events, updates and bullet/asteroid resolution, the score, and the end of
    the round when the ship touches an asteroid. */
module Game {
  import opened Wrappers
  import opened Screen
  import opened Rand
  import opened Groups
  import opened Asteroids
  import opened Bullets
  import opened Ships

  const INITIAL_ASTEROIDS := 5
  const INITIAL_SIZE := 40

  /** The events of the pygame queue the round reacts to. */
  datatype Event = QuitEvent | KeyDown(isSpace: bool) | OtherEvent

  /** Everything a frame takes from outside: the queued events, the held keys,
      where the ship's velocity carries its corner, and the two muzzle points. */
  datatype Frame = Frame(events: seq<Event>, keys: Keys, shipMoved: Pos, muzzle1: Pos, muzzle2: Pos)

  /** `game_loop` returns `False` on quit and the score when the ship is hit;
      `Running` is a frame after which the loop goes on. */
  datatype Outcome = Running | Quit | Over(score: nat)

  /** What one bullet did in the collision pass. */
  datatype Shot = Miss | Halved | Destroyed

  /** `spritecollideany(sprite, group)`: the position of the first member, in
      group order, whose rect collides with `r`. */
  function FirstHit(collide: Collide, r: Rect, group: seq<Rect>): (k: Option<nat>)
    ensures k.Some? ==> k.value < |group| && collide(r, group[k.value])
    ensures k.Some? ==> forall i :: 0 <= i < k.value ==> !collide(r, group[i])
    ensures k.None? <==> forall i :: 0 <= i < |group| ==> !collide(r, group[i])
    decreases |group|
  {
    if group == [] then None
    else if collide(r, group[0]) then Some(0)
    else match FirstHit(collide, r, group[1..]) {
      case None => None
      case Some(k) => Some(k + 1)
    }
  }

  /** The rects of a group's members, in group order: what `spritecollideany`
      tests a sprite against. */
  function RectsOf(group: seq<Asteroid>): (rs: seq<Rect>)
    reads Members(group)`x, Members(group)`y
    ensures |rs| == |group|
    ensures forall i :: 0 <= i < |group| ==> rs[i] == group[i].Bounds()
    decreases |group|
  {
    if group == [] then []
    else RectsOf(group[..|group| - 1]) + [group[|group| - 1].Bounds()]
  }

  /** The number of Space key-downs among the events. */
  function SpacePresses(events: seq<Event>): nat {
    if events == [] then 0
    else SpacePresses(events[..|events| - 1]) + (if events[|events| - 1] == KeyDown(true) then 1 else 0)
  }

  function Count(log: seq<Shot>, s: Shot): nat {
    if log == [] then 0
    else Count(log[..|log| - 1], s) + (if log[|log| - 1] == s then 1 else 0)
  }

  /** The bullets whose entry in the log is a miss, in order. */
  function Missed<T>(bullets: seq<T>, log: seq<Shot>): seq<T>
    requires |bullets| == |log|
  {
    if log == [] then []
    else Missed(bullets[..|log| - 1], log[..|log| - 1])
         + (if log[|log| - 1] == Miss then [bullets[|log| - 1]] else [])
  }

  lemma {:induction false} MissedFrom<T>(bullets: seq<T>, log: seq<Shot>, b: T)
    requires |bullets| == |log| && b in Missed(bullets, log)
    ensures b in bullets
  {
    if log != [] {
      var n := |log| - 1;
      if b in Missed(bullets[..n], log[..n]) {
        MissedFrom(bullets[..n], log[..n], b);
      }
    }
  }

  /** The log entry of one more bullet unfolds `Missed` by one step. */
  lemma MissedStep<T>(all: seq<T>, log: seq<Shot>, shot: Shot)
    requires |log| < |all|
    ensures Missed(all[..|log| + 1], log + [shot]) == Missed(all[..|log|], log) + (if shot == Miss then [all[|log|]] else [])
  {
    var i := |log|;
    var s, l := all[..i + 1], log + [shot];
    assert s[..i] == all[..i] && l[..i] == log;
  }

  /** A bullet that hits leaves the group: what is still in it is the earlier
      misses and then the bullets not yet tried. */
  lemma PassHit<T>(all: seq<T>, log: seq<Shot>, shot: Shot)
    requires |log| < |all| && shot != Miss
    requires all[|log|] !in all[..|log|] && all[|log|] !in all[|log| + 1..]
    ensures Remove(Missed(all[..|log|], log) + all[|log|..], all[|log|])
            == Missed(all[..|log| + 1], log + [shot]) + all[|log| + 1..]
  {
    var i := |log|;
    var misses := Missed(all[..i], log);
    MissedStep(all, log, shot);
    assert misses + [] == misses;
    assert Missed(all[..i + 1], log + [shot]) == misses;
    MissedOmits(all[..i], log, all[i]);
    RemoveFrom(misses, all, i);
  }

  lemma MissedOmits<T>(bullets: seq<T>, log: seq<Shot>, b: T)
    requires |bullets| == |log| && b !in bullets
    ensures b !in Missed(bullets, log)
  {
    if b in Missed(bullets, log) {
      MissedFrom(bullets, log, b);
    }
  }

  /** A bullet that misses stays where it is. */
  lemma PassMiss<T>(all: seq<T>, log: seq<Shot>)
    requires |log| < |all|
    ensures Missed(all[..|log|], log) + all[|log|..]
            == Missed(all[..|log| + 1], log + [Miss]) + all[|log| + 1..]
  {
    var i := |log|;
    var misses := Missed(all[..i], log);
    MissedStep(all, log, Miss);
    assert Missed(all[..i + 1], log + [Miss]) == misses + [all[i]];
    Regroup(misses, all, i);
  }

  /** One bullet of the pass, hit or miss: what is left of the group is the
      misses so far and then the bullets not yet tried. */
  lemma PassBullets<T>(all: seq<T>, log: seq<Shot>, shot: Shot, log': seq<Shot>, before: seq<T>, after: seq<T>)
    requires Distinct(all) && |log| < |all| && log' == log + [shot]
    requires before == Missed(all[..|log|], log) + all[|log|..]
    requires after == if shot == Miss then before else Remove(before, all[|log|])
    ensures after == Missed(all[..|log'|], log') + all[|log'|..]
  {
    if shot == Miss {
      PassMiss(all, log);
    } else {
      Apart(all, |log|);
      PassHit(all, log, shot);
    }
  }

  lemma Regroup<T>(a: seq<T>, s: seq<T>, i: nat)
    requires i < |s|
    ensures a + s[i..] == (a + [s[i]]) + s[i + 1..]
  {
    assert s[i..] == [s[i]] + s[i + 1..];
  }

  lemma CountStep(log: seq<Shot>, shot: Shot, t: Shot)
    ensures Count(log + [shot], t) == Count(log, t) + (if shot == t then 1 else 0)
  {
    assert (log + [shot])[..|log|] == log;
  }

  /** `Group.update()` over the first `n` bullets, in group order; `alive[k]`
      says whether the `k`-th bullet stayed in the group. */
  method MoveBullets(cfg: Config, all: seq<Bullet>, n: nat, advance: Advance) returns (kept: seq<Bullet>, alive: seq<bool>)
    requires Distinct(all) && n <= |all|
    modifies Members(all[..n])`x, Members(all[..n])`y
    ensures |alive| == n && kept == Kept(all[..n], alive)
    ensures forall k :: 0 <= k < n ==> BulletMoved(cfg, advance, all[k], old(Pos(all[k].x, all[k].y)), alive[k])
    decreases n
  {
    if n == 0 {
      return [], [];
    }
    var i := n - 1;
    kept, alive := MoveBullets(cfg, all, i, advance);
    assert all[..i] == all[..n][..i];
    Apart(all, i);
    var killed := all[i].Update(cfg, advance);
    KeptStep(all, alive, !killed);
    if !killed {
      kept := kept + [all[i]];
    }
    alive := alive + [!killed];
  }

  /** `Group.update()` over the first `n` asteroids, in group order; `alive[k]`
      says whether the `k`-th asteroid stayed in the group. */
  method MoveAsteroids(cfg: Config, all: seq<Asteroid>, n: nat, advance: Advance) returns (kept: seq<Asteroid>, alive: seq<bool>)
    requires cfg.Valid() && Distinct(all) && n <= |all|
    modifies Members(all[..n])`x, Members(all[..n])`y, Members(all[..n])`fragmentTimer
    ensures |alive| == n && kept == Kept(all[..n], alive)
    ensures forall k :: 0 <= k < n ==>
              AsteroidMoved(cfg, advance, all[k], old(Pos(all[k].x, all[k].y)), old(all[k].fragmentTimer), alive[k])
    decreases n
  {
    if n == 0 {
      return [], [];
    }
    var i := n - 1;
    kept, alive := MoveAsteroids(cfg, all, i, advance);
    assert all[..i] == all[..n][..i];
    Apart(all, i);
    forall k | 0 <= k < i
      ensures all[k] != all[i]
    {
      assert all[k] == all[..i][k];
    }
    var killed := all[i].Update(cfg, advance);
    KeptStep(all, alive, !killed);
    if !killed {
      kept := kept + [all[i]];
    }
    ghost var before := alive;
    alive := alive + [!killed];
    forall k | 0 <= k < i
      ensures AsteroidMoved(cfg, advance, all[k], old(Pos(all[k].x, all[k].y)), old(all[k].fragmentTimer), alive[k])
    {
      assert alive[k] == before[k];
    }
    assert AsteroidMoved(cfg, advance, all[i], old(Pos(all[i].x, all[i].y)), old(all[i].fragmentTimer), alive[i]);
  }

  /** One bullet after its `update` from the corner `from`: moved along its
      heading, and `alive` iff it is still inside the closed box. */
  ghost predicate BulletMoved(cfg: Config, advance: Advance, b: Bullet, from: Pos, alive: bool)
    reads b`x, b`y
  {
    Pos(b.x, b.y) == advance(from, b.speed, b.angle)
    && (alive <==> InClosedBox(cfg, Pos(b.x, b.y)))
  }

  /** One asteroid after its `update` from the corner `from` and the timer
      `timer`: moved along its heading and wrapped into the screen, its timer
      one frame on, and `alive` iff that has not run out. */
  ghost predicate AsteroidMoved(cfg: Config, advance: Advance, a: Asteroid, from: Pos, timer: Option<int>, alive: bool)
    requires cfg.Valid()
    reads a`x, a`y, a`speed, a`angle, a`fragmentTimer
  {
    var moved := advance(from, a.speed, a.angle);
    a.x == Wrap(moved.x, cfg.width) && a.y == Wrap(moved.y, cfg.height)
    && 0 <= a.x < cfg.width && 0 <= a.y < cfg.height
    && a.fragmentTimer == Countdown(timer) && (alive <==> !Expired(a.fragmentTimer))
  }

  /** What every asteroid in the round's group satisfies: it has never split
      and its size is one of 40, 20, 10. */
  ghost predicate InPlay(a: Asteroid)
    reads a`hasSplit
  {
    a.Consistent() && !a.hasSplit
    && (a.size == INITIAL_SIZE || a.size == INITIAL_SIZE / 2 || a.size == SMALLEST_SIZE)
  }

  /** One bullet of the collision pass, whose rect is `rect`: `before` is the
      asteroid group it is tested against, with `rects` the members' rects, and
      `after` the group it leaves, with `rects'`. With no colliding asteroid the
      shot is a miss and the group stays as it is. Otherwise the first
      colliding asteroid leaves the group: a smallest one is destroyed, and a
      larger one is halved into two asteroids of half its size, centred where
      it was, appended at the end. */
  ghost predicate Resolved(collide: Collide, rect: Rect, before: seq<Asteroid>, rects: seq<Rect>, shot: Shot,
                           after: seq<Asteroid>, rects': seq<Rect>)
  {
    |rects| == |before| && |rects'| == |after|
    && var hit := FirstHit(collide, rect, rects);
    (shot == Miss <==> hit.None?)
    && (hit.None? ==> after == before && rects' == rects)
    && (hit.Some? ==>
          var j := hit.value;
          |before| - 1 <= |after|
          && after[..|before| - 1] == before[..j] + before[j + 1..]
          && rects'[..|before| - 1] == rects[..j] + rects[j + 1..]
          && (shot == Destroyed <==> before[j].size <= SMALLEST_SIZE)
          && (shot == Destroyed ==> |after| == |before| - 1)
          && (shot == Halved ==>
                |after| == |before| + 1
                && forall i :: |before| - 1 <= i < |after| ==>
                     after[i].size == before[j].size / 2
                     && rects'[i] == CenteredRect(CenterX(rects[j]), CenterY(rects[j]), before[j].size / 2, before[j].size / 2)))
  }

  /** A bullet that collides with nothing leaves the group as it is. */
  lemma ResolvedMiss(collide: Collide, rect: Rect, group: seq<Asteroid>, rects: seq<Rect>)
    requires |rects| == |group| && FirstHit(collide, rect, rects).None?
    ensures Resolved(collide, rect, group, rects, Miss, group, rects)
  {
  }

  /** A bullet whose first collision is with the asteroid at `j`: that asteroid
      leaves its slot and what its split returned is appended. */
  lemma ResolvedHit(collide: Collide, rect: Rect, before: seq<Asteroid>, rects: seq<Rect>, j: nat,
                    fragments: seq<Asteroid>, after: seq<Asteroid>, rects': seq<Rect>)
    requires |rects| == |before| && |rects'| == |after|
    requires FirstHit(collide, rect, rects) == Some(j)
    requires after == before[..j] + before[j + 1..] + fragments
    requires forall k {:trigger rects'[k]} :: 0 <= k < |before| - 1 ==> rects'[k] == (if k < j then rects[k] else rects[k + 1])
    requires before[j].size > SMALLEST_SIZE ==>
               |fragments| == 2 && forall c :: c in fragments ==> c.size == before[j].size / 2
    requires before[j].size <= SMALLEST_SIZE ==> fragments == []
    requires before[j].size > SMALLEST_SIZE ==>
               forall k {:trigger rects'[k]} :: |before| - 1 <= k < |after| ==>
                 rects'[k] == CenteredRect(CenterX(rects[j]), CenterY(rects[j]), before[j].size / 2, before[j].size / 2)
    ensures Resolved(collide, rect, before, rects, if fragments == [] then Destroyed else Halved, after, rects')
  {
    var n := |before| - 1;
    assert after[..n] == before[..j] + before[j + 1..];
    forall k {:trigger rects'[..n][k]} | 0 <= k < n
      ensures rects'[..n][k] == (rects[..j] + rects[j + 1..])[k]
    {
      assert rects'[..n][k] == rects'[k];
      if k < j {
        assert (rects[..j] + rects[j + 1..])[k] == rects[k];
      } else {
        assert (rects[..j] + rects[j + 1..])[k] == rects[j + 1..][k - j];
      }
    }
    assert rects'[..n] == rects[..j] + rects[j + 1..];
    forall k | n <= k < |after|
      ensures after[k].size == before[j].size / 2
    {
      assert after[k] == fragments[k - n];
    }
  }

  /** `ResolvedHit` in terms of the asteroids themselves: `rects` still holds
      the rects of the group tested against, and the fragments sit at the hit
      asteroid's centre. */
  lemma ResolvedHitNow(collide: Collide, rect: Rect, before: seq<Asteroid>, rects: seq<Rect>, j: nat,
                       fragments: seq<Asteroid>, after: seq<Asteroid>)
    requires |rects| == |before| && forall k :: 0 <= k < |before| ==> rects[k] == before[k].Bounds()
    requires FirstHit(collide, rect, rects) == Some(j)
    requires after == before[..j] + before[j + 1..] + fragments
    requires before[j].size > SMALLEST_SIZE ==>
               |fragments| == 2
               && forall c :: c in fragments ==>
                    c.size == before[j].size / 2 && c.CenterX() == before[j].CenterX() && c.CenterY() == before[j].CenterY()
    requires before[j].size <= SMALLEST_SIZE ==> fragments == []
    ensures Resolved(collide, rect, before, rects, if fragments == [] then Destroyed else Halved, after, RectsOf(after))
  {
    var rects' := RectsOf(after);
    var n := |before| - 1;
    forall k {:trigger rects'[k]} | 0 <= k < n
      ensures rects'[k] == (if k < j then rects[k] else rects[k + 1])
    {
      if k < j {
        assert after[k] == before[k];
      } else {
        assert after[k] == before[k + 1];
      }
    }
    if before[j].size > SMALLEST_SIZE {
      var half := before[j].size / 2;
      forall k {:trigger rects'[k]} | n <= k < |after|
        ensures rects'[k] == CenteredRect(CenterX(rects[j]), CenterY(rects[j]), half, half)
      {
        assert after[k] == fragments[k - n];
        assert fragments[k - n] in fragments;
      }
    }
    assert forall c :: c in fragments ==> c.size == before[j].size / 2;
    ResolvedHit(collide, rect, before, rects, j, fragments, after, rects');
  }

  /** The collision pass so far: for the `k`-th bullet, its rect `shots[k]`, the
      asteroid group `groups[k]` it was tested against with their rects
      `rects[k]`, and its entry `log[k]`; each bullet is `Resolved` against the
      group the previous one left, and the last group is the pass's result. */
  ghost predicate Pass(collide: Collide, shots: seq<Rect>, log: seq<Shot>, groups: seq<seq<Asteroid>>, rects: seq<seq<Rect>>)
    decreases |log|
  {
    |shots| == |log| && |groups| == |log| + 1 && |rects| == |log| + 1
    && (log != [] ==>
          var n := |log| - 1;
          Pass(collide, shots[..n], log[..n], groups[..n + 1], rects[..n + 1])
          && Resolved(collide, shots[n], groups[n], rects[n], log[n], groups[n + 1], rects[n + 1]))
  }

  /** In a pass, every bullet is `Resolved` against the group the previous
      bullet left. */
  lemma {:induction false} PassAt(collide: Collide, shots: seq<Rect>, log: seq<Shot>,
                                  groups: seq<seq<Asteroid>>, rects: seq<seq<Rect>>, k: nat)
    requires Pass(collide, shots, log, groups, rects) && k < |log|
    ensures Resolved(collide, shots[k], groups[k], rects[k], log[k], groups[k + 1], rects[k + 1])
    decreases |log|
  {
    var n := |log| - 1;
    if k < n {
      PassAt(collide, shots[..n], log[..n], groups[..n + 1], rects[..n + 1], k);
      assert groups[..n + 1][k + 1] == groups[k + 1] && rects[..n + 1][k + 1] == rects[k + 1];
    }
  }

  /** Resolving one more bullet against the last group extends the pass. */
  lemma PassExtend(collide: Collide, shots: seq<Rect>, log: seq<Shot>, groups: seq<seq<Asteroid>>, rects: seq<seq<Rect>>,
                   shot: Rect, entry: Shot, group: seq<Asteroid>, groupRects: seq<Rect>)
    requires Pass(collide, shots, log, groups, rects)
    requires Resolved(collide, shot, groups[|log|], rects[|log|], entry, group, groupRects)
    ensures Pass(collide, shots + [shot], log + [entry], groups + [group], rects + [groupRects])
  {
    var n := |log|;
    var shots', log', groups', rects' := shots + [shot], log + [entry], groups + [group], rects + [groupRects];
    assert shots'[..n] == shots && log'[..n] == log;
    assert groups'[..n + 1] == groups && rects'[..n + 1] == rects;
  }

  /** A pass that started from the group `first`, with rects `firstRects`, and
      has resolved the first `|log|` bullets, whose rects begin `bounds`. */
  ghost predicate PassFrom(collide: Collide, bounds: seq<Rect>, first: seq<Asteroid>, firstRects: seq<Rect>,
                           shots: seq<Rect>, log: seq<Shot>, groups: seq<seq<Asteroid>>, rects: seq<seq<Rect>>)
  {
    Pass(collide, shots, log, groups, rects) && |log| <= |bounds| && shots == bounds[..|log|]
    && groups[0] == first && rects[0] == firstRects
  }

  /** Resolving the next bullet extends a `PassFrom` by one step. */
  lemma PassStep(collide: Collide, bounds: seq<Rect>, first: seq<Asteroid>, firstRects: seq<Rect>,
                 shots: seq<Rect>, log: seq<Shot>, groups: seq<seq<Asteroid>>, rects: seq<seq<Rect>>,
                 rect: Rect, before: seq<Asteroid>, beforeRects: seq<Rect>,
                 entry: Shot, group: seq<Asteroid>, groupRects: seq<Rect>)
    requires PassFrom(collide, bounds, first, firstRects, shots, log, groups, rects) && |log| < |bounds|
    requires bounds[|log|] == rect && groups[|log|] == before && rects[|log|] == beforeRects
    requires Resolved(collide, rect, before, beforeRects, entry, group, groupRects)
    ensures PassFrom(collide, bounds, first, firstRects, shots + [bounds[|log|]], log + [entry],
                     groups + [group], rects + [groupRects])
    ensures (groups + [group])[|log| + 1] == group && (rects + [groupRects])[|log| + 1] == groupRects
    ensures Count(log + [entry], Destroyed) == Count(log, Destroyed) + (if entry == Destroyed then 1 else 0)
  {
    PassExtend(collide, shots, log, groups, rects, bounds[|log|], entry, group, groupRects);
    TakeNext(bounds, |log|);
    CountStep(log, entry, Destroyed);
  }

  /** Over a whole pass, the asteroid count grows by one per halving and drops
      by one per destruction. */
  lemma {:induction false} PassSizes(collide: Collide, shots: seq<Rect>, log: seq<Shot>,
                                     groups: seq<seq<Asteroid>>, rects: seq<seq<Rect>>)
    requires Pass(collide, shots, log, groups, rects)
    ensures |groups[|log|]| == |groups[0]| + Count(log, Halved) - Count(log, Destroyed)
    decreases |log|
  {
    if log != [] {
      var n := |log| - 1;
      PassSizes(collide, shots[..n], log[..n], groups[..n + 1], rects[..n + 1]);
      assert groups[..n + 1][0] == groups[0];
    }
  }

  /** How a run over `frames` stands after `ran` of them, as far as quitting
      goes: while running no frame asked to quit; once stopped, the last frame
      run is the first to ask, or the one that ended the round without asking. */
  ghost predicate Halted(frames: seq<Frame>, ran: nat, outcome: Outcome) {
    ran <= |frames|
    && (outcome == Running ==> forall m :: 0 <= m < ran ==> QuitEvent !in frames[m].events)
    && (outcome != Running ==>
          1 <= ran
          && (forall m :: 0 <= m < ran - 1 ==> QuitEvent !in frames[m].events)
          && (outcome == Quit <==> QuitEvent in frames[ran - 1].events))
  }

  lemma HaltedStep(frames: seq<Frame>, ran: nat, next: Outcome)
    requires Halted(frames, ran, Running) && ran < |frames|
    requires next == Quit <==> QuitEvent in frames[ran].events
    ensures Halted(frames, ran + 1, next)
  {
  }

  /** The local state of `game_loop`. */
  class Round {
    const cfg: Config
    const rng: Random
    const ship: Spaceship
    var asteroids: seq<Asteroid>
    var bullets: seq<Bullet>
    var score: nat

    ghost predicate Valid()
      reads this, Members(asteroids)`hasSplit
    {
      cfg.Valid() && Distinct(asteroids) && Distinct(bullets)
      && forall a :: a in asteroids ==> InPlay(a)
    }

    /** The set-up of `game_loop`: the ship, five asteroids of size 40 at
        random centres, no bullets and a score of 0. */
    constructor (cfg: Config, rng: Random)
      requires cfg.Valid()
      modifies rng
      ensures Valid() && this.cfg == cfg && this.rng == rng
      ensures fresh(ship) && ship.angle == 0 && !ship.moving
      ensures CenterX(ship.Bounds()) == cfg.width / 2 && CenterY(ship.Bounds()) == cfg.height / 2
      ensures |asteroids| == INITIAL_ASTEROIDS
      ensures forall a :: a in asteroids ==>
                (fresh(a) && a.size == INITIAL_SIZE
                 && 0 <= a.CenterX() <= cfg.width && 0 <= a.CenterY() <= cfg.height)
      ensures bullets == [] && score == 0
    {
      var spaceship := new Spaceship(cfg);
      var group: seq<Asteroid> := [];
      for i := 0 to INITIAL_ASTEROIDS
        invariant |group| == i && Distinct(group)
        invariant spaceship.angle == 0 && !spaceship.moving
        invariant CenterX(spaceship.Bounds()) == cfg.width / 2 && CenterY(spaceship.Bounds()) == cfg.height / 2
        invariant forall a :: a in group ==>
                    (fresh(a) && a.size == INITIAL_SIZE && InPlay(a)
                     && 0 <= a.CenterX() <= cfg.width && 0 <= a.CenterY() <= cfg.height)
      {
        var a := new Asteroid(cfg, None, None, INITIAL_SIZE, rng);
        group := group + [a];
      }
      this.cfg := cfg;
      this.rng := rng;
      ship := spaceship;
      asteroids := group;
      bullets := [];
      score := 0;
    }

    /** The event loop of a frame: a quit event ends the round; every Space
        key-down adds the two bullets `fire_bullet` returns. */
    method HandleEvents(events: seq<Event>, muzzle1: Pos, muzzle2: Pos) returns (quit: bool, ghost fired: seq<Bullet>)
      requires Valid()
      modifies this`bullets
      ensures Valid()
      ensures quit <==> QuitEvent in events
      ensures !quit ==> |bullets| == |old(bullets)| + 2 * SpacePresses(events)
      ensures |old(bullets)| <= |bullets| && bullets[..|old(bullets)|] == old(bullets)
      ensures bullets == old(bullets) + fired
      ensures forall k :: |old(bullets)| <= k < |bullets| ==>
                (fresh(bullets[k]) && bullets[k].angle == ship.angle && bullets[k].speed == BULLET_SPEED)
      ensures forall b :: b in bullets ==> b in old(bullets) || fresh(b)
      ensures unchanged(ship) && (forall a :: a in old(asteroids) ==> unchanged(a))
                && (forall b :: b in old(bullets) ==> unchanged(b))
      ensures asteroids == old(asteroids)
      ensures forall k :: 0 <= k < |asteroids| ==>
                Pos(asteroids[k].x, asteroids[k].y) == old(Pos(asteroids[k].x, asteroids[k].y))
                && asteroids[k].fragmentTimer == old(asteroids[k].fragmentTimer)
      ensures forall k :: 0 <= k < |old(bullets)| ==> Pos(bullets[k].x, bullets[k].y) == old(Pos(bullets[k].x, bullets[k].y))
    {
      for i := 0 to |events|
        invariant QuitEvent !in events[..i]
        invariant Valid()
        invariant |bullets| == |old(bullets)| + 2 * SpacePresses(events[..i])
        invariant bullets[..|old(bullets)|] == old(bullets)
        invariant forall k :: |old(bullets)| <= k < |bullets| ==>
                    (fresh(bullets[k]) && bullets[k].angle == ship.angle && bullets[k].speed == BULLET_SPEED)
      {
        assert events[..i + 1][..i] == events[..i];
        if events[i] == QuitEvent {
          assert QuitEvent in events;
          fired := bullets[|old(bullets)|..];
          assert bullets == old(bullets) + fired;
          return true, fired;
        } else if events[i] == KeyDown(true) {
          var shots := ship.FireBullet(muzzle1, muzzle2);
          assert shots[0] in shots && shots[1] in shots;
          assert shots[0] !in bullets && shots[1] !in bullets;
          bullets := bullets + shots;
        }
      }
      assert events[..|events|] == events;
      quit, fired := false, bullets[|old(bullets)|..];
      assert bullets == old(bullets) + fired;
    }

    /** `bullets.update()`: every bullet moves; those outside the closed box
        leave the group, the others stay in their order. */
    method UpdateBullets(advance: Advance) returns (alive: seq<bool>)
      requires Valid()
      modifies this`bullets, Members(bullets)`x, Members(bullets)`y
      ensures Valid()
      ensures |alive| == |old(bullets)| && bullets == Kept(old(bullets), alive)
      ensures forall b :: b in bullets ==> b in old(bullets)
      ensures forall k :: 0 <= k < |alive| ==>
                BulletMoved(cfg, advance, old(bullets)[k], old(Pos(bullets[k].x, bullets[k].y)), alive[k])
    {
      var all := bullets;
      assert all[..|all|] == all;
      bullets, alive := MoveBullets(cfg, all, |all|, advance);
      DistinctKept(all, alive);
      KeptWithin(all, alive);
    }

    /** `asteroids.update()`: every asteroid moves and wraps; those whose
        fragment timer ran out leave the group, the others stay in their order. */
    method UpdateAsteroids(advance: Advance) returns (alive: seq<bool>)
      requires Valid()
      modifies this`asteroids, Members(asteroids)`x, Members(asteroids)`y, Members(asteroids)`fragmentTimer
      ensures Valid()
      ensures |alive| == |old(asteroids)| && asteroids == Kept(old(asteroids), alive)
      ensures forall a :: a in asteroids ==> a in old(asteroids)
      ensures forall k :: 0 <= k < |alive| ==>
                AsteroidMoved(cfg, advance, old(asteroids)[k], old(Pos(asteroids[k].x, asteroids[k].y)),
                              old(asteroids[k].fragmentTimer), alive[k])
    {
      var all := asteroids;
      assert all[..|all|] == all;
      asteroids, alive := MoveAsteroids(cfg, all, |all|, advance);
      DistinctKept(all, alive);
      KeptWithin(all, alive);
    }

    /** `split()` on the asteroid at position `j` and its `kill()`: what it returns
        joins the group in its place at the end, and the score goes up by one
        exactly when that is nothing. Since no asteroid in the group has split
        before, that is two halves (for sizes 40 and 20) or nothing (size 10). */
    method SplitHit(j: nat) returns (fragments: seq<Asteroid>)
      requires Valid() && j < |asteroids|
      modifies this`asteroids, this`score, rng, Members(asteroids)`hasSplit
      ensures Valid()
      ensures asteroids == old(asteroids)[..j] + old(asteroids)[j + 1..] + fragments
      ensures var parent := old(asteroids)[j];
              parent.hasSplit == (parent.size > SMALLEST_SIZE)
              && (parent.size > SMALLEST_SIZE ==>
                    |fragments| == 2 && score == old(score)
                    && forall c :: c in fragments ==>
                         (Spawned(c, parent.CenterX(), parent.CenterY(), parent.size / 2) && 1 <= c.speed <= 3
                          && c.fragmentTimer == InitialTimer(parent.size / 2)))
              && (parent.size <= SMALLEST_SIZE ==> fragments == [] && score == old(score) + 1)
      ensures forall c :: c in fragments ==> fresh(c)
      ensures forall a :: a in asteroids ==> a in old(asteroids) || fresh(a)
    {
      var parent := asteroids[j];
      ghost var group := asteroids;
      assert InPlay(parent);
      fragments := parent.Split(cfg, rng);
      if |fragments| > 0 {
        asteroids := asteroids + fragments;
      } else {
        score := score + 1;
        assert asteroids == group + fragments;
      }
      forall k | 0 <= k < |fragments|
        ensures fragments[k] !in group
      {
        assert fragments[k] in fragments;
        assert fresh(fragments[k]);
      }
      KillAfterAdd(group, fragments, j);
      asteroids := Remove(asteroids, parent);
      assert forall a :: a in group && a != parent ==> InPlay(a);
      assert forall c :: c in fragments ==> InPlay(c);
    }

    /** The loop body for one bullet: the first asteroid it collides with, if
        any, takes the bullet out of its group and is split and killed; the
        score goes up when that asteroid was of the smallest size. */
    method ResolveBullet(b: Bullet, collide: Collide) returns (hit: Option<nat>, fragments: seq<Asteroid>)
      requires Valid() && b in bullets
      modifies this`asteroids, this`bullets, this`score, rng, Members(asteroids)`hasSplit
      ensures Valid()
      ensures hit == FirstHit(collide, old(b.Bounds()), old(RectsOf(asteroids)))
      ensures hit.None? ==>
                fragments == [] && asteroids == old(asteroids) && bullets == old(bullets) && score == old(score)
      ensures hit.Some? ==>
                var j := hit.value;
                var parent := old(asteroids)[j];
                bullets == Remove(old(bullets), b)
                && asteroids == old(asteroids)[..j] + old(asteroids)[j + 1..] + fragments
                && (parent.size > SMALLEST_SIZE ==>
                      |fragments| == 2 && score == old(score)
                      && forall c :: c in fragments ==>
                           (Spawned(c, parent.CenterX(), parent.CenterY(), parent.size / 2)
                            && 1 <= c.speed <= 3 && c.fragmentTimer == InitialTimer(parent.size / 2)))
                && (parent.size <= SMALLEST_SIZE ==> fragments == [] && score == old(score) + 1)
      ensures forall c :: c in fragments ==> fresh(c)
      ensures forall a :: a in asteroids ==> a in old(asteroids) || fresh(a)
      ensures forall k :: 0 <= k < |old(asteroids)| ==> old(asteroids)[k].Bounds() == old(RectsOf(asteroids))[k]
    {
      hit := FirstHit(collide, b.Bounds(), RectsOf(asteroids));
      fragments := [];
      if hit.Some? {
        DistinctRemove(bullets, b);
        bullets := Remove(bullets, b);
        fragments := SplitHit(hit.value);
      }
    }

    /** One bullet of the collision pass, as a `Shot`: the step it takes the
        asteroid group through is `Resolved`. */
    method ResolveShot(b: Bullet, collide: Collide) returns (shot: Shot)
      requires Valid() && b in bullets
      modifies this`asteroids, this`bullets, this`score, rng, Members(asteroids)`hasSplit
      ensures Valid()
      ensures bullets == if shot == Miss then old(bullets) else Remove(old(bullets), b)
      ensures score == old(score) + (if shot == Destroyed then 1 else 0)
      ensures |asteroids| == |old(asteroids)| + (if shot == Halved then 1 else 0) - (if shot == Destroyed then 1 else 0)
      ensures Resolved(collide, old(b.Bounds()), old(asteroids), old(RectsOf(asteroids)), shot, asteroids, RectsOf(asteroids))
      ensures forall a :: a in asteroids ==> a in old(asteroids) || fresh(a)
    {
      var hit, fragments := ResolveBullet(b, collide);
      shot := if hit.None? then Miss else if fragments == [] then Destroyed else Halved;
      if hit.None? {
        ResolvedMiss(collide, old(b.Bounds()), old(asteroids), old(RectsOf(asteroids)));
      } else {
        ResolvedHitNow(collide, old(b.Bounds()), old(asteroids), old(RectsOf(asteroids)), hit.value, fragments, asteroids);
      }
    }

    /** The next bullet of the pass, `all[|log|]`: one more step of `PassFrom`,
        with the bullet group and the score advancing by its shot. */
    method ResolveNext(all: seq<Bullet>, log: seq<Shot>, collide: Collide, ghost base: int,
                       ghost bounds: seq<Rect>, ghost first: seq<Asteroid>, ghost firstRects: seq<Rect>,
                       ghost shots: seq<Rect>, ghost groups: seq<seq<Asteroid>>, ghost rects: seq<seq<Rect>>)
      returns (log': seq<Shot>, ghost shots': seq<Rect>, ghost groups': seq<seq<Asteroid>>, ghost rects': seq<seq<Rect>>)
      requires Valid() && Distinct(all) && |log| < |all| == |bounds|
      requires bullets == Missed(all[..|log|], log) + all[|log|..]
      requires score == base + Count(log, Destroyed)
      requires PassFrom(collide, bounds, first, firstRects, shots, log, groups, rects)
      requires bounds[|log|] == all[|log|].Bounds()
      requires groups[|log|] == asteroids && rects[|log|] == RectsOf(asteroids)
      modifies this`asteroids, this`bullets, this`score, rng, Members(asteroids)`hasSplit
      ensures Valid()
      ensures |log'| == |log| + 1 && log'[..|log|] == log
      ensures bullets == Missed(all[..|log'|], log') + all[|log'|..]
      ensures score == base + Count(log', Destroyed)
      ensures PassFrom(collide, bounds, first, firstRects, shots', log', groups', rects')
      ensures groups'[|log'|] == asteroids && rects'[|log'|] == RectsOf(asteroids)
      ensures forall a :: a in asteroids ==> a in old(asteroids) || fresh(a)
    {
      var i := |log|;
      assert all[i] in bullets;
      var shot := ResolveShot(all[i], collide);
      log' := log + [shot];
      PassBullets(all, log, shot, log', old(bullets), bullets);
      PassStep(collide, bounds, first, firstRects, shots, log, groups, rects,
               old(all[i].Bounds()), old(asteroids), old(RectsOf(asteroids)), shot, asteroids, RectsOf(asteroids));
      shots', groups', rects' := shots + [bounds[i]], groups + [asteroids], rects + [RectsOf(asteroids)];
      assert log'[..i] == log;
    }

    /** The collision pass of a frame: each bullet in turn, against the group as
        the earlier bullets left it. */
    method ResolveHits(collide: Collide)
      returns (log: seq<Shot>, ghost shots: seq<Rect>, ghost groups: seq<seq<Asteroid>>, ghost rects: seq<seq<Rect>>)
      requires Valid()
      modifies this`asteroids, this`bullets, this`score, rng, Members(asteroids)`hasSplit
      ensures Valid()
      ensures |log| == |old(bullets)|
      ensures bullets == Missed(old(bullets), log)
      ensures score == old(score) + Count(log, Destroyed)
      ensures |asteroids| == |old(asteroids)| + Count(log, Halved) - Count(log, Destroyed)
      ensures Pass(collide, shots, log, groups, rects)
      ensures forall k :: 0 <= k < |log| ==> shots[k] == old(bullets)[k].Bounds()
      ensures groups[0] == old(asteroids) && rects[0] == RectsOf(old(asteroids))
      ensures groups[|log|] == asteroids && rects[|log|] == RectsOf(asteroids)
      ensures forall a :: a in asteroids ==> a in old(asteroids) || fresh(a)
      ensures forall b :: b in bullets ==> b in old(bullets)
      ensures forall a :: a in old(asteroids) ==> unchanged(a`x, a`y, a`speed, a`angle, a`fragmentTimer)
    {
      var all := bullets;
      log := [];
      ghost var bounds := seq(|all|, k requires 0 <= k < |all| reads all => all[k].Bounds());
      shots, groups, rects := [], [asteroids], [RectsOf(asteroids)];
      for i := 0 to |all|
        invariant Valid()
        invariant |log| == i
        invariant bullets == Missed(all[..|log|], log) + all[|log|..]
        invariant score == old(score) + Count(log, Destroyed)
        invariant PassFrom(collide, bounds, old(asteroids), old(RectsOf(asteroids)), shots, log, groups, rects)
        invariant groups[|log|] == asteroids && rects[|log|] == RectsOf(asteroids)
        invariant forall a :: a in asteroids ==> a in old(asteroids) || fresh(a)
      {
        assert bounds[i] == all[i].Bounds();
        log, shots, groups, rects := ResolveNext(all, log, collide, old(score), bounds, old(asteroids),
                                                 old(RectsOf(asteroids)), shots, groups, rects);
      }
      assert all[..|all|] == all;
      PassSizes(collide, shots, log, groups, rects);
      forall b | b in bullets
        ensures b in all
      {
        MissedFrom(all, log, b);
      }
    }

    /** `bullets.update()` and then `asteroids.update()`. */
    method MoveGroups(advance: Advance) returns (ghost origins: seq<Pos>, bulletsAlive: seq<bool>, asteroidsAlive: seq<bool>)
      requires Valid()
      modifies this`asteroids, this`bullets
      modifies Members(asteroids)`x, Members(asteroids)`y, Members(asteroids)`fragmentTimer
      modifies Members(bullets)`x, Members(bullets)`y
      ensures Valid()
      ensures |bulletsAlive| == |old(bullets)| && bullets == Kept(old(bullets), bulletsAlive)
      ensures |origins| == |old(bullets)|
                && forall k :: 0 <= k < |origins| ==> origins[k] == old(Pos(bullets[k].x, bullets[k].y))
      ensures forall k :: 0 <= k < |bulletsAlive| ==>
                BulletMoved(cfg, advance, old(bullets)[k], origins[k], bulletsAlive[k])
      ensures |asteroidsAlive| == |old(asteroids)| && asteroids == Kept(old(asteroids), asteroidsAlive)
      ensures forall k :: 0 <= k < |asteroidsAlive| ==>
                AsteroidMoved(cfg, advance, old(asteroids)[k], old(Pos(asteroids[k].x, asteroids[k].y)),
                              old(asteroids[k].fragmentTimer), asteroidsAlive[k])
      ensures forall a :: a in asteroids ==> a in old(asteroids)
      ensures forall b :: b in bullets ==> b in old(bullets)
    {
      var shooting := bullets;
      origins := seq(|shooting|, k requires 0 <= k < |shooting| reads shooting => Pos(shooting[k].x, shooting[k].y));
      bulletsAlive := UpdateBullets(advance);
      asteroidsAlive := UpdateAsteroids(advance);
    }

    /** `bullets.update()`, `asteroids.update()` and the collision pass over
        the bullets that stayed. */
    method MoveAndResolve(advance: Advance, collide: Collide)
      returns (ghost origins: seq<Pos>, ghost bulletsAlive: seq<bool>, ghost asteroidsAlive: seq<bool>,
               log: seq<Shot>, ghost shots: seq<Rect>, ghost groups: seq<seq<Asteroid>>, ghost rects: seq<seq<Rect>>)
      requires Valid()
      modifies this`asteroids, this`bullets, this`score, rng
      modifies Members(asteroids)`x, Members(asteroids)`y, Members(asteroids)`fragmentTimer, Members(asteroids)`hasSplit
      modifies Members(bullets)`x, Members(bullets)`y
      ensures Valid()
      ensures |bulletsAlive| == |old(bullets)| && |log| == |Kept(old(bullets), bulletsAlive)|
      ensures |origins| == |old(bullets)|
                && forall k :: 0 <= k < |origins| ==> origins[k] == old(Pos(bullets[k].x, bullets[k].y))
      ensures forall k :: 0 <= k < |bulletsAlive| ==>
                BulletMoved(cfg, advance, old(bullets)[k], origins[k], bulletsAlive[k])
      ensures bullets == Missed(Kept(old(bullets), bulletsAlive), log)
      ensures |asteroidsAlive| == |old(asteroids)| && Pass(collide, shots, log, groups, rects)
      ensures forall k :: 0 <= k < |asteroidsAlive| ==>
                AsteroidMoved(cfg, advance, old(asteroids)[k], old(Pos(asteroids[k].x, asteroids[k].y)),
                              old(asteroids[k].fragmentTimer), asteroidsAlive[k])
      ensures groups[0] == Kept(old(asteroids), asteroidsAlive) && groups[|log|] == asteroids
      ensures rects[0] == RectsOf(groups[0]) && rects[|log|] == RectsOf(asteroids)
      ensures forall k :: 0 <= k < |log| ==> shots[k] == Kept(old(bullets), bulletsAlive)[k].Bounds()
      ensures score == old(score) + Count(log, Destroyed)
      ensures forall a :: a in asteroids ==> a in old(asteroids) || fresh(a)
      ensures forall b :: b in bullets ==> b in old(bullets)
      ensures unchanged(ship)
    {
      origins, bulletsAlive, asteroidsAlive := MoveGroups(advance);
      label moved:
      log, shots, groups, rects := ResolveHits(collide);
      forall k | 0 <= k < |bulletsAlive|
        ensures BulletMoved(cfg, advance, old(bullets)[k], origins[k], bulletsAlive[k])
      {
        var b := old(bullets)[k];
        assert old@moved(BulletMoved(cfg, advance, b, origins[k], bulletsAlive[k]));
      }
      forall k | 0 <= k < |asteroidsAlive|
        ensures AsteroidMoved(cfg, advance, old(asteroids)[k], old(Pos(asteroids[k].x, asteroids[k].y)),
                              old(asteroids[k].fragmentTimer), asteroidsAlive[k])
      {
        var a, from, timer := old(asteroids)[k], old(Pos(asteroids[k].x, asteroids[k].y)), old(asteroids[k].fragmentTimer);
        assert old@moved(AsteroidMoved(cfg, advance, a, from, timer, asteroidsAlive[k]));
      }
    }

    /** The rest of a frame once no quit event came: `spaceship.update`, the
        groups and the collision pass, and the round ends when the ship
        touches an asteroid. */
    method UpdateAndCollide(frame: Frame, advance: Advance, collide: Collide)
      returns (outcome: Outcome, ghost origins: seq<Pos>, ghost bulletsAlive: seq<bool>, ghost asteroidsAlive: seq<bool>,
               log: seq<Shot>, ghost shots: seq<Rect>, ghost groups: seq<seq<Asteroid>>, ghost rects: seq<seq<Rect>>)
      requires Valid()
      modifies this`asteroids, this`bullets, this`score, rng, ship
      modifies Members(asteroids)`x, Members(asteroids)`y, Members(asteroids)`fragmentTimer, Members(asteroids)`hasSplit
      modifies Members(bullets)`x, Members(bullets)`y
      ensures Valid()
      ensures ship.angle == Turned(old(ship.angle), frame.keys) && ship.moving == frame.keys.up
      ensures ship.x == Wrap(frame.shipMoved.x, cfg.width) && ship.y == Wrap(frame.shipMoved.y, cfg.height)
      ensures |bulletsAlive| == |old(bullets)| && |log| == |Kept(old(bullets), bulletsAlive)|
      ensures |origins| == |old(bullets)|
                && forall k :: 0 <= k < |origins| ==> origins[k] == old(Pos(bullets[k].x, bullets[k].y))
      ensures forall k :: 0 <= k < |bulletsAlive| ==>
                BulletMoved(cfg, advance, old(bullets)[k], origins[k], bulletsAlive[k])
      ensures bullets == Missed(Kept(old(bullets), bulletsAlive), log)
      ensures |asteroidsAlive| == |old(asteroids)| && Pass(collide, shots, log, groups, rects)
      ensures forall k :: 0 <= k < |asteroidsAlive| ==>
                AsteroidMoved(cfg, advance, old(asteroids)[k], old(Pos(asteroids[k].x, asteroids[k].y)),
                              old(asteroids[k].fragmentTimer), asteroidsAlive[k])
      ensures groups[0] == Kept(old(asteroids), asteroidsAlive) && groups[|log|] == asteroids
      ensures rects[0] == RectsOf(groups[0]) && rects[|log|] == RectsOf(asteroids)
      ensures forall k :: 0 <= k < |log| ==> shots[k] == Kept(old(bullets), bulletsAlive)[k].Bounds()
      ensures score == old(score) + Count(log, Destroyed)
      ensures outcome != Quit && (outcome.Over? <==> FirstHit(collide, ship.Bounds(), RectsOf(asteroids)).Some?)
      ensures outcome.Over? ==> outcome.score == score
      ensures forall a :: a in asteroids ==> !a.hasSplit
      ensures forall a :: a in asteroids ==> a in old(asteroids) || fresh(a)
      ensures forall b :: b in bullets ==> b in old(bullets)
    {
      ship.Update(cfg, frame.keys, frame.shipMoved);
      origins, bulletsAlive, asteroidsAlive, log, shots, groups, rects := MoveAndResolve(advance, collide);
      if FirstHit(collide, ship.Bounds(), RectsOf(asteroids)).Some? {
        outcome := Over(score);
      } else {
        outcome := Running;
      }
    }

    /** One pass of the `while running` loop: events, the ship, the bullets
        and the asteroids move, bullets are resolved against the asteroids,
        and the round ends when the ship touches an asteroid. `fired` are the
        bullets the events added, `bulletsAlive` and `asteroidsAlive` say which
        members stayed through `Group.update()`, and `log`, `shots`, `groups`
        and `rects` describe the collision pass. */
    method Tick(frame: Frame, advance: Advance, collide: Collide)
      returns (outcome: Outcome, ghost fired: seq<Bullet>, ghost origins: seq<Pos>,
               ghost bulletsAlive: seq<bool>, ghost asteroidsAlive: seq<bool>,
               log: seq<Shot>, ghost shots: seq<Rect>, ghost groups: seq<seq<Asteroid>>, ghost rects: seq<seq<Rect>>)
      requires Valid()
      modifies this`asteroids, this`bullets, this`score, rng, ship
      modifies Members(asteroids)`x, Members(asteroids)`y, Members(asteroids)`fragmentTimer, Members(asteroids)`hasSplit
      modifies Members(bullets)`x, Members(bullets)`y
      ensures Valid()
      ensures outcome == Quit <==> QuitEvent in frame.events
      ensures outcome == Quit ==>
                asteroids == old(asteroids) && score == old(score) && ship.angle == old(ship.angle)
                && |old(bullets)| <= |bullets| && bullets[..|old(bullets)|] == old(bullets)
      ensures outcome == Quit ==>
                unchanged(ship) && (forall a :: a in old(asteroids) ==> unchanged(a))
                && (forall b :: b in old(bullets) ==> unchanged(b))
      ensures outcome != Quit ==>
                ship.angle == Turned(old(ship.angle), frame.keys) && ship.moving == frame.keys.up
                && ship.x == Wrap(frame.shipMoved.x, cfg.width) && ship.y == Wrap(frame.shipMoved.y, cfg.height)
      ensures outcome != Quit ==>
                |fired| == 2 * SpacePresses(frame.events)
                && (forall b :: b in fired ==> fresh(b) && b.angle == old(ship.angle) && b.speed == BULLET_SPEED)
                && |bulletsAlive| == |old(bullets)| + |fired| && |origins| == |bulletsAlive|
                && (forall k :: 0 <= k < |old(bullets)| ==> origins[k] == old(Pos(bullets[k].x, bullets[k].y)))
                && (forall k :: 0 <= k < |bulletsAlive| ==>
                      BulletMoved(cfg, advance, (old(bullets) + fired)[k], origins[k], bulletsAlive[k]))
                && |log| == |Kept(old(bullets) + fired, bulletsAlive)|
                && bullets == Missed(Kept(old(bullets) + fired, bulletsAlive), log)
      ensures outcome != Quit ==>
                |asteroidsAlive| == |old(asteroids)|
                && (forall k :: 0 <= k < |asteroidsAlive| ==>
                      AsteroidMoved(cfg, advance, old(asteroids)[k], old(Pos(asteroids[k].x, asteroids[k].y)),
                                    old(asteroids[k].fragmentTimer), asteroidsAlive[k]))
                && Pass(collide, shots, log, groups, rects)
                && groups[0] == Kept(old(asteroids), asteroidsAlive) && groups[|log|] == asteroids
                && rects[0] == RectsOf(groups[0]) && rects[|log|] == RectsOf(asteroids)
                && (forall k :: 0 <= k < |log| ==> shots[k] == Kept(old(bullets) + fired, bulletsAlive)[k].Bounds())
                && score == old(score) + Count(log, Destroyed)
      ensures old(score) <= score
      ensures outcome.Over? <==> outcome != Quit && FirstHit(collide, ship.Bounds(), RectsOf(asteroids)).Some?
      ensures outcome.Over? ==> outcome.score == score
      ensures forall a :: a in asteroids ==> !a.hasSplit
      ensures forall a :: a in asteroids ==> a in old(asteroids) || fresh(a)
      ensures forall b :: b in bullets ==> b in old(bullets) || fresh(b)
    {
      fired, origins, bulletsAlive, asteroidsAlive, log, shots, groups, rects := [], [], [], [], [], [], [[]], [[]];
      var quit;
      quit, fired := HandleEvents(frame.events, frame.muzzle1, frame.muzzle2);
      if quit {
        return Quit, fired, origins, bulletsAlive, asteroidsAlive, log, shots, groups, rects;
      }
      forall b | b in fired
        ensures fresh(b) && b.angle == old(ship.angle) && b.speed == BULLET_SPEED
      {
        var k :| 0 <= k < |fired| && fired[k] == b;
        assert bullets[|old(bullets)| + k] == b;
      }
      var shooting := bullets;
      outcome, origins, bulletsAlive, asteroidsAlive, log, shots, groups, rects := UpdateAndCollide(frame, advance, collide);
      forall k | 0 <= k < |bulletsAlive|
        ensures BulletMoved(cfg, advance, (old(bullets) + fired)[k], origins[k], bulletsAlive[k])
      {
        assert (old(bullets) + fired)[k] == shooting[k];
      }
      assert outcome != Quit;
    }

    /** The `while running` loop over the frames it is given, until a quit
        event or a collision with the ship ends the round; `ran` frames were
        played. */
    method Play(frames: seq<Frame>, advance: Advance, collide: Collide) returns (outcome: Outcome, ran: nat)
      requires Valid()
      modifies this`asteroids, this`bullets, this`score, rng, ship
      modifies Members(asteroids)`x, Members(asteroids)`y, Members(asteroids)`fragmentTimer, Members(asteroids)`hasSplit
      modifies Members(bullets)`x, Members(bullets)`y
      ensures Valid()
      ensures Halted(frames, ran, outcome)
      ensures outcome == Running ==> ran == |frames|
      ensures outcome.Over? ==> outcome.score == score && FirstHit(collide, ship.Bounds(), RectsOf(asteroids)).Some?
      ensures outcome == Running && 0 < ran ==> FirstHit(collide, ship.Bounds(), RectsOf(asteroids)).None?
      ensures old(score) <= score
    {
      outcome := Running;
      ran := 0;
      while ran < |frames| && outcome == Running
        invariant Valid()
        invariant Halted(frames, ran, outcome)
        invariant old(score) <= score
        invariant outcome.Over? ==> outcome.score == score && FirstHit(collide, ship.Bounds(), RectsOf(asteroids)).Some?
        invariant outcome == Running && 0 < ran ==> FirstHit(collide, ship.Bounds(), RectsOf(asteroids)).None?
        invariant forall a :: a in asteroids ==> a in old(asteroids) || fresh(a)
        invariant forall b :: b in bullets ==> b in old(bullets) || fresh(b)
      {
        var next, _, _, _, _, _, _, _, _ := Tick(frames[ran], advance, collide);
        HaltedStep(frames, ran, next);
        outcome := next;
        ran := ran + 1;
      }
    }
}
}
