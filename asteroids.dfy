/** The asteroid sprite: its fragmentation state machine (`split`,
    `create_explosion`), its fragment countdown and its wrap-around motion. */
module Asteroids {
  import opened Wrappers
  import opened Screen
  import opened Rand

  const SMALLEST_SIZE := 10
  const FRAGMENT_LIFETIME := 30   // frames
  const EXPLOSION_FRAGMENTS := 10

  /** A present fragment timer after one `update`: one frame less. */
  function Countdown(timer: Option<int>): Option<int> {
    if timer.Some? then Some(timer.value - 1) else None
  }

  /** The test after the countdown that makes an asteroid `kill()` itself. */
  predicate Expired(timer: Option<int>) {
    timer.Some? && timer.value <= 0
  }

  /** An asteroid whose timer is `timer` is still in its groups after `n` more updates. */
  predicate SurvivesUpdates(timer: Option<int>, n: nat)
    decreases n
  {
    n == 0 || (!Expired(Countdown(timer)) && SurvivesUpdates(Countdown(timer), n - 1))
  }

  /** A timer holding `t` lets its asteroid through exactly the updates that
      leave it positive: it survives `n` updates iff n < t (or n is 0). */
  lemma {:induction false} TimedLifetime(t: int, n: nat)
    ensures SurvivesUpdates(Some(t), n) <==> n == 0 || n < t
    decreases n
  {
    if n > 0 {
      TimedLifetime(t - 1, n - 1);
    }
  }

  /** A fragment created with the full lifetime survives 29 updates and is
      removed by the 30th. */
  lemma FragmentLifetime()
    ensures SurvivesUpdates(Some(FRAGMENT_LIFETIME), FRAGMENT_LIFETIME - 1)
    ensures !SurvivesUpdates(Some(FRAGMENT_LIFETIME), FRAGMENT_LIFETIME)
  {
    TimedLifetime(FRAGMENT_LIFETIME, FRAGMENT_LIFETIME - 1);
    TimedLifetime(FRAGMENT_LIFETIME, FRAGMENT_LIFETIME);
  }

  /** An asteroid without a timer never removes itself. */
  lemma {:induction false} UntimedNeverExpires(n: nat)
    ensures SurvivesUpdates(None, n)
  {
    if n > 0 {
      UntimedNeverExpires(n - 1);
    }
  }

  /** The timer `__init__` gives an asteroid of the given size. */
  function InitialTimer(size: int): Option<int> {
    if size == SMALLEST_SIZE then Some(FRAGMENT_LIFETIME) else None
  }

  /** The sizes of the asteroids `split` returns for a parent in this state:
      two halves, a ten-fragment explosion, or nothing. */
  function SplitSizes(hasSplit: bool, size: int): seq<int> {
    if !hasSplit && size > SMALLEST_SIZE then [size / 2, size / 2]
    else if hasSplit then seq(EXPLOSION_FRAGMENTS, _ => SMALLEST_SIZE)
    else []
  }

  /** An asteroid only gets `has_split` from a size above the smallest, so
      nothing `split` returns is larger than its parent. */
  lemma SplitShrinks(hasSplit: bool, size: int)
    requires hasSplit ==> size > SMALLEST_SIZE
    ensures forall i :: 0 <= i < |SplitSizes(hasSplit, size)| ==> SplitSizes(hasSplit, size)[i] < size
  {
  }

  /** From a fresh size-40 asteroid: 40 -> 20 -> 10 -> nothing. */
  lemma SizeLadder()
    ensures SplitSizes(false, 40) == [20, 20]
    ensures SplitSizes(false, 20) == [10, 10]
    ensures SplitSizes(false, 10) == []
  {
  }

  /** `c` is what `Asteroid(cx, cy, size)` builds: centred on (cx, cy), never
      split, with the timer its size calls for and in-range angle and vertex count. */
  ghost predicate Spawned(c: Asteroid, cx: int, cy: int, size: int)
    reads c
  {
    c.size == size && c.CenterX() == cx && c.CenterY() == cy && !c.hasSplit
    && 0 <= c.angle <= 360 && 5 <= c.vertices <= 8
  }

  ghost function SizesOf(cs: seq<Asteroid>): (sizes: seq<int>)
    reads cs
    ensures |sizes| == |cs|
    ensures forall i :: 0 <= i < |cs| ==> sizes[i] == cs[i].size
  {
    if cs == [] then [] else [cs[0].size] + SizesOf(cs[1..])
  }

  class Asteroid {
    var x: int
    var y: int
    const size: int
    var speed: int
    var angle: int
    const vertices: int
    var fragmentTimer: Option<int>
    var hasSplit: bool

    function Bounds(): Rect
      reads this`x, this`y
    {
      Rect(x, y, size, size)
    }

    function CenterX(): int
      reads this`x
    {
      x + size / 2
    }

    function CenterY(): int
      reads this`y
    {
      y + size / 2
    }

    /** `has_split` is only ever set on an asteroid larger than the smallest size. */
    ghost predicate Consistent()
      reads this`hasSplit
    {
      size >= 0 && (hasSplit ==> size > SMALLEST_SIZE)
    }

    /** `Asteroid(x, y, size)`: a missing centre coordinate is drawn from
        [0, WIDTH] or [0, HEIGHT]; then speed, angle and vertex count are drawn. */
    constructor (cfg: Config, cx: Option<int>, cy: Option<int>, size: nat, rng: Random)
      requires cx.None? ==> cfg.width >= 0
      requires cy.None? ==> cfg.height >= 0
      modifies rng
      ensures cx.Some? ==> CenterX() == cx.value
      ensures cx.None? ==> 0 <= CenterX() <= cfg.width
      ensures cy.Some? ==> CenterY() == cy.value
      ensures cy.None? ==> 0 <= CenterY() <= cfg.height
      ensures this.size == size
      ensures 1 <= speed <= 3 && 0 <= angle <= 360 && 5 <= vertices <= 8
      ensures fragmentTimer == InitialTimer(size)
      ensures !hasSplit && Consistent()
    {
      var centerX, centerY;
      if cx.Some? {
        centerX := cx.value;
      } else {
        centerX := rng.RandInt(0, cfg.width);
      }
      if cy.Some? {
        centerY := cy.value;
      } else {
        centerY := rng.RandInt(0, cfg.height);
      }
      var r := CenteredRect(centerX, centerY, size, size);
      var s := rng.RandInt(1, 3);
      var a := rng.RandInt(0, 360);
      var v := rng.RandInt(5, 8);
      this.size := size;
      x, y := r.x, r.y;
      speed, angle, vertices := s, a, v;
      fragmentTimer := InitialTimer(size);
      hasSplit := false;
    }

    /** `update`: move, wrap into the screen, and count down a fragment timer;
        `killed` reports the `kill()` call at the end of `update`. */
    method Update(cfg: Config, advance: Advance) returns (killed: bool)
      requires cfg.Valid()
      modifies this`x, this`y, this`fragmentTimer
      ensures 0 <= x < cfg.width && 0 <= y < cfg.height
      ensures var moved := advance(Pos(old(x), old(y)), speed, angle);
              x == Wrap(moved.x, cfg.width) && y == Wrap(moved.y, cfg.height)
      ensures fragmentTimer == Countdown(old(fragmentTimer))
      ensures killed == Expired(fragmentTimer)
    {
      var moved := advance(Pos(x, y), speed, angle);
      x := Wrap(moved.x, cfg.width);
      y := Wrap(moved.y, cfg.height);
      killed := false;
      if fragmentTimer.Some? {
        fragmentTimer := Some(fragmentTimer.value - 1);
        if fragmentTimer.value <= 0 {
          killed := true;
        }
      }
    }

    /** `split`: a never-split asteroid above the smallest size marks itself and
        returns two half-size children at its centre; an already-split one
        explodes; anything else returns nothing. */
    method Split(cfg: Config, rng: Random) returns (children: seq<Asteroid>)
      requires Consistent()
      modifies this`hasSplit, rng
      ensures Consistent()
      ensures hasSplit == (old(hasSplit) || size > SMALLEST_SIZE)
      ensures SizesOf(children) == SplitSizes(old(hasSplit), size)
      ensures !old(hasSplit) && size > SMALLEST_SIZE ==>
                forall c :: c in children ==>
                  (Spawned(c, CenterX(), CenterY(), size / 2)
                   && 1 <= c.speed <= 3 && c.fragmentTimer == InitialTimer(size / 2))
      ensures old(hasSplit) ==>
                forall c :: c in children ==>
                  (Spawned(c, CenterX(), CenterY(), SMALLEST_SIZE)
                   && 2 <= c.speed <= 5 && c.fragmentTimer == Some(FRAGMENT_LIFETIME))
      ensures forall c :: c in children ==> fresh(c) && c.Consistent()
      ensures forall i, j :: 0 <= i < j < |children| ==> children[i] != children[j]
    {
      if !hasSplit && size > SMALLEST_SIZE {
        hasSplit := true;
        var newSize := size / 2;
        var first := new Asteroid(cfg, Some(CenterX()), Some(CenterY()), newSize, rng);
        var second := new Asteroid(cfg, Some(CenterX()), Some(CenterY()), newSize, rng);
        children := [first, second];
      } else if hasSplit {
        children := CreateExplosion(cfg, rng);
        assert forall i :: 0 <= i < |children| ==> children[i] in children;
        assert SizesOf(children) == seq(EXPLOSION_FRAGMENTS, _ => SMALLEST_SIZE);
      } else {
        children := [];
      }
    }

    /** `create_explosion`: ten smallest-size fragments at the centre, each with a
        fresh angle, a speed in [2, 5] and the full fragment lifetime. */
    method CreateExplosion(cfg: Config, rng: Random) returns (fragments: seq<Asteroid>)
      modifies rng
      ensures |fragments| == EXPLOSION_FRAGMENTS
      ensures forall c :: c in fragments ==>
                (fresh(c) && c.Consistent()
                 && Spawned(c, CenterX(), CenterY(), SMALLEST_SIZE)
                 && 2 <= c.speed <= 5 && c.fragmentTimer == Some(FRAGMENT_LIFETIME))
      ensures forall i, j :: 0 <= i < j < |fragments| ==> fragments[i] != fragments[j]
    {
      fragments := [];
      for i := 0 to EXPLOSION_FRAGMENTS
        invariant |fragments| == i
        invariant forall c :: c in fragments ==>
                    (fresh(c) && c.Consistent()
                     && Spawned(c, CenterX(), CenterY(), SMALLEST_SIZE)
                     && 2 <= c.speed <= 5 && c.fragmentTimer == Some(FRAGMENT_LIFETIME))
        invariant forall i, j :: 0 <= i < j < |fragments| ==> fragments[i] != fragments[j]
      {
        var fragment := new Asteroid(cfg, Some(CenterX()), Some(CenterY()), SMALLEST_SIZE, rng);
        var a := rng.RandInt(0, 360);
        fragment.angle := a;
        var s := rng.RandInt(2, 5);
        fragment.speed := s;
        fragment.fragmentTimer := Some(FRAGMENT_LIFETIME);
        fragments := fragments + [fragment];
      }
    }
  }
}
