/** The player's ship: the discrete part of its controller (turning, the
    thrust flag, wrap-around) and firing. */
module Ships {
  import opened Screen
  import opened Bullets

  const TURN_STEP := 5   // degrees per frame a turn key is held
  const SHIP_SIZE := 40

  /** The movement keys held this frame. */
  datatype Keys = Keys(left: bool, right: bool, up: bool)

  /** The heading after one frame: Left turns by +5, Right by -5, both cancel. */
  function Turned(angle: int, keys: Keys): (r: int)
    ensures keys.left == keys.right ==> r == angle
    ensures keys.left && !keys.right ==> r == angle + TURN_STEP
    ensures !keys.left && keys.right ==> r == angle - TURN_STEP
  {
    var afterLeft := if keys.left then angle + TURN_STEP else angle;
    if keys.right then afterLeft - TURN_STEP else afterLeft
  }

  class Spaceship {
    var x: int
    var y: int
    var angle: int
    var moving: bool

    function Bounds(): Rect
      reads this
    {
      Rect(x, y, SHIP_SIZE, SHIP_SIZE)
    }

    /** `Spaceship()`: a 40 by 40 rect centred on the screen, heading 0, not thrusting. */
    constructor (cfg: Config)
      ensures CenterX(Bounds()) == cfg.width / 2 && CenterY(Bounds()) == cfg.height / 2
      ensures angle == 0 && !moving
    {
      var r := CenteredRect(cfg.width / 2, cfg.height / 2, SHIP_SIZE, SHIP_SIZE);
      x, y := r.x, r.y;
      angle := 0;
      moving := false;
    }

    /** `update(keys_pressed)`: turn, set the thrust flag from Up alone, move to
        `moved` (the corner after adding the velocity, whose floating-point
        update is not modelled) and wrap it into the screen. */
    method Update(cfg: Config, keys: Keys, moved: Pos)
      requires cfg.Valid()
      modifies this
      ensures angle == Turned(old(angle), keys)
      ensures moving == keys.up
      ensures x == Wrap(moved.x, cfg.width) && y == Wrap(moved.y, cfg.height)
      ensures 0 <= x < cfg.width && 0 <= y < cfg.height
    {
      moving := false;
      if keys.left {
        angle := angle + TURN_STEP;
      }
      if keys.right {
        angle := angle - TURN_STEP;
      }
      if keys.up {
        moving := true;
      }
      x := Wrap(moved.x, cfg.width);
      y := Wrap(moved.y, cfg.height);
    }

    /** `fire_bullet`: two bullets, centred on the two muzzle points beside the
        ship (their trigonometric placement is an input), both travelling along
        the ship's current heading. */
    method FireBullet(muzzle1: Pos, muzzle2: Pos) returns (shots: seq<Bullet>)
      ensures |shots| == 2 && shots[0] != shots[1]
      ensures forall b :: b in shots ==> fresh(b) && b.angle == angle && b.speed == BULLET_SPEED
      ensures CenterX(shots[0].Bounds()) == muzzle1.x && CenterY(shots[0].Bounds()) == muzzle1.y
      ensures CenterX(shots[1].Bounds()) == muzzle2.x && CenterY(shots[1].Bounds()) == muzzle2.y
    {
      var first := new Bullet(muzzle1.x, muzzle1.y, angle);
      var second := new Bullet(muzzle2.x, muzzle2.y, angle);
      shots := [first, second];
    }
  }
}
