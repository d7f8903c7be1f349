/** The bullet sprite: straight-line flight and removal outside the screen. */
module Bullets {
  import opened Screen

  const BULLET_SPEED := 10
  const BULLET_WIDTH := 4
  const BULLET_HEIGHT := 10

  class Bullet {
    var x: int
    var y: int
    const speed: int
    const angle: int

    function Bounds(): Rect
      reads this`x, this`y
    {
      Rect(x, y, BULLET_WIDTH, BULLET_HEIGHT)
    }

    /** `Bullet(x, y, angle)`: a 4 by 10 rect centred on the spawn point, at speed 10. */
    constructor (cx: int, cy: int, angle: int)
      ensures CenterX(Bounds()) == cx && CenterY(Bounds()) == cy
      ensures speed == BULLET_SPEED && this.angle == angle
    {
      var r := CenteredRect(cx, cy, BULLET_WIDTH, BULLET_HEIGHT);
      x, y := r.x, r.y;
      speed := BULLET_SPEED;
      this.angle := angle;
    }

    /** `update`: move along the fixed heading, then `kill()` once the corner
        has left the closed box [0, WIDTH] x [0, HEIGHT]; bullets never wrap. */
    method Update(cfg: Config, advance: Advance) returns (killed: bool)
      modifies this`x, this`y
      ensures Pos(x, y) == advance(Pos(old(x), old(y)), speed, angle)
      ensures killed <==> !InClosedBox(cfg, Pos(x, y))
    {
      var moved := advance(Pos(x, y), speed, angle);
      x, y := moved.x, moved.y;
      killed := !(0 <= x <= cfg.width) || !(0 <= y <= cfg.height);
    }
  }
}
