/** Screen geometry shared by every sprite: the display size, pygame's integer
    `Rect`, and the two edge rules (wrap-around and the bullet's closed box). */
module Screen {

  /** `WIDTH, HEIGHT`, read from the display at start-up. */
  datatype Config = Config(width: int, height: int) {
    predicate Valid() { width > 0 && height > 0 }
  }

  /** The top-left corner of a sprite's rect. */
  datatype Pos = Pos(x: int, y: int)

  /** A pygame `Rect`: integer top-left corner and size. */
  datatype Rect = Rect(x: int, y: int, w: int, h: int)

  /** `surface.get_rect(center=(cx, cy))` for a `w` by `h` surface. */
  function CenteredRect(cx: int, cy: int, w: nat, h: nat): (r: Rect)
    ensures r.w == w && r.h == h
    ensures CenterX(r) == cx && CenterY(r) == cy
  {
    Rect(cx - w / 2, cy - h / 2, w, h)
  }

  function CenterX(r: Rect): int { r.x + r.w / 2 }

  function CenterY(r: Rect): int { r.y + r.h / 2 }

  /** The per-tick displacement `rect.x += speed * cos(angle); rect.y -= speed * sin(angle)`,
      with its floating-point trigonometry left abstract: the position reached from a
      corner, a speed and an angle in degrees, before any wrap or culling. */
  type Advance = (Pos, int, int) -> Pos

  /** The uninterpreted overlap test used by `spritecollideany`. */
  type Collide = (Rect, Rect) -> bool

  /** Python's `v %= bound` for a positive bound: the representative of `v`
      modulo `bound` that lies in [0, bound). */
  function Wrap(v: int, bound: int): (r: int)
    requires bound > 0
    ensures 0 <= r < bound
    ensures 0 <= v < bound ==> r == v
  {
    v % bound
  }

  /** `Wrap` is Python's floored modulo: the one `r` in [0, bound) with
      `v == q * bound + r` for some whole `q`, whatever the sign of `v`. */
  lemma WrapUnique(v: int, bound: int, q: int, r: int)
    requires bound > 0 && 0 <= r < bound && v == q * bound + r
    ensures Wrap(v, bound) == r
  {
    var q' := v / bound;
    assert v == q' * bound + Wrap(v, bound);
    assert (q - q') * bound == q * bound - q' * bound;
    MultipleGap(q - q', bound);
  }

  /** A non-zero multiple of `b` is at least `b` away from zero. */
  lemma MultipleGap(d: int, b: int)
    requires b > 0
    ensures d == 0 || d * b >= b || d * b <= -b
  {
    if d >= 1 {
      assert d * b == (d - 1) * b + b;
      assert (d - 1) * b >= 0;
    } else if d <= -1 {
      assert d * b == (d + 1) * b - b;
      assert (d + 1) * b <= 0;
    }
  }

  /** The closed box [0, width] x [0, height] outside which a bullet is removed. */
  predicate InClosedBox(cfg: Config, p: Pos) {
    0 <= p.x <= cfg.width && 0 <= p.y <= cfg.height
  }
}
