/** Integer rectangles with the semantics of pygame's Rect: a top-left corner and
    a width and height, a centre computed with floor division, and `colliderect`
    as strict overlap on both axes. */
module Geometry {

  /** A positive pixel extent. Every image the game loads has one. */
  type Extent = n: int | n > 0 witness 1

  /** Width and height of a sprite image. The actual image files are not part of
      this model, so sizes are parameters. */
  datatype Size = Size(w: Extent, h: Extent)

  datatype Rect = Rect(x: int, y: int, w: int, h: int) {

    function Left(): int { x }
    function Right(): int { x + w }
    function Top(): int { y }
    function Bottom(): int { y + h }
    function CenterX(): int { x + w / 2 }
    function CenterY(): int { y + h / 2 }

    /** `colliderect`: the two boxes overlap in a region of positive area. */
    predicate Collides(other: Rect) {
      && x < other.x + other.w
      && other.x < x + w
      && y < other.y + other.h
      && other.y < y + h
    }

    /** `collidepoint`: half-open on the right and bottom edges. */
    predicate ContainsPoint(px: int, py: int) {
      x <= px < x + w && y <= py < y + h
    }

    /** `rect.x += dx` */
    function MovedX(dx: int): (r: Rect)
      ensures r.x == x + dx && r.y == y && r.w == w && r.h == h
    {
      this.(x := x + dx)
    }

    /** `rect.y += dy` */
    function MovedY(dy: int): (r: Rect)
      ensures r.x == x && r.y == y + dy && r.w == w && r.h == h
    {
      this.(y := y + dy)
    }
  }

  /** A rectangle of the given size whose centre is (cx, cy): pygame's
      `rect.center = [cx, cy]` after `image.get_rect()`. */
  function Centered(cx: int, cy: int, s: Size): (r: Rect)
    ensures r.CenterX() == cx && r.CenterY() == cy
    ensures r.w == s.w && r.h == s.h
  {
    Rect(cx - s.w / 2, cy - s.h / 2, s.w, s.h)
  }
}
