/**
  Integer rectangles in the manner of `pygame.Rect`, and the numeric conversions the game
  relies on (`int(v)` on a Python number, `abs`, `min`, `max`).
*/
module Geometry {

  function Min(a: int, b: int): int { if a <= b then a else b }

  function Max(a: int, b: int): int { if a >= b then a else b }

  function Abs(a: int): int { if a < 0 then -a else a }

  function AbsReal(a: real): real { if a < 0.0 then -a else a }

  /** Python's `int(v)` on a number: truncation toward zero. */
  function Trunc(v: real): (n: int)
    ensures v >= 0.0 ==> n as real <= v < n as real + 1.0
    ensures v < 0.0 ==> n as real - 1.0 < v <= n as real
  {
    if v >= 0.0 then v.Floor else -((-v).Floor)
  }

  /** Truncation leaves whole numbers alone and is symmetric about zero. */
  lemma TruncProperties(k: int, v: real)
    ensures Trunc(k as real) == k
    ensures Trunc(-v) == -Trunc(v)
  {
  }

  /**
    A `pygame.Rect`: left edge `x`, top edge `y`, width `w`, height `h`. The centre uses
    integer halving of the size, and moving the centre moves the left/top edge.
  */
  datatype Rect = Rect(x: int, y: int, w: int, h: int) {

    function Right(): int { x + w }

    function Bottom(): int { y + h }

    function CenterX(): int { x + w / 2 }

    function CenterY(): int { y + h / 2 }

    /** Assigning `centerx`: only the left edge moves. */
    function WithCenterX(c: int): (r: Rect)
      ensures r.CenterX() == c
      ensures r.y == y && r.w == w && r.h == h
    {
      this.(x := c - w / 2)
    }

    /** Assigning `centery`: only the top edge moves. */
    function WithCenterY(c: int): (r: Rect)
      ensures r.CenterY() == c
      ensures r.x == x && r.w == w && r.h == h
    {
      this.(y := c - h / 2)
    }
  }

  /** `a.colliderect(b)`: both rectangles have positive size and their interiors overlap. */
  predicate Collide(a: Rect, b: Rect) {
    && a.w > 0 && a.h > 0 && b.w > 0 && b.h > 0
    && a.x < b.Right() && b.x < a.Right()
    && a.y < b.Bottom() && b.y < a.Bottom()
  }
}
