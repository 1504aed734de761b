/** The player's paddle: follows the pointer, shrinks on every destroyed brick, steers the ball. */
module Paddles {
  import opened Geometry
  import Arith

  /**
    A paddle. `width` is the logical width (it drives the hit factor and the clamp);
    `rect` is the drawn and collided rectangle; `y` is the fixed top edge.
  */
  datatype Paddle = Paddle(
    width: int,
    height: int,
    y: int,
    screenWidth: int,
    screenHeight: int,
    shrinkAmount: int,
    minWidth: int,
    rect: Rect)
  {
    /** The rectangle always has the logical width and height and sits on the fixed row. */
    predicate Valid() {
      rect.w == width && rect.h == height && rect.y == y
    }
  }

  /** `int(brick_width * width_multiplier)`. */
  function InitialWidth(brickWidth: int, widthMultiplier: real): (w: int)
    ensures brickWidth as real * widthMultiplier >= 0.0 ==>
              w as real <= brickWidth as real * widthMultiplier < w as real + 1.0
  {
    Trunc(brickWidth as real * widthMultiplier)
  }

  /** A new paddle, horizontally centred, with its top `yOffset` above the screen bottom. */
  function NewPaddle(
    brickWidth: int, widthMultiplier: real, height: int, yOffset: int,
    screenWidth: int, screenHeight: int, shrinkAmount: int, minWidth: int): (p: Paddle)
    ensures p.Valid()
    ensures p.width == InitialWidth(brickWidth, widthMultiplier)
    ensures p.rect.y == screenHeight - yOffset
    ensures p.height == height && p.screenWidth == screenWidth && p.screenHeight == screenHeight
    ensures p.shrinkAmount == shrinkAmount && p.minWidth == minWidth
    // centred: the space left of the paddle and the space right of it differ by at most one
    ensures 0 <= (screenWidth - p.rect.Right()) - p.rect.x <= 1
  {
    var width := InitialWidth(brickWidth, widthMultiplier);
    var y := screenHeight - yOffset;
    Paddle(width, height, y, screenWidth, screenHeight, shrinkAmount, minWidth,
           Rect((screenWidth - width) / 2, y, width, height))
  }

  /** `update`: centre the paddle on the pointer, then clamp its left edge into the screen. */
  function Update(p: Paddle, pointerX: int): (r: Paddle)
    ensures r == p.(rect := p.rect.(x := r.rect.x))
    ensures 0 <= r.rect.x
    ensures p.width <= p.screenWidth ==> r.rect.x <= p.screenWidth - p.width
    ensures 0 <= pointerX - p.width / 2 <= p.screenWidth - p.width ==>
              r.rect.x == pointerX - p.width / 2
    ensures pointerX - p.width / 2 < 0 ==> r.rect.x == 0
    ensures pointerX - p.width / 2 > p.screenWidth - p.width ==>
              r.rect.x == Max(0, p.screenWidth - p.width)
  {
    var newX := Max(0, Min(pointerX - p.width / 2, p.screenWidth - p.width));
    p.(rect := p.rect.(x := newX))
  }

  /** When the clamp does not bite, the paddle's centre is exactly the pointer. */
  lemma UpdateCentresOnPointer(p: Paddle, pointerX: int)
    requires p.Valid()
    requires 0 <= pointerX - p.width / 2 <= p.screenWidth - p.width
    ensures Update(p, pointerX).rect.CenterX() == pointerX
  {
  }

  /** The paddle's position depends on the latest pointer only, not on where it was. */
  lemma UpdateForgetsPosition(p: Paddle, a: int, b: int)
    ensures Update(Update(p, a), b) == Update(p, b)
  {
  }

  /**
    `shrink`: the width drops by `shrinkAmount` but not below `minWidth`; when it changes,
    the rectangle is resized around its old centre and clamped back into the screen.
  */
  function Shrink(p: Paddle): (r: Paddle)
    ensures r.width == Max(p.minWidth, p.width - p.shrinkAmount)
    ensures r.width >= p.minWidth
    ensures r.width == p.width ==> r == p
    ensures r == p.(width := r.width, rect := r.rect)
    ensures r.rect.y == p.rect.y && r.rect.h == p.rect.h
    ensures r.width != p.width ==> r.rect.w == r.width
    ensures r.width != p.width ==>
              0 <= r.rect.x && (r.width <= p.screenWidth ==> r.rect.x <= p.screenWidth - r.width)
    ensures r.width != p.width && 0 <= p.rect.CenterX() - r.width / 2 <= p.screenWidth - r.width ==>
              r.rect.CenterX() == p.rect.CenterX()
    ensures p.Valid() ==> r.Valid()
  {
    var oldCenterX := p.rect.CenterX();
    var newWidth := Max(p.minWidth, p.width - p.shrinkAmount);
    if newWidth != p.width then
      var resized := p.rect.(w := newWidth).WithCenterX(oldCenterX);
      p.(width := newWidth,
         rect := resized.(x := Max(0, Min(resized.x, p.screenWidth - newWidth))))
    else
      p
  }

  /** Once at the floor (with a non-negative step), shrinking is a no-op. */
  lemma ShrinkAtFloor(p: Paddle)
    requires p.width == p.minWidth && p.shrinkAmount >= 0
    ensures Shrink(p) == p
  {
  }

  /** `n` consecutive shrinks, as one brick-collision event with `n` destroyed bricks applies. */
  function ShrinkTimes(p: Paddle, n: nat): (r: Paddle)
    ensures r == p.(width := r.width, rect := r.rect)
    ensures r.rect.y == p.rect.y && r.rect.h == p.rect.h
    ensures p.Valid() ==> r.Valid()
    ensures n > 0 ==> r.width >= p.minWidth
  {
    if n == 0 then p else Shrink(ShrinkTimes(p, n - 1))
  }

  /** After `n` shrinks from a width at or above the floor, the width is `max(minWidth, w0 - n*step)`. */
  lemma {:induction false} ShrinkTimesWidth(p: Paddle, n: nat)
    requires p.width >= p.minWidth && p.shrinkAmount >= 0
    ensures ShrinkTimes(p, n).width == Max(p.minWidth, p.width - n * p.shrinkAmount)
  {
    if n > 0 {
      ShrinkTimesWidth(p, n - 1);
      assert n * p.shrinkAmount == (n - 1) * p.shrinkAmount + p.shrinkAmount;
    }
  }

  /** Two batches of shrinks add up: the closed form in the total number of destroyed bricks. */
  lemma ShrinkTimesTwice(p: Paddle, w0: int, d: nat, n: nat)
    requires p.shrinkAmount >= 0 && w0 >= p.minWidth
    requires p.width == Max(p.minWidth, w0 - d * p.shrinkAmount)
    ensures ShrinkTimes(p, n).width == Max(p.minWidth, w0 - (d + n) * p.shrinkAmount)
  {
    var s := p.shrinkAmount;
    var before, during := d * s, n * s;
    assert before >= 0 && during >= 0;
    Arith.MulAddRight(s, d, n);
    assert (d + n) * s == before + during;
    ShrinkTimesWidth(p, n);
  }

  /**
    `get_hit_factor`: where the ball's x lies relative to the paddle centre, in units of
    half the paddle width (true division).
  */
  function HitFactor(p: Paddle, ballX: real): (f: real)
    requires p.width != 0
    ensures f * (p.width as real) == 2.0 * (ballX - p.rect.CenterX() as real)
  {
    (ballX - p.rect.CenterX() as real) / (p.width as real / 2.0)
  }

  /** A hit at the paddle centre goes straight back; moving the hit point by `d` adds `2d/width`. */
  lemma HitFactorLinear(p: Paddle, ballX: real, d: real)
    requires p.width != 0
    ensures HitFactor(p, p.rect.CenterX() as real) == 0.0
    ensures HitFactor(p, ballX + d) == HitFactor(p, ballX) + 2.0 * d / (p.width as real)
  {
  }

  /** The factor's sign is the side of the centre the ball is on. */
  lemma HitFactorSign(p: Paddle, ballX: real)
    requires p.width > 0
    ensures HitFactor(p, ballX) > 0.0 <==> ballX > p.rect.CenterX() as real
    ensures HitFactor(p, ballX) < 0.0 <==> ballX < p.rect.CenterX() as real
  {
    var f := HitFactor(p, ballX);
    var c := p.rect.CenterX() as real;
    assert f * (p.width as real) == 2.0 * (ballX - c);
    if f > 0.0 { assert f * (p.width as real) > 0.0; }
    if f < 0.0 { assert f * (p.width as real) < 0.0; }
    if ballX > c { assert f * (p.width as real) > 0.0; }
    if ballX < c { assert f * (p.width as real) < 0.0; }
  }

  /** The factor lies in [-1, 1] exactly when the ball is within half a width of the centre. */
  lemma HitFactorUnitRange(p: Paddle, ballX: real)
    requires p.width > 0
    ensures -1.0 <= HitFactor(p, ballX) <= 1.0 <==>
              AbsReal(ballX - p.rect.CenterX() as real) <= p.width as real / 2.0
  {
    var f, w := HitFactor(p, ballX), p.width as real;
    var off := ballX - p.rect.CenterX() as real;
    ScaledUnitRange(f, w, 2.0 * off);
  }

  /** `f` is within [-1, 1] iff `f * w` is within [-w, w], for positive `w`. */
  lemma ScaledUnitRange(f: real, w: real, v: real)
    requires w > 0.0 && f * w == v
    ensures f <= 1.0 <==> v <= w
    ensures -1.0 <= f <==> -w <= v
  {
    assert w - v == (1.0 - f) * w;
    assert v + w == (f + 1.0) * w;
    if f > 1.0 { assert (f - 1.0) * w > 0.0; }
    if f < -1.0 { assert (-1.0 - f) * w > 0.0; }
    if f <= 1.0 { assert (1.0 - f) * w >= 0.0; }
    if f >= -1.0 { assert (f + 1.0) * w >= 0.0; }
  }

  /** Cancelling a non-zero factor. */
  lemma CancelFactor(f: real, w: real, k: real)
    requires w != 0.0 && f * w == k * w
    ensures f == k
  {
    assert (f - k) * w == 0.0;
  }

  /** For an even width, the left edge gives exactly -1 and the right edge exactly +1. */
  lemma HitFactorEdges(p: Paddle)
    requires p.Valid() && p.width > 0 && p.width % 2 == 0
    ensures HitFactor(p, p.rect.x as real) == -1.0
    ensures HitFactor(p, p.rect.Right() as real) == 1.0
  {
    var half := p.width / 2;
    assert p.width == 2 * half;
    assert p.rect.CenterX() == p.rect.x + half;
    var w := p.width as real;
    assert w == 2.0 * (half as real);
    var c := p.rect.CenterX() as real;
    assert c == p.rect.x as real + half as real;
    var left, right := HitFactor(p, p.rect.x as real), HitFactor(p, p.rect.Right() as real);
    assert left * w == 2.0 * (p.rect.x as real - c);
    assert p.rect.x as real - c == -(half as real);
    assert 2.0 * (p.rect.x as real - c) == -1.0 * w;
    assert p.rect.Right() as real - c == half as real;
    CancelFactor(left, w, -1.0);
    assert right * w == 2.0 * (p.rect.Right() as real - c);
    assert 2.0 * (p.rect.Right() as real - c) == 1.0 * w;
    CancelFactor(right, w, 1.0);
  }
}
