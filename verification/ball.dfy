/** The ball: exact-real position and velocity, an integer collision box, a launched flag. */
module Balls {
  import opened Geometry
  import opened Maybe
  import Paddles

  /**
    A ball. `x`, `y`, `xSpeed`, `ySpeed` are Python numbers (exact reals here); `rect` is
    the `2*radius` square used for collisions, re-centred on `(int(x), int(y))` whenever the
    position is committed; `started` says whether the ball has been launched.
  */
  datatype Ball = Ball(
    x: real,
    y: real,
    radius: int,
    xSpeed: real,
    ySpeed: real,
    screenWidth: int,
    screenHeight: int,
    followDistance: int,
    started: bool,
    rect: Rect)
  {
    /** The collision box is the `2*radius` square. */
    predicate Shaped() {
      rect.w == 2 * radius && rect.h == 2 * radius
    }

    /** The collision box is centred on the truncated position. */
    predicate Synced() {
      Shaped() && rect.CenterX() == Trunc(x) && rect.CenterY() == Trunc(y)
    }
  }

  /** A ball at rest (not launched) at integer position `(x, y)`. */
  function NewBall(
    x: int, y: int, radius: int, xSpeed: real, ySpeed: real,
    screenWidth: int, screenHeight: int, followDistance: int): (b: Ball)
    ensures !b.started && b.Synced()
    ensures b.x == x as real && b.y == y as real && b.radius == radius
    ensures b.xSpeed == xSpeed && b.ySpeed == ySpeed
    ensures b.screenWidth == screenWidth && b.screenHeight == screenHeight
    ensures b.followDistance == followDistance
  {
    TruncProperties(x, 0.0);
    TruncProperties(y, 0.0);
    Ball(x as real, y as real, radius, xSpeed, ySpeed, screenWidth, screenHeight,
         followDistance, false, Rect(x - radius, y - radius, radius * 2, radius * 2))
  }

  /** `_update_rect`: re-centre the collision box on `(int(x), int(y))`. */
  function SyncRect(b: Ball): (r: Ball)
    ensures r == b.(rect := r.rect)
    ensures r.rect.w == b.rect.w && r.rect.h == b.rect.h
    ensures r.rect.CenterX() == Trunc(b.x) && r.rect.CenterY() == Trunc(b.y)
    ensures b.Shaped() ==> r.Synced()
  {
    b.(rect := b.rect.WithCenterX(Trunc(b.x)).WithCenterY(Trunc(b.y)))
  }

  /** `move`: a launched ball advances by its velocity; a resting ball stays put. */
  function Move(b: Ball): (r: Ball)
    ensures !b.started ==> r == b
    ensures b.started ==> r.x == b.x + b.xSpeed && r.y == b.y + b.ySpeed
    ensures b.started && b.Shaped() ==> r.Synced()
    ensures r == b.(x := r.x, y := r.y, rect := r.rect)
    ensures r.rect.w == b.rect.w && r.rect.h == b.rect.h
  {
    if b.started then SyncRect(b.(x := b.x + b.xSpeed, y := b.y + b.ySpeed)) else b
  }

  /** The ball touches the left or the right wall. */
  predicate TouchesSide(b: Ball) {
    b.x - b.radius as real <= 0.0 || b.x + b.radius as real >= b.screenWidth as real
  }

  /** The ball touches the top wall. */
  predicate TouchesTop(b: Ball) {
    b.y - b.radius as real <= 0.0
  }

  /**
    `check_wall_collision`: a side wall flips the horizontal speed and pushes the ball back
    inside; the top wall flips the vertical speed and pushes it down; the bottom never
    reflects.
  */
  function CheckWallCollision(b: Ball): (r: Ball)
    ensures TouchesSide(b) ==> r.xSpeed == -b.xSpeed
    ensures !TouchesSide(b) ==> r.xSpeed == b.xSpeed && r.x == b.x
    ensures b.x - b.radius as real <= 0.0 ==> r.x == b.radius as real
    ensures b.x - b.radius as real > 0.0 && TouchesSide(b) ==> r.x == (b.screenWidth - b.radius) as real
    ensures TouchesTop(b) ==> r.ySpeed == -b.ySpeed && r.y == b.radius as real
    ensures !TouchesTop(b) ==> r.ySpeed == b.ySpeed && r.y == b.y
    // afterwards the ball is below the ceiling and, when it fits, between the side walls
    ensures r.y >= r.radius as real
    ensures 2 * b.radius <= b.screenWidth ==>
              b.radius as real <= r.x <= (b.screenWidth - b.radius) as real
    ensures r == b.(x := r.x, y := r.y, xSpeed := r.xSpeed, ySpeed := r.ySpeed, rect := r.rect)
    ensures !TouchesSide(b) && !TouchesTop(b) ==> r == b
    ensures (TouchesSide(b) || TouchesTop(b)) && b.Shaped() ==> r.Synced()
    ensures b.Shaped() ==> r.Shaped()
  {
    var b1 :=
      if TouchesSide(b) then
        var nx := if b.x - b.radius as real <= 0.0 then b.radius as real
                  else (b.screenWidth - b.radius) as real;
        SyncRect(b.(xSpeed := -b.xSpeed, x := nx))
      else b;
    if TouchesTop(b1) then SyncRect(b1.(ySpeed := -b1.ySpeed, y := b1.radius as real)) else b1
  }

  /**
    `check_paddle_collision`: a descending ball whose box overlaps the paddle bounces up
    with the same vertical speed, is steered by the hit factor and is put on top of the
    paddle. Returns the new ball and whether the bounce happened.
  */
  function CheckPaddleCollision(b: Ball, p: Paddles.Paddle): (r: (Ball, bool))
    requires p.Valid()
    ensures r.1 <==> Collide(b.rect, p.rect) && b.ySpeed > 0.0
    ensures !r.1 ==> r.0 == b
    ensures r.1 ==> p.width > 0
    ensures r.1 ==> r.0.xSpeed == Paddles.HitFactor(p, b.x) * b.ySpeed
    ensures r.1 ==> r.0.ySpeed == -b.ySpeed && r.0.ySpeed < 0.0
    ensures r.1 ==> r.0.y == (p.rect.y - b.radius) as real && r.0.x == b.x
    ensures r.1 && b.Shaped() ==> r.0.Synced()
    ensures r.0 == b.(y := r.0.y, xSpeed := r.0.xSpeed, ySpeed := r.0.ySpeed, rect := r.0.rect)
    ensures b.Shaped() ==> r.0.Shaped()
  {
    if Collide(b.rect, p.rect) && b.ySpeed > 0.0 then
      var hitFactor := Paddles.HitFactor(p, b.x);
      var bounced := b.(xSpeed := hitFactor * AbsReal(b.ySpeed), ySpeed := -AbsReal(b.ySpeed),
                        y := (p.rect.y - b.radius) as real);
      (SyncRect(bounced), true)
    else
      (b, false)
  }

  /** Right after a paddle bounce the ball is rising, so a second check does nothing. */
  lemma PaddleBounceOnce(b: Ball, p: Paddles.Paddle)
    requires p.Valid()
    requires CheckPaddleCollision(b, p).1
    ensures CheckPaddleCollision(CheckPaddleCollision(b, p).0, p) == (CheckPaddleCollision(b, p).0, false)
  {
  }

  /** `bounce_horizontal`: flip the horizontal speed only. */
  function BounceHorizontal(b: Ball): (r: Ball)
    ensures r.xSpeed == -b.xSpeed && r == b.(xSpeed := r.xSpeed)
  {
    b.(xSpeed := -b.xSpeed)
  }

  /** `bounce_vertical`: flip the vertical speed only. */
  function BounceVertical(b: Ball): (r: Ball)
    ensures r.ySpeed == -b.ySpeed && r == b.(ySpeed := r.ySpeed)
  {
    b.(ySpeed := -b.ySpeed)
  }

  /** Each bounce undoes itself. */
  lemma BouncesAreInvolutions(b: Ball)
    ensures BounceHorizontal(BounceHorizontal(b)) == b
    ensures BounceVertical(BounceVertical(b)) == b
  {
  }

  /**
    `is_out_of_bounds`: the ball has entirely left through the bottom edge. For a ball whose
    box follows it, that box then starts at or below the bottom edge, and a box starting
    strictly below it always means the ball is out.
  */
  predicate IsOutOfBounds(b: Ball): (out: bool)
    ensures b.Synced() ==> (out ==> b.rect.y >= b.screenHeight)
    ensures b.Synced() ==> (b.rect.y > b.screenHeight ==> out)
  {
    b.y - b.radius as real > b.screenHeight as real
  }

  /** The resting spot above the paddle: centred, `followDistance` above its top. */
  function RestX(p: Paddles.Paddle): real { p.rect.CenterX() as real }

  function RestY(b: Ball, p: Paddles.Paddle): real {
    (p.rect.y - b.radius - b.followDistance) as real
  }

  /** `follow_paddle`: a resting ball sits above the paddle's centre; a launched one is untouched. */
  function FollowPaddle(b: Ball, p: Paddles.Paddle): (r: Ball)
    ensures b.started ==> r == b
    ensures !b.started ==> r.x == RestX(p) && r.y == RestY(b, p) && r.rect.CenterX() == p.rect.CenterX()
    ensures !b.started && b.Shaped() ==> r.Synced()
    ensures r == b.(x := r.x, y := r.y, rect := r.rect)
    ensures b.Shaped() ==> r.Shaped()
  {
    if !b.started then
      TruncProperties(p.rect.CenterX(), 0.0);
      SyncRect(b.(x := RestX(p), y := RestY(b, p)))
    else
      b
  }

  /** Following twice is following once. */
  lemma FollowPaddleIdempotent(b: Ball, p: Paddles.Paddle)
    ensures FollowPaddle(FollowPaddle(b, p), p) == FollowPaddle(b, p)
  {
    if !b.started {
      var r := FollowPaddle(b, p);
      TruncProperties(p.rect.CenterX(), 0.0);
      TruncProperties(p.rect.y - b.radius - b.followDistance, 0.0);
      assert r.rect.WithCenterX(Trunc(r.x)).WithCenterY(Trunc(r.y)) == r.rect;
    }
  }

  /** `start`: launch the ball. */
  function Start(b: Ball): (r: Ball)
    ensures r.started && r == b.(started := true)
  {
    b.(started := true)
  }

  /**
    `reset(x, y, paddle)`: stop the ball and place it above the paddle when only a paddle is
    given; otherwise at the given coordinates, defaulting to `(screenWidth // 2, screenHeight - 60)`.
  */
  function Reset(b: Ball, x: Option<real>, y: Option<real>, paddle: Option<Paddles.Paddle>): (r: Ball)
    ensures !r.started
    ensures paddle.Some? && x.None? && y.None? ==>
              r.x == RestX(paddle.value) && r.y == RestY(b, paddle.value)
    ensures !(paddle.Some? && x.None? && y.None?) ==>
              r.x == x.GetOr((b.screenWidth / 2) as real) && r.y == y.GetOr((b.screenHeight - 60) as real)
    ensures r == b.(x := r.x, y := r.y, started := false, rect := r.rect)
    ensures b.Shaped() ==> r.Synced()
  {
    var placed :=
      if paddle.Some? && x.None? && y.None? then
        b.(x := RestX(paddle.value), y := RestY(b, paddle.value))
      else
        b.(x := x.GetOr((b.screenWidth / 2) as real), y := y.GetOr((b.screenHeight - 60) as real));
    SyncRect(placed.(started := false))
  }

  /** Resetting onto a paddle lands exactly where following that paddle would put a resting ball. */
  lemma ResetMatchesFollow(b: Ball, p: Paddles.Paddle)
    ensures Reset(b, None, None, Some(p)) == FollowPaddle(b.(started := false), p)
  {
  }

  /** A ball resting above a paddle that is on screen is never out of bounds. */
  lemma RestingBallInBounds(b: Ball, p: Paddles.Paddle)
    requires !b.started && b.radius >= 0 && b.followDistance >= 0 && p.rect.y <= b.screenHeight
    ensures !IsOutOfBounds(FollowPaddle(b, p))
    ensures !IsOutOfBounds(Reset(b, None, None, Some(p)))
  {
  }
}
