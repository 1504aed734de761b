/**
  The older single-file game (`main.py`): the same wall, paddle and ball shapes, but no
  special bricks, no shrinking, no state enumeration, fixed ten points per brick and a
  different order of the per-tick steps. Its ball keeps its collision box where it was
  after a wall or paddle bounce, and its brick test reads the exact ball position.
*/
module LegacyGame {
  import opened Geometry
  import opened Maybe
  import Paddles
  import Balls
  import Bricks
  import Arith

  /** The legacy ball rests this far above the paddle. */
  const FollowDistance := 5

  /** Points per destroyed brick. */
  const PointsPerBrick := 10

  /** The global objects of the legacy script. */
  datatype Game = Game(wall: Bricks.Wall, paddle: Paddles.Paddle, ball: Balls.Ball, score: int)

  /** The legacy wall: the centred grid with every brick intact and none special. */
  function NewWall(l: Bricks.Layout): (w: Bricks.Wall)
    ensures w.layout == l && |w.bricks| == l.rows * l.cols
    ensures Bricks.Remaining(w.bricks) == |w.bricks|
    ensures forall i :: 0 <= i < |w.bricks| ==> !w.bricks[i].isSpecial && !w.bricks[i].isHit
    ensures w.bricks == Bricks.Grid(l)
  {
    Bricks.Wall(l, Bricks.Grid(l))
  }

  /** A legacy paddle: the same centred rectangle; it never shrinks (step 0, floor = its width). */
  function NewPaddle(brickWidth: int, widthMultiplier: real, height: int, yOffset: int,
                     screenWidth: int, screenHeight: int): (p: Paddles.Paddle)
    ensures p.Valid()
    ensures p.width == Paddles.InitialWidth(brickWidth, widthMultiplier)
    ensures p.rect.y == screenHeight - yOffset
    ensures Paddles.Shrink(p) == p
    // centred: the space left of the paddle and the space right of it differ by at most one
    ensures 0 <= (screenWidth - p.rect.Right()) - p.rect.x <= 1
    ensures p == Paddles.NewPaddle(brickWidth, widthMultiplier, height, yOffset, screenWidth, screenHeight, 0, p.width)
  {
    var width := Paddles.InitialWidth(brickWidth, widthMultiplier);
    Paddles.NewPaddle(brickWidth, widthMultiplier, height, yOffset, screenWidth, screenHeight, 0, width)
  }

  /** The layout the script builds its wall with. */
  const ScriptLayout := Bricks.Layout(10, 5, 60, 20, 6, 50, 800)

  /** The script's objects as it creates them before the loop. */
  function Initial(): (g: Game)
    ensures g.score == 0 && !g.ball.started && g.ball.Synced()
    ensures g.wall == NewWall(ScriptLayout)
    ensures g.paddle.width == Paddles.InitialWidth(60, 2.5)
    ensures Valid(g)
  {
    var g := Game(
      NewWall(ScriptLayout),
      NewPaddle(60, 2.5, 14, 40, 800, 600),
      Balls.NewBall(800 / 2, 600 - 60, 8, 7.0, -7.0, 800, 600, FollowDistance),
      0);
    assert Bricks.Destroyed(g.wall.bricks) == 0;
    g
  }

  /** The script starts with 50 intact bricks. */
  lemma InitialWall()
    ensures |Initial().wall.bricks| == 50 && Bricks.Remaining(Initial().wall.bricks) == 50
  {
  }

  /** The script's paddle is 150 pixels wide, centred, with its top 40 pixels above the bottom. */
  lemma InitialPaddle()
    ensures Initial().paddle.width == 150 && Initial().paddle.rect == Rect(325, 560, 150, 14)
  {
    TruncProperties(150, 0.0);
    assert 60.0 * 2.5 == 150 as real;
  }

  /** The script's ball starts at rest at (400, 540). */
  lemma InitialBall()
    ensures Initial().ball.x == 400.0 && Initial().ball.y == 540.0
  {
    assert 800 / 2 == 400 && 600 - 60 == 540;
    var b := Balls.NewBall(800 / 2, 600 - 60, 8, 7.0, -7.0, 800, 600, FollowDistance);
    assert b.x == 400.0 && b.y == 540.0;
  }

  /**
    The legacy invariant: ten points per destroyed brick, a well-formed paddle and ball box,
    and the legacy constants in the paddle and ball.
  */
  predicate Valid(g: Game) {
    && g.score == PointsPerBrick * Bricks.Destroyed(g.wall.bricks)
    && g.paddle.Valid()
    && g.ball.Shaped()
    && g.ball.followDistance == FollowDistance
  }

  /**
    Legacy `check_wall_collision`: the same reflection and clamping as the engine's ball,
    but the collision box is not moved.
  */
  function WallCollision(b: Balls.Ball): (r: Balls.Ball)
    ensures Balls.TouchesSide(b) ==> r.xSpeed == -b.xSpeed
    ensures !Balls.TouchesSide(b) ==> r.xSpeed == b.xSpeed && r.x == b.x
    ensures Balls.TouchesTop(b) ==> r.ySpeed == -b.ySpeed && r.y == b.radius as real
    ensures !Balls.TouchesTop(b) ==> r.ySpeed == b.ySpeed && r.y == b.y
    ensures r.y >= r.radius as real
    ensures 2 * b.radius <= b.screenWidth ==> b.radius as real <= r.x <= (b.screenWidth - b.radius) as real
    ensures r.rect == b.rect
  {
    var b1 :=
      if b.x - b.radius as real <= 0.0 || b.x + b.radius as real >= b.screenWidth as real then
        b.(xSpeed := -b.xSpeed,
           x := if b.x - b.radius as real <= 0.0 then b.radius as real else (b.screenWidth - b.radius) as real)
      else b;
    if b1.y - b1.radius as real <= 0.0 then b1.(ySpeed := -b1.ySpeed, y := b1.radius as real) else b1
  }

  /** Apart from the collision box, the legacy wall bounce is the engine's. */
  lemma WallCollisionMatchesEngine(b: Balls.Ball)
    ensures WallCollision(b) == Balls.CheckWallCollision(b).(rect := b.rect)
  {
  }

  /**
    Legacy `check_paddle_collision`: the same bounce as the engine's ball, without moving the
    collision box and without reporting whether it happened.
  */
  function PaddleCollision(b: Balls.Ball, p: Paddles.Paddle): (r: Balls.Ball)
    requires p.Valid()
    ensures Collide(b.rect, p.rect) && b.ySpeed > 0.0 ==>
              && r.xSpeed == Paddles.HitFactor(p, b.x) * b.ySpeed
              && r.ySpeed == -b.ySpeed && r.y == (p.rect.y - b.radius) as real
    ensures !(Collide(b.rect, p.rect) && b.ySpeed > 0.0) ==> r == b
    ensures r.rect == b.rect && r.x == b.x
  {
    if Collide(b.rect, p.rect) && b.ySpeed > 0.0 then
      var hitPos := (b.x - p.rect.CenterX() as real) / (p.width as real / 2.0);
      b.(xSpeed := hitPos * AbsReal(b.ySpeed), ySpeed := -AbsReal(b.ySpeed), y := (p.rect.y - b.radius) as real)
    else
      b
  }

  /** Apart from the collision box, the legacy paddle bounce is the engine's. */
  lemma PaddleCollisionMatchesEngine(b: Balls.Ball, p: Paddles.Paddle)
    requires p.Valid()
    ensures PaddleCollision(b, p) == Balls.CheckPaddleCollision(b, p).0.(rect := b.rect)
  {
  }

  /** The outcome of the legacy brick test: the ball, the bricks and whether a brick was hit. */
  datatype BrickHit = BrickHit(ball: Balls.Ball, bricks: seq<Bricks.Brick>, hit: bool)

  /**
    Legacy `check_brick_collision`: the first intact brick the box overlaps is marked hit,
    and the ball flips the speed component `BounceDirection` picks.
  */
  function BrickCollision(b: Balls.Ball, bricks: seq<Bricks.Brick>): (r: BrickHit)
    ensures r.hit <==> exists j :: 0 <= j < |bricks| && Bricks.Hittable(bricks[j], b.rect)
    ensures !r.hit ==> r.ball == b && r.bricks == bricks
    ensures r.hit ==> exists i :: Bricks.IsFirstHittable(bricks, b.rect, i) &&
                        r.bricks == bricks[i := bricks[i].(isHit := true)]
    ensures r.hit ==> Bricks.Remaining(r.bricks) == Bricks.Remaining(bricks) - 1
    ensures r.hit ==> r.ball == Balls.BounceHorizontal(b) || r.ball == Balls.BounceVertical(b)
    ensures |r.bricks| == |bricks|
  {
    match Bricks.FirstHittable(bricks, b.rect)
    case None => BrickHit(b, bricks, false)
    case Some(i) =>
      var brick := bricks[i];
      Bricks.RemainingMarkOne(bricks, i);
      var ball := if BounceDirection(b, brick.rect) == Bricks.Horizontal
                  then Balls.BounceHorizontal(b) else Balls.BounceVertical(b);
      BrickHit(ball, bricks[i := brick.(isHit := true)], true)
  }

  /**
    The legacy bounce direction: the exact ball position's offset from the brick centre,
    in half widths against half heights; horizontal exactly when the sideways offset,
    scaled by the brick's height, exceeds the vertical one scaled by its width.
  */
  function BounceDirection(b: Balls.Ball, brick: Rect): (d: Bricks.Direction)
    requires brick.w > 0 && brick.h > 0
    ensures d == Bricks.Horizontal <==>
              AbsReal(b.x - brick.CenterX() as real) * (brick.h as real)
              > AbsReal(b.y - brick.CenterY() as real) * (brick.w as real)
  {
    var dx := AbsReal(b.x - brick.CenterX() as real);
    var dy := AbsReal(b.y - brick.CenterY() as real);
    Bricks.MostlyHorizontalCross(dx, dy, brick.w, brick.h);
    if Bricks.MostlyHorizontal(dx, dy, brick.w, brick.h) then Bricks.Horizontal else Bricks.Vertical
  }

  /** The legacy brick test hits exactly the first hittable brick and bounces the way `BounceDirection` says. */
  lemma BrickBounceDirection(b: Balls.Ball, bricks: seq<Bricks.Brick>, i: int)
    requires Bricks.IsFirstHittable(bricks, b.rect, i)
    ensures var r := BrickCollision(b, bricks);
      && r.hit
      && r.bricks == bricks[i := bricks[i].(isHit := true)]
      && r.ball == (if BounceDirection(b, bricks[i].rect) == Bricks.Horizontal
                    then Balls.BounceHorizontal(b) else Balls.BounceVertical(b))
  {
    Bricks.FirstHittableUnique(bricks, b.rect, i, Bricks.FirstHittable(bricks, b.rect).value);
  }

  /** One legacy input event. */
  datatype Event =
    | Click     // mouse button
    | Space     // the space bar
    | Quit      // the window's close button
    | Other

  /** A launch event starts a resting ball; otherwise nothing changes. */
  function HandleEvent(b: Balls.Ball, ev: Event): (r: Balls.Ball)
    ensures (ev.Click? || ev.Space?) ==> r.started
    ensures (ev.Click? || ev.Space?) && !b.started ==> r == Balls.Start(b)
    ensures !((ev.Click? || ev.Space?) && !b.started) ==> r == b
  {
    if (ev.Click? || ev.Space?) && !b.started then Balls.Start(b) else b
  }

  /** The event loop: `None` when a quit ends the script (before the update runs). */
  function HandleEvents(b: Balls.Ball, events: seq<Event>): (r: Option<Balls.Ball>)
    ensures r.None? <==> exists i :: 0 <= i < |events| && events[i].Quit?
    ensures r.Some? ==> r.value == b.(started := r.value.started)
    ensures r.Some? && b.started ==> r.value == b
    ensures r.Some? && !b.started ==>
              (r.value.started <==> exists i :: 0 <= i < |events| && (events[i].Click? || events[i].Space?))
    decreases |events|
  {
    if |events| == 0 then Some(b)
    else if events[0].Quit? then None
    else
      var rest := HandleEvents(HandleEvent(b, events[0]), events[1..]);
      assert forall i :: 1 <= i < |events| ==> events[i] == events[1..][i - 1];
      assert forall i :: 0 <= i < |events[1..]| ==> events[1..][i] == events[i + 1];
      rest
  }

  /**
    The ball's part of the legacy tick, up to the brick test: a resting ball follows the
    paddle; the ball moves; a lost ball is put back above the paddle (before any collision
    test); then the wall and paddle bounces.
  */
  function BallPhase(b: Balls.Ball, paddle: Paddles.Paddle): (r: Balls.Ball)
    requires paddle.Valid()
    ensures b.Shaped() ==> r.Shaped()
    ensures r.radius == b.radius && r.followDistance == b.followDistance
    ensures Balls.IsOutOfBounds(Balls.Move(Balls.FollowPaddle(b, paddle))) ==> !r.started
    // a lost ball is put back above the paddle first; either way the wall and then the
    // paddle bounce follow
    ensures var m := Balls.Move(Balls.FollowPaddle(b, paddle));
      r == PaddleCollision(WallCollision(if Balls.IsOutOfBounds(m) then ResetAbove(m, paddle) else m), paddle)
  {
    var moved := Balls.Move(Balls.FollowPaddle(b, paddle));
    var placed := if Balls.IsOutOfBounds(moved) then ResetAbove(moved, paddle) else moved;
    PaddleCollision(WallCollision(placed), paddle)
  }

  /**
    The legacy per-tick update: paddle to the pointer, the ball's phase, then the brick test;
    ten points for a brick.
  */
  function Update(g: Game, pointerX: int): (r: Game)
    requires g.paddle.Valid()
    ensures r.wall.layout == g.wall.layout && |r.wall.bricks| == |g.wall.bricks|
    ensures r.paddle == Paddles.Update(g.paddle, pointerX)
    ensures r.score == g.score || r.score == g.score + PointsPerBrick
    ensures r.score == g.score + PointsPerBrick <==> Bricks.Remaining(r.wall.bricks) == Bricks.Remaining(g.wall.bricks) - 1
    ensures r.score == g.score <==> r.wall == g.wall
    ensures forall j :: 0 <= j < |g.wall.bricks| ==> (g.wall.bricks[j].isHit ==> r.wall.bricks[j].isHit)
    // the ball goes through its phase against the moved paddle, then the brick test
    ensures var hit := BrickCollision(BallPhase(g.ball, r.paddle), g.wall.bricks);
      && r.ball == hit.ball && r.wall.bricks == hit.bricks
      && (r.score == g.score + PointsPerBrick <==> hit.hit)
  {
    var paddle := Paddles.Update(g.paddle, pointerX);
    var hit := BrickCollision(BallPhase(g.ball, paddle), g.wall.bricks);
    Game(g.wall.(bricks := hit.bricks), paddle, hit.ball,
         if hit.hit then g.score + PointsPerBrick else g.score)
  }

  /** `reset(paddle.rect.centerx, paddle.rect.top - radius - 5)`. */
  function ResetAbove(b: Balls.Ball, p: Paddles.Paddle): (r: Balls.Ball)
    ensures !r.started
    ensures b.followDistance == FollowDistance ==> r.x == Balls.RestX(p) && r.y == Balls.RestY(b, p)
    ensures r == b.(x := r.x, y := r.y, started := false, rect := r.rect)
    ensures b.Shaped() ==> r.Synced()
  {
    Balls.Reset(b, Some(p.rect.CenterX() as real), Some((p.rect.y - b.radius - FollowDistance) as real), None)
  }

  /** A legacy reset above the paddle is the engine's reset onto that paddle. */
  lemma ResetAboveMatchesEngine(b: Balls.Ball, p: Paddles.Paddle)
    requires b.followDistance == FollowDistance
    ensures ResetAbove(b, p) == Balls.Reset(b, None, None, Some(p))
  {
  }

  /**
    A ball that leaves the bottom is put back to rest above the paddle before the collision
    tests, so it ends the tick not launched.
  */
  lemma LostBallRestsBeforeCollisions(g: Game, pointerX: int)
    requires g.paddle.Valid()
    requires Balls.IsOutOfBounds(Balls.Move(Balls.FollowPaddle(g.ball, Paddles.Update(g.paddle, pointerX))))
    ensures !Update(g, pointerX).ball.started
  {
    var paddle := Paddles.Update(g.paddle, pointerX);
    var ball := BallPhase(g.ball, paddle);
    assert !ball.started;
    var hit := BrickCollision(ball, g.wall.bricks);
    assert hit.ball.started == ball.started;
  }

  /** The legacy tick keeps the invariant: the score stays ten points per destroyed brick. */
  lemma UpdateKeepsValid(g: Game, pointerX: int)
    requires Valid(g)
    ensures Valid(Update(g, pointerX))
  {
    var paddle := Paddles.Update(g.paddle, pointerX);
    var ball := BallPhase(g.ball, paddle);
    var hit := BrickCollision(ball, g.wall.bricks);
    var r := Update(g, pointerX);
    assert r == Game(g.wall.(bricks := hit.bricks), paddle, hit.ball,
                     if hit.hit then g.score + PointsPerBrick else g.score);
    assert hit.ball.Shaped();
    var before := Bricks.Destroyed(g.wall.bricks);
    if hit.hit {
      assert Bricks.Destroyed(hit.bricks) == before + 1;
    } else {
      assert hit.bricks == g.wall.bricks;
    }
  }

  /** One pass of the legacy loop; `None` when the script exits. */
  function Tick(g: Game, events: seq<Event>, pointerX: int): (r: Option<Game>)
    requires Valid(g)
    ensures r.None? <==> exists i :: 0 <= i < |events| && events[i].Quit?
    ensures r.Some? ==> Valid(r.value)
    // without a quit, the update runs on the ball the events left
    ensures r.Some? ==> r.value == Update(g.(ball := HandleEvents(g.ball, events).value), pointerX)
  {
    match HandleEvents(g.ball, events)
    case None => None
    case Some(ball) =>
      UpdateKeepsValid(g.(ball := ball), pointerX);
      Some(Update(g.(ball := ball), pointerX))
  }
}
