/**
  The engine: one record owning the wall, paddle, ball and state manager, the event
  handling (launch and restart), and the per-tick update that composes everything.
*/
module GameEngine {
  import opened Geometry
  import opened Maybe
  import opened GameStates
  import Paddles
  import Balls
  import Bricks
  import Arith

  /** The game's settings (screen, wall, paddle, ball and scoring). */
  datatype Config = Config(
    windowWidth: int,
    windowHeight: int,
    brickCols: nat,
    brickRows: nat,
    brickWidth: int,
    brickHeight: int,
    brickPadding: int,
    brickTopMargin: int,
    specialBrickCount: nat,
    paddleWidthMultiplier: real,
    paddleHeight: int,
    paddleYOffset: int,
    paddleShrinkAmount: int,
    paddleMinWidth: int,
    ballRadius: int,
    ballSpeedX: real,
    ballSpeedY: real,
    ballFollowDistance: int,
    scorePerBrick: int)
  {
    function Layout(): Bricks.Layout {
      Bricks.Layout(brickCols, brickRows, brickWidth, brickHeight, brickPadding, brickTopMargin, windowWidth)
    }

    function InitialPaddleWidth(): int {
      Paddles.InitialWidth(brickWidth, paddleWidthMultiplier)
    }

    /** The points for `bricks` destroyed bricks. */
    function Points(bricks: int): int {
      scorePerBrick * bricks
    }

    /** The paddle width once `destroyed` bricks have each shrunk it, from the initial width. */
    function PaddleWidthAfter(destroyed: int): int {
      Max(paddleMinWidth, InitialPaddleWidth() - destroyed * paddleShrinkAmount)
    }

    /** The paddle starts at or above its floor and shrinks by a non-negative step. */
    predicate ShrinkSane() {
      InitialPaddleWidth() >= paddleMinWidth && paddleShrinkAmount >= 0
    }
  }

  /** The shipped settings. */
  const Settings := Config(800, 600, 10, 5, 60, 20, 6, 50, 7, 2.5, 14, 40, 5, 40, 8, 7.0, -7.0, 5, 10)

  /** The engine's state. */
  datatype Engine = Engine(
    config: Config,
    manager: Manager,
    wall: Bricks.Wall,
    paddle: Paddles.Paddle,
    ball: Balls.Ball)

  /** A sample of special-brick indices as the random source may draw it for `cfg`. */
  predicate ValidSample(cfg: Config, chosen: set<int>) {
    Bricks.ValidSample(cfg.Layout().Count(), cfg.specialBrickCount, chosen)
  }

  /**
    `init_game_objects`: a fresh wall, paddle and ball built from the settings; the score
    goes back to zero and the state to waiting. The level is kept.
  */
  function InitGameObjects(cfg: Config, m: Manager, chosen: set<int>): (e: Engine)
    requires ValidSample(cfg, chosen)
    ensures e.config == cfg
    ensures e.wall == Bricks.NewWall(cfg.Layout(), cfg.specialBrickCount, chosen)
    ensures Bricks.Remaining(e.wall.bricks) == |e.wall.bricks| == cfg.brickRows * cfg.brickCols
    ensures e.paddle.Valid() && e.paddle.width == cfg.InitialPaddleWidth()
    ensures !e.ball.started && e.ball.Synced()
    ensures e.manager == Manager(WaitingToStart, 0, m.level)
    // the paddle is the centred one the settings describe
    ensures e.paddle == Paddles.NewPaddle(
              cfg.brickWidth, cfg.paddleWidthMultiplier, cfg.paddleHeight, cfg.paddleYOffset,
              cfg.windowWidth, cfg.windowHeight, cfg.paddleShrinkAmount, cfg.paddleMinWidth)
    // the ball rests mid-screen, 60 pixels above the bottom edge, with the configured size and speeds
    ensures e.ball.x == (cfg.windowWidth / 2) as real && e.ball.y == (cfg.windowHeight - 60) as real
    ensures e.ball.radius == cfg.ballRadius && e.ball.followDistance == cfg.ballFollowDistance
    ensures e.ball.xSpeed == cfg.ballSpeedX && e.ball.ySpeed == cfg.ballSpeedY
    ensures e.ball.screenWidth == cfg.windowWidth && e.ball.screenHeight == cfg.windowHeight
  {
    var wall := Bricks.NewWall(cfg.Layout(), cfg.specialBrickCount, chosen);
    var paddle := Paddles.NewPaddle(
      cfg.brickWidth, cfg.paddleWidthMultiplier, cfg.paddleHeight, cfg.paddleYOffset,
      cfg.windowWidth, cfg.windowHeight, cfg.paddleShrinkAmount, cfg.paddleMinWidth);
    var ball := Balls.NewBall(
      cfg.windowWidth / 2, cfg.windowHeight - 60, cfg.ballRadius, cfg.ballSpeedX, cfg.ballSpeedY,
      cfg.windowWidth, cfg.windowHeight, cfg.ballFollowDistance);
    Engine(cfg, SetState(ResetScore(m), WaitingToStart), wall, paddle, ball)
  }

  /** The engine as the constructor leaves it: a fresh manager, then `init_game_objects`. */
  function NewEngine(cfg: Config, chosen: set<int>): (e: Engine)
    requires ValidSample(cfg, chosen)
    ensures Valid(e)
    ensures e.manager == NewManager()
    ensures e == InitGameObjects(cfg, NewManager(), chosen)
  {
    InitKeepsValid(cfg, NewManager(), chosen);
    InitGameObjects(cfg, NewManager(), chosen)
  }

  /**
    What the engine keeps true between calls: the paddle rectangle matches its width and
    the settings; the ball is launched exactly while playing; a won game has no brick left;
    the score is the points for the bricks destroyed; and (for sane settings) the paddle
    width is the initial width shrunk once per destroyed brick.
  */
  predicate Valid(e: Engine) {
    && e.paddle.Valid()
    && e.paddle.minWidth == e.config.paddleMinWidth
    && e.paddle.shrinkAmount == e.config.paddleShrinkAmount
    && e.ball.Shaped()
    && (e.ball.started <==> e.manager.state == Playing)
    && e.manager.state in {Playing, WaitingToStart, Win}
    && (e.manager.state == Win ==> Bricks.Remaining(e.wall.bricks) == 0)
    && e.manager.score == e.config.Points(Bricks.Destroyed(e.wall.bricks))
    && (e.config.ShrinkSane() ==> e.paddle.width == e.config.PaddleWidthAfter(Bricks.Destroyed(e.wall.bricks)))
  }

  /** One input event of a tick. */
  datatype Event =
    | Launch                       // mouse click or space bar
    | Restart(chosen: set<int>)    // the E key, with the sample the new wall would draw
    | Quit                         // the window's close button
    | Other

  predicate EventSamplesValid(cfg: Config, events: seq<Event>) {
    forall i :: 0 <= i < |events| && events[i].Restart? ==> ValidSample(cfg, events[i].chosen)
  }

  /** The reaction to one event (a quit is handled by the event loop). */
  function HandleEvent(e: Engine, ev: Event): (r: Engine)
    requires ev.Restart? ==> ValidSample(e.config, ev.chosen)
    ensures ev.Launch? && IsWaiting(e.manager) ==>
              r == e.(ball := Balls.Start(e.ball), manager := SetState(e.manager, Playing))
    ensures ev.Launch? && !IsWaiting(e.manager) ==> r == e
    ensures ev.Restart? && IsWin(e.manager) ==> r == InitGameObjects(e.config, e.manager, ev.chosen)
    ensures ev.Restart? && !IsWin(e.manager) ==> r == e
    ensures ev.Quit? || ev.Other? ==> r == e
  {
    match ev
    case Launch =>
      if IsWaiting(e.manager) then
        e.(ball := Balls.Start(e.ball), manager := SetState(e.manager, Playing))
      else e
    case Restart(chosen) =>
      if IsWin(e.manager) then InitGameObjects(e.config, e.manager, chosen) else e
    case Quit => e
    case Other => e
  }

  /** A launch or restart keeps the engine's invariant; a restart makes a fresh, intact match. */
  lemma HandleEventKeepsValid(e: Engine, ev: Event)
    requires Valid(e)
    requires ev.Restart? ==> ValidSample(e.config, ev.chosen)
    ensures Valid(HandleEvent(e, ev))
    ensures ev.Restart? && IsWin(e.manager) ==>
              && Bricks.Remaining(HandleEvent(e, ev).wall.bricks) == |HandleEvent(e, ev).wall.bricks|
              && HandleEvent(e, ev).manager.score == 0
              && IsWaiting(HandleEvent(e, ev).manager)
  {
    var r := HandleEvent(e, ev);
    if ev.Restart? && IsWin(e.manager) {
      InitKeepsValid(e.config, e.manager, ev.chosen);
    } else if ev.Launch? && IsWaiting(e.manager) {
      assert r.wall == e.wall && r.paddle == e.paddle && r.config == e.config;
      assert r.manager.score == e.manager.score && r.manager.state == Playing;
      assert r.ball.started && r.ball.rect == e.ball.rect && r.ball.radius == e.ball.radius;
    } else {
      assert r == e;
    }
  }

  /** A freshly initialised match satisfies the invariant, whatever manager it started from. */
  lemma InitKeepsValid(cfg: Config, m: Manager, chosen: set<int>)
    requires ValidSample(cfg, chosen)
    ensures Valid(InitGameObjects(cfg, m, chosen))
  {
    var e := InitGameObjects(cfg, m, chosen);
    assert Bricks.Destroyed(e.wall.bricks) == 0;
    assert e.manager.score == 0 == cfg.Points(0);
    assert cfg.ShrinkSane() ==> cfg.PaddleWidthAfter(0) == cfg.InitialPaddleWidth();
  }

  /**
    `handle_events`: react to the events in order; a quit stops at once and reports that the
    loop should end.
  */
  function HandleEvents(e: Engine, events: seq<Event>): (r: (Engine, bool))
    requires EventSamplesValid(e.config, events)
    ensures r.0.config == e.config
    ensures e.paddle.Valid() ==> r.0.paddle.Valid()
    ensures r.1 <==> forall i :: 0 <= i < |events| ==> !events[i].Quit?
    decreases |events|
  {
    if |events| == 0 then (e, true)
    else if events[0].Quit? then (e, false)
    else
      var next := HandleEvent(e, events[0]);
      EventSamplesTail(e.config, events);
      var rest := HandleEvents(next, events[1..]);
      assert forall i :: 1 <= i < |events| ==> events[i] == events[1..][i - 1];
      rest
  }

  /** The samples of the events after the first are still valid. */
  lemma EventSamplesTail(cfg: Config, events: seq<Event>)
    requires |events| > 0 && EventSamplesValid(cfg, events)
    ensures EventSamplesValid(cfg, events[1..])
  {
    forall i | 0 <= i < |events[1..]| && events[1..][i].Restart?
      ensures ValidSample(cfg, events[1..][i].chosen)
    {
      assert events[1..][i] == events[i + 1];
    }
  }

  /** The samples of a concatenated batch are valid exactly when those of both parts are. */
  lemma EventSamplesSplit(cfg: Config, a: seq<Event>, b: seq<Event>)
    ensures EventSamplesValid(cfg, a + b) <==> EventSamplesValid(cfg, a) && EventSamplesValid(cfg, b)
  {
    if EventSamplesValid(cfg, a + b) {
      forall i | 0 <= i < |a| && a[i].Restart?
        ensures ValidSample(cfg, a[i].chosen)
      {
        assert (a + b)[i] == a[i];
      }
      forall i | 0 <= i < |b| && b[i].Restart?
        ensures ValidSample(cfg, b[i].chosen)
      {
        assert (a + b)[i + |a|] == b[i];
      }
    }
    if EventSamplesValid(cfg, a) && EventSamplesValid(cfg, b) {
      forall i | 0 <= i < |a + b| && (a + b)[i].Restart?
        ensures ValidSample(cfg, (a + b)[i].chosen)
      {
        if i >= |a| {
          assert (a + b)[i] == b[i - |a|];
        }
      }
    }
  }

  /** A batch of one event that is not a quit is that event's reaction, and the loop goes on. */
  lemma HandleEventsSingle(e: Engine, ev: Event)
    requires !ev.Quit? && (ev.Restart? ==> ValidSample(e.config, ev.chosen))
    ensures EventSamplesValid(e.config, [ev])
    ensures HandleEvents(e, [ev]) == (HandleEvent(e, ev), true)
  {
    assert [ev][1..] == [];
  }

  /** Without a quit in its first part, a batch is handled as its first part, then the rest. */
  lemma {:induction false} HandleEventsAppend(e: Engine, a: seq<Event>, b: seq<Event>)
    requires EventSamplesValid(e.config, a + b)
    requires forall i :: 0 <= i < |a| ==> !a[i].Quit?
    ensures EventSamplesValid(e.config, a) && EventSamplesValid(e.config, b)
    ensures HandleEvents(e, a + b) == HandleEvents(HandleEvents(e, a).0, b)
    decreases |a|
  {
    EventSamplesSplit(e.config, a, b);
    if |a| == 0 {
      assert a + b == b;
    } else {
      assert (a + b)[0] == a[0];
      assert (a + b)[1..] == a[1..] + b;
      EventSamplesTail(e.config, a + b);
      EventSamplesTail(e.config, a);
      HandleEventsAppend(HandleEvent(e, a[0]), a[1..], b);
    }
  }

  /** Events after a quit are never handled: the batch ends where the first part ends. */
  lemma {:induction false} HandleEventsStopsAtQuit(e: Engine, a: seq<Event>, b: seq<Event>)
    requires EventSamplesValid(e.config, a + [Quit] + b)
    ensures EventSamplesValid(e.config, a)
    ensures HandleEvents(e, a + [Quit] + b) == (HandleEvents(e, a).0, false)
    decreases |a|
  {
    EventSamplesSplit(e.config, a + [Quit], b);
    EventSamplesSplit(e.config, a, [Quit]);
    if |a| == 0 {
      assert a + [Quit] + b == [Quit] + b;
    } else {
      assert (a + [Quit] + b)[0] == a[0];
      if !a[0].Quit? {
        assert (a + [Quit] + b)[1..] == a[1..] + [Quit] + b;
        EventSamplesTail(e.config, a + [Quit] + b);
        EventSamplesTail(e.config, a);
        HandleEventsStopsAtQuit(HandleEvent(e, a[0]), a[1..], b);
      }
    }
  }

  /** A whole batch of events keeps the engine's invariant. */
  lemma {:induction false} HandleEventsKeepsValid(e: Engine, events: seq<Event>)
    requires Valid(e) && EventSamplesValid(e.config, events)
    ensures Valid(HandleEvents(e, events).0)
    decreases |events|
  {
    if |events| > 0 && !events[0].Quit? {
      HandleEventKeepsValid(e, events[0]);
      EventSamplesTail(e.config, events);
      HandleEventsKeepsValid(HandleEvent(e, events[0]), events[1..]);
    }
  }

  /**
    `_check_collisions`: walls, then the paddle, then the bricks (see `BrickCollisions`);
    also returns the number of bricks destroyed.
  */
  function CheckCollisions(e: Engine): (r: (Engine, nat))
    requires e.paddle.Valid()
    ensures r.0.config == e.config && r.0.manager.state == e.manager.state
    ensures r.0.manager.level == e.manager.level
    ensures r.0.ball.started == e.ball.started
    ensures e.ball.Shaped() ==> r.0.ball.Shaped()
    ensures r.0.wall.layout == e.wall.layout && |r.0.wall.bricks| == |e.wall.bricks|
    ensures forall j :: 0 <= j < |e.wall.bricks| ==> (e.wall.bricks[j].isHit ==> r.0.wall.bricks[j].isHit)
    ensures r.1 == Bricks.Remaining(e.wall.bricks) - Bricks.Remaining(r.0.wall.bricks)
    ensures r.0.manager.score == e.manager.score + e.config.Points(r.1)
    ensures r.0.paddle == Paddles.ShrinkTimes(e.paddle, r.1)
    // the order: the wall bounce, then the paddle bounce, then the brick test on the result
    ensures r == BrickCollisions(e.(ball := Balls.CheckPaddleCollision(Balls.CheckWallCollision(e.ball), e.paddle).0))
  {
    var ball1 := Balls.CheckWallCollision(e.ball);
    var (ball2, _) := Balls.CheckPaddleCollision(ball1, e.paddle);
    BrickCollisions(e.(ball := ball2))
  }

  /**
    The brick part of `_check_collisions`, returning the engine and the hit count: a hit
    scores `scorePerBrick` per destroyed brick, shrinks the paddle once per destroyed brick
    and bounces the ball along the reported direction; without a hit nothing changes.
  */
  function BrickCollisions(e: Engine): (r: (Engine, nat))
    ensures r.0.config == e.config && r.0.manager.state == e.manager.state
    ensures r.0.manager.level == e.manager.level
    ensures r.0.ball == e.ball.(xSpeed := r.0.ball.xSpeed, ySpeed := r.0.ball.ySpeed)
    ensures r.0.wall.layout == e.wall.layout && |r.0.wall.bricks| == |e.wall.bricks|
    ensures forall j :: 0 <= j < |e.wall.bricks| ==> (e.wall.bricks[j].isHit ==> r.0.wall.bricks[j].isHit)
    ensures r.1 == Bricks.Remaining(e.wall.bricks) - Bricks.Remaining(r.0.wall.bricks)
    ensures r.1 == 0 ==> r.0 == e
    // the wall and the count are the brick wall's own collision outcome for the ball's box
    ensures var c := Bricks.CheckCollision(e.wall, e.ball.rect); r.0.wall == c.wall && r.1 == c.hitCount
    ensures r.0.manager.score == e.manager.score + e.config.Points(r.1)
    ensures r.0.paddle == Paddles.ShrinkTimes(e.paddle, r.1)
    // a horizontal hit negates only the horizontal speed; any other hit only the vertical one
    ensures r.1 > 0 && Bricks.CheckCollision(e.wall, e.ball.rect).direction == Some(Bricks.Horizontal) ==>
              r.0.ball.xSpeed == -e.ball.xSpeed && r.0.ball.ySpeed == e.ball.ySpeed
    ensures r.1 > 0 && Bricks.CheckCollision(e.wall, e.ball.rect).direction != Some(Bricks.Horizontal) ==>
              r.0.ball.ySpeed == -e.ball.ySpeed && r.0.ball.xSpeed == e.ball.xSpeed
  {
    var c := Bricks.CheckCollision(e.wall, e.ball.rect);
    if c.isHit then
      var ball := if c.direction == Some(Bricks.Horizontal) then Balls.BounceHorizontal(e.ball)
                  else Balls.BounceVertical(e.ball);
      (e.(ball := ball, wall := c.wall,
          manager := AddScore(e.manager, e.config.Points(c.hitCount)),
          paddle := Paddles.ShrinkTimes(e.paddle, c.hitCount)),
       c.hitCount)
    else
      (e, 0)
  }

  /** `_check_win_condition`: with no brick left the game is won and the ball stops. */
  function CheckWinCondition(e: Engine): (r: Engine)
    ensures Bricks.Remaining(e.wall.bricks) == 0 ==>
              r == e.(manager := SetState(e.manager, Win), ball := e.ball.(started := false))
    ensures Bricks.Remaining(e.wall.bricks) != 0 ==> r == e
  {
    if Bricks.Remaining(e.wall.bricks) == 0 then
      e.(manager := SetState(e.manager, Win), ball := e.ball.(started := false))
    else e
  }

  /** `_check_ball_out_of_bounds`: a lost ball goes back above the paddle and the game waits. */
  function CheckBallOutOfBounds(e: Engine): (r: Engine)
    ensures Balls.IsOutOfBounds(e.ball) ==>
              && r == e.(ball := r.ball, manager := SetState(e.manager, WaitingToStart))
              && r.ball == Balls.Reset(e.ball, None, None, Some(e.paddle))
              && !r.ball.started
              && r.ball.x == Balls.RestX(e.paddle) && r.ball.y == Balls.RestY(e.ball, e.paddle)
    ensures !Balls.IsOutOfBounds(e.ball) ==> r == e
  {
    if Balls.IsOutOfBounds(e.ball) then
      e.(ball := Balls.Reset(e.ball, None, None, Some(e.paddle)),
         manager := SetState(e.manager, WaitingToStart))
    else e
  }

  /**
    `update`: move the paddle to the pointer; a waiting ball follows it; a playing ball
    moves and collides, then the win check and the out-of-bounds check run, in that order.
  */
  function Update(e: Engine, pointerX: int): (r: Engine)
    requires e.paddle.Valid()
    ensures r.config == e.config
    ensures r.paddle.Valid()
  {
    var e1 := e.(paddle := Paddles.Update(e.paddle, pointerX));
    if IsWaiting(e1.manager) then
      e1.(ball := Balls.FollowPaddle(e1.ball, e1.paddle))
    else if IsPlaying(e1.manager) then
      CheckBallOutOfBounds(CheckWinCondition(CheckCollisions(e1.(ball := Balls.Move(e1.ball))).0))
    else
      e1
  }

  /** Outside of play, only the paddle and (while waiting) the resting ball move. */
  lemma UpdateOutsidePlay(e: Engine, pointerX: int)
    requires e.paddle.Valid() && !IsPlaying(e.manager)
    ensures var r := Update(e, pointerX);
      && r.manager == e.manager && r.wall == e.wall
      && r.paddle == Paddles.Update(e.paddle, pointerX)
      && (IsWin(e.manager) ==> r.ball == e.ball)
      && (IsWaiting(e.manager) ==> r.ball == Balls.FollowPaddle(e.ball, r.paddle))
  {
  }

  /** A playing tick never restores a brick: the wall keeps its length and every hit stays hit. */
  lemma UpdatePlayingKeepsHits(e: Engine, pointerX: int)
    requires e.paddle.Valid() && IsPlaying(e.manager)
    ensures var r := Update(e, pointerX);
      && |r.wall.bricks| == |e.wall.bricks|
      && (forall j :: 0 <= j < |e.wall.bricks| ==> (e.wall.bricks[j].isHit ==> r.wall.bricks[j].isHit))
      && Bricks.Remaining(r.wall.bricks) <= Bricks.Remaining(e.wall.bricks)
  {
    var moved := e.(paddle := Paddles.Update(e.paddle, pointerX), ball := Balls.Move(e.ball));
    PlayingTickKeepsCollisions(e, pointerX);
    var (collided, destroyed) := CheckCollisions(moved);
    CollisionOutcome(e, moved, collided, destroyed, Update(e, pointerX));
  }

  /**
    A playing tick scores exactly `scorePerBrick` per brick it destroyed and shrinks the
    paddle once per destroyed brick.
  */
  lemma UpdatePlayingScore(e: Engine, pointerX: int) returns (destroyed: nat)
    requires e.paddle.Valid() && IsPlaying(e.manager)
    ensures destroyed == Bricks.Remaining(e.wall.bricks) - Bricks.Remaining(Update(e, pointerX).wall.bricks)
    ensures Update(e, pointerX).manager.score == e.manager.score + e.config.Points(destroyed)
    ensures Update(e, pointerX).paddle.width == Paddles.ShrinkTimes(e.paddle, destroyed).width
  {
    var moved := e.(paddle := Paddles.Update(e.paddle, pointerX), ball := Balls.Move(e.ball));
    PlayingTickKeepsCollisions(e, pointerX);
    var collided;
    collided, destroyed := CheckCollisions(moved).0, CheckCollisions(moved).1;
    CollisionOutcome(e, moved, collided, destroyed, Update(e, pointerX));
  }

  /**
    Whatever engine carries on the wall, paddle and score of a collision step taken from
    `moved` (which differs from `e` only in its paddle position and ball) scores and
    shrinks for exactly the bricks that step destroyed.
  */
  lemma CollisionOutcome(e: Engine, moved: Engine, collided: Engine, destroyed: nat, r: Engine)
    requires moved.paddle.Valid()
    requires moved.config == e.config && moved.wall == e.wall && moved.manager == e.manager
    requires moved.paddle.width == e.paddle.width && moved.paddle.minWidth == e.paddle.minWidth
    requires moved.paddle.shrinkAmount == e.paddle.shrinkAmount
    requires (collided, destroyed) == CheckCollisions(moved)
    requires r.wall == collided.wall && r.paddle == collided.paddle && r.manager.score == collided.manager.score
    ensures |r.wall.bricks| == |e.wall.bricks|
    ensures forall j :: 0 <= j < |e.wall.bricks| ==> (e.wall.bricks[j].isHit ==> r.wall.bricks[j].isHit)
    ensures destroyed == Bricks.Remaining(e.wall.bricks) - Bricks.Remaining(r.wall.bricks)
    ensures r.manager.score == e.manager.score + e.config.Points(destroyed)
    ensures r.paddle.width == Paddles.ShrinkTimes(e.paddle, destroyed).width
  {
    ShrinkTimesWidthOnly(e.paddle, moved.paddle, destroyed);
  }

  /** A playing tick keeps the wall, the paddle and the score its collision step produced. */
  lemma PlayingTickKeepsCollisions(e: Engine, pointerX: int)
    requires e.paddle.Valid() && IsPlaying(e.manager)
    ensures var moved := e.(paddle := Paddles.Update(e.paddle, pointerX), ball := Balls.Move(e.ball));
      var collided := CheckCollisions(moved).0;
      var r := Update(e, pointerX);
      r.wall == collided.wall && r.paddle == collided.paddle && r.manager.score == collided.manager.score
  {
    var e1 := e.(paddle := Paddles.Update(e.paddle, pointerX));
    assert e1.(ball := Balls.Move(e1.ball)) == e.(paddle := Paddles.Update(e.paddle, pointerX), ball := Balls.Move(e.ball));
  }

  /**
    A playing tick whose ball, after its move and the wall and paddle bounces, overlaps an
    intact brick destroys at least one brick and scores for every brick destroyed.
  */
  lemma UpdatePlayingBreaksBrick(e: Engine, pointerX: int) returns (destroyed: nat)
    requires e.paddle.Valid() && IsPlaying(e.manager)
    requires var bounced := Balls.CheckPaddleCollision(
               Balls.CheckWallCollision(Balls.Move(e.ball)), Paddles.Update(e.paddle, pointerX)).0;
      exists j :: 0 <= j < |e.wall.bricks| && Bricks.Hittable(e.wall.bricks[j], bounced.rect)
    ensures destroyed >= 1
    ensures Bricks.Remaining(Update(e, pointerX).wall.bricks) == Bricks.Remaining(e.wall.bricks) - destroyed
    ensures Update(e, pointerX).manager.score == e.manager.score + e.config.Points(destroyed)
  {
    destroyed := UpdatePlayingScore(e, pointerX);
    var moved := e.(paddle := Paddles.Update(e.paddle, pointerX), ball := Balls.Move(e.ball));
    PlayingTickKeepsCollisions(e, pointerX);
    var bounced := Balls.CheckPaddleCollision(Balls.CheckWallCollision(moved.ball), moved.paddle).0;
    var c := Bricks.CheckCollision(moved.wall, bounced.rect);
    assert c.isHit;
    assert CheckCollisions(moved).1 == c.hitCount;
  }

  /**
    A playing tick that breaks into the last intact brick, with the ball still on screen,
    clears the wall, scores that brick and wins the game.
  */
  lemma UpdateClearsLastBrick(e: Engine, pointerX: int)
    requires e.paddle.Valid() && IsPlaying(e.manager)
    requires Bricks.Remaining(e.wall.bricks) == 1
    requires var bounced := Balls.CheckPaddleCollision(
               Balls.CheckWallCollision(Balls.Move(e.ball)), Paddles.Update(e.paddle, pointerX)).0;
      && !Balls.IsOutOfBounds(bounced)
      && exists j :: 0 <= j < |e.wall.bricks| && Bricks.Hittable(e.wall.bricks[j], bounced.rect)
    ensures var r := Update(e, pointerX);
      && Bricks.Remaining(r.wall.bricks) == 0
      && r.manager.score == e.manager.score + e.config.Points(1)
      && IsWin(r.manager) && !r.ball.started
  {
    var destroyed := UpdatePlayingBreaksBrick(e, pointerX);
    assert destroyed == 1;
    var moved := e.(paddle := Paddles.Update(e.paddle, pointerX), ball := Balls.Move(e.ball));
    var bounced := Balls.CheckPaddleCollision(Balls.CheckWallCollision(moved.ball), moved.paddle).0;
    var collided := CheckCollisions(moved).0;
    assert collided.ball == bounced.(xSpeed := collided.ball.xSpeed, ySpeed := collided.ball.ySpeed);
    UpdatePlayingOutcome(e, pointerX);
  }

  /** The width after shrinking depends only on the starting width, the floor and the step. */
  lemma {:induction false} ShrinkTimesWidthOnly(p: Paddles.Paddle, q: Paddles.Paddle, n: nat)
    requires p.width == q.width && p.minWidth == q.minWidth && p.shrinkAmount == q.shrinkAmount
    ensures Paddles.ShrinkTimes(p, n).width == Paddles.ShrinkTimes(q, n).width
    ensures Paddles.ShrinkTimes(p, n).minWidth == p.minWidth
    ensures Paddles.ShrinkTimes(p, n).shrinkAmount == p.shrinkAmount
  {
    if n > 0 {
      ShrinkTimesWidthOnly(p, q, n - 1);
      var a, b := Paddles.ShrinkTimes(p, n - 1), Paddles.ShrinkTimes(q, n - 1);
      assert Paddles.ShrinkTimes(p, n) == Paddles.Shrink(a);
      assert Paddles.ShrinkTimes(q, n) == Paddles.Shrink(b);
      assert Paddles.Shrink(a).width == Max(a.minWidth, a.width - a.shrinkAmount);
      assert Paddles.Shrink(b).width == Max(b.minWidth, b.width - b.shrinkAmount);
    }
  }

  /**
    How a playing tick ends: still playing only while bricks remain and the ball is in;
    clearing the wall wins and stops the ball; a lost ball returns to rest above the paddle
    and the game waits, with score and wall kept — and this check runs after the win check.
  */
  lemma UpdatePlayingOutcome(e: Engine, pointerX: int)
    requires e.paddle.Valid() && IsPlaying(e.manager)
    ensures var r := Update(e, pointerX);
      var collided := CheckCollisions(e.(paddle := Paddles.Update(e.paddle, pointerX), ball := Balls.Move(e.ball))).0;
      && r.wall == collided.wall && r.paddle == collided.paddle
      && r.manager.score == collided.manager.score
      && (Balls.IsOutOfBounds(collided.ball) ==>
            && IsWaiting(r.manager) && !r.ball.started
            && r.ball.x == Balls.RestX(r.paddle) && r.ball.y == Balls.RestY(collided.ball, r.paddle))
      && (!Balls.IsOutOfBounds(collided.ball) && Bricks.Remaining(r.wall.bricks) == 0 ==>
            IsWin(r.manager) && !r.ball.started)
      && (!Balls.IsOutOfBounds(collided.ball) && Bricks.Remaining(r.wall.bricks) != 0 ==>
            IsPlaying(r.manager) && r.ball == collided.ball)
  {
    var e1 := e.(paddle := Paddles.Update(e.paddle, pointerX));
    var moved := e1.(ball := Balls.Move(e1.ball));
    assert moved == e.(paddle := Paddles.Update(e.paddle, pointerX), ball := Balls.Move(e.ball));
    var collided := CheckCollisions(moved).0;
    var won := CheckWinCondition(collided);
    assert Update(e, pointerX) == CheckBallOutOfBounds(won);
    assert won.wall == collided.wall && won.paddle == collided.paddle && won.manager.score == collided.manager.score;
    assert won.ball == collided.ball.(started := won.ball.started);
    assert Balls.IsOutOfBounds(won.ball) == Balls.IsOutOfBounds(collided.ball);
  }

  /** Ticks keep the engine's invariant. */
  lemma UpdateKeepsValid(e: Engine, pointerX: int)
    requires Valid(e)
    ensures Valid(Update(e, pointerX))
  {
    var e1 := e.(paddle := Paddles.Update(e.paddle, pointerX));
    assert Valid(e1);
    if IsWaiting(e1.manager) {
      assert Valid(e1.(ball := Balls.FollowPaddle(e1.ball, e1.paddle)));
    } else if IsPlaying(e1.manager) {
      var moved := e1.(ball := Balls.Move(e1.ball));
      assert Valid(moved);
      CollisionsKeepValid(moved);
      var collided := CheckCollisions(moved).0;
      WinCheckKeepsValid(collided);
      OutOfBoundsKeepsValid(CheckWinCondition(collided));
    }
  }

  /** A playing collision step keeps the invariant: score and paddle width follow the bricks. */
  lemma CollisionsKeepValid(e: Engine)
    requires Valid(e) && IsPlaying(e.manager)
    ensures Valid(CheckCollisions(e).0) && IsPlaying(CheckCollisions(e).0.manager)
  {
    var (r, destroyed) := CheckCollisions(e);
    var cfg := e.config;
    var before := Bricks.Destroyed(e.wall.bricks);
    var after := Bricks.Destroyed(r.wall.bricks);
    assert after == before + destroyed;
    PointsAdd(cfg, before, destroyed, after);
    if cfg.ShrinkSane() {
      PaddleWidthStep(cfg, e.paddle, before, destroyed, after);
    }
  }

  /** Points add up: those for `before` bricks plus those for `n` more are those for all `total`. */
  lemma PointsAdd(cfg: Config, before: int, n: int, total: int)
    requires total == before + n
    ensures cfg.Points(before) + cfg.Points(n) == cfg.Points(total)
  {
    Arith.MulAddRight(cfg.scorePerBrick, before, n);
  }

  /** Shrinking a paddle that reflects `before` destroyed bricks `n` more times reflects all `total`. */
  lemma PaddleWidthStep(cfg: Config, p: Paddles.Paddle, before: nat, n: nat, total: int)
    requires cfg.ShrinkSane() && total == before + n
    requires p.minWidth == cfg.paddleMinWidth && p.shrinkAmount == cfg.paddleShrinkAmount
    requires p.width == cfg.PaddleWidthAfter(before)
    ensures Paddles.ShrinkTimes(p, n).width == cfg.PaddleWidthAfter(total)
  {
    Paddles.ShrinkTimesTwice(p, cfg.InitialPaddleWidth(), before, n);
  }

  /** The win check keeps the invariant. */
  lemma WinCheckKeepsValid(e: Engine)
    requires Valid(e)
    ensures Valid(CheckWinCondition(e))
  {
  }

  /** The out-of-bounds check keeps the invariant. */
  lemma OutOfBoundsKeepsValid(e: Engine)
    requires Valid(e)
    ensures Valid(CheckBallOutOfBounds(e))
  {
  }

  /** One pass of the main loop: the events, then the update (which runs even on a quit). */
  function Tick(e: Engine, events: seq<Event>, pointerX: int): (r: (Engine, bool))
    requires EventSamplesValid(e.config, events)
    requires Valid(e)
    ensures Valid(r.0)
    ensures r.1 <==> forall i :: 0 <= i < |events| ==> !events[i].Quit?
    // the update runs on the engine the events left, whether or not one of them was a quit
    ensures r.0 == Update(HandleEvents(e, events).0, pointerX)
  {
    var (handled, running) := HandleEvents(e, events);
    HandleEventsKeepsValid(e, events);
    UpdateKeepsValid(handled, pointerX);
    (Update(handled, pointerX), running)
  }
}
