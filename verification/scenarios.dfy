/** Concrete situations with the shipped settings, worked through the model. */
module Scenarios {
  import opened Geometry
  import opened Maybe
  import opened GameStates
  import Paddles
  import Balls
  import Bricks
  import GameEngine
  import Colors

  /** The paddle the engine builds from the shipped settings, written out. */
  const SettingsPaddle := Paddles.Paddle(150, 14, 560, 800, 600, 5, 40, Rect(325, 560, 150, 14))

  /** The shipped settings give a 150-pixel paddle centred at x = 400, shrinking sanely. */
  lemma SettingsPaddleBuilt()
    ensures GameEngine.Settings.InitialPaddleWidth() == 150
    ensures GameEngine.Settings.ShrinkSane()
    ensures Paddles.NewPaddle(60, 2.5, 14, 40, 800, 600, 5, 40) == SettingsPaddle
    ensures SettingsPaddle.Valid() && SettingsPaddle.rect.CenterX() == 400
  {
    TruncProperties(150, 0.0);
    assert 60.0 * 2.5 == 150 as real;
  }

  /** The shipped wall: 50 bricks, exactly 7 of them special, every grid cell present once. */
  lemma SettingsWall(chosen: set<int>)
    requires GameEngine.ValidSample(GameEngine.Settings, chosen)
    ensures var w := Bricks.NewWall(GameEngine.Settings.Layout(), 7, chosen);
      && |w.bricks| == 50
      && |Bricks.SpecialIndices(w.bricks)| == 7
      && Bricks.Remaining(w.bricks) == 50
  {
  }

  /** A ball touching the ceiling while rising is pushed down to y = r and falls at the same speed. */
  lemma CeilingBounce()
    ensures var b := Balls.NewBall(400, 8, 8, 7.0, -7.0, 800, 600, 5).(started := true);
      var r := Balls.CheckWallCollision(b);
      r.y == 8.0 && r.ySpeed == 7.0 && r.xSpeed == 7.0 && r.x == 400.0
  {
  }

  /** A ball at the left wall is pushed back to x = r with its horizontal speed flipped. */
  lemma LeftWallBounce()
    ensures var b := Balls.NewBall(3, 300, 8, -7.0, 7.0, 800, 600, 5).(started := true);
      var r := Balls.CheckWallCollision(b);
      r.x == 8.0 && r.xSpeed == 7.0 && r.ySpeed == 7.0
  {
  }

  /** A ball descending onto the centre of the shipped paddle goes straight back up. */
  lemma PaddleCentreHit()
    ensures var p := SettingsPaddle;
      var b := Balls.Ball(400.0, 555.0, 8, 3.0, 7.0, 800, 600, 5, true, Rect(392, 547, 16, 16));
      var r := Balls.CheckPaddleCollision(b, p);
      r.1 && r.0.xSpeed == 0.0 && r.0.ySpeed == -7.0 && r.0.y == 552.0
  {
    var p := SettingsPaddle;
    var b := Balls.Ball(400.0, 555.0, 8, 3.0, 7.0, 800, 600, 5, true, Rect(392, 547, 16, 16));
    assert Collide(b.rect, p.rect);
    Paddles.HitFactorLinear(p, 400.0, 0.0);
  }

  /** The right edge of the shipped paddle, x = 475, has hit factor exactly one. */
  lemma RightEdgeFactor()
    ensures Paddles.HitFactor(SettingsPaddle, 475.0) == 1.0
  {
    Paddles.HitFactorEdges(SettingsPaddle);
    assert SettingsPaddle.rect.Right() == 475;
  }

  /** A ball descending onto the right edge of the shipped paddle leaves at 45 degrees. */
  lemma PaddleRightEdgeHit()
    ensures var b := Balls.Ball(475.0, 555.0, 8, 0.0, 7.0, 800, 600, 5, true, Rect(467, 547, 16, 16));
      var r := Balls.CheckPaddleCollision(b, SettingsPaddle);
      r.1 && r.0.xSpeed == 7.0 && r.0.ySpeed == -7.0
  {
    var b := Balls.Ball(475.0, 555.0, 8, 0.0, 7.0, 800, 600, 5, true, Rect(467, 547, 16, 16));
    assert Collide(b.rect, SettingsPaddle.rect);
    RightEdgeFactor();
    var r := Balls.CheckPaddleCollision(b, SettingsPaddle);
    assert r.0.xSpeed == Paddles.HitFactor(SettingsPaddle, 475.0) * 7.0;
  }

  /**
    A ball whose centre is five pixels beyond the right edge still overlaps the paddle, and
    its hit factor is 16/15: the factor leaves [-1, 1] for such corner hits.
  */
  lemma PaddleBeyondEdgeHit()
    ensures var b := Balls.Ball(480.0, 555.0, 8, 0.0, 7.0, 800, 600, 5, true, Rect(472, 547, 16, 16));
      var r := Balls.CheckPaddleCollision(b, SettingsPaddle);
      r.1 && Paddles.HitFactor(SettingsPaddle, 480.0) == 16.0 / 15.0 && r.0.xSpeed > 7.0
  {
    var b := Balls.Ball(480.0, 555.0, 8, 0.0, 7.0, 800, 600, 5, true, Rect(472, 547, 16, 16));
    assert Collide(b.rect, SettingsPaddle.rect);
    assert SettingsPaddle.rect.CenterX() == 400;
    var f := Paddles.HitFactor(SettingsPaddle, 480.0);
    assert f * 150.0 == 160.0;
    var r := Balls.CheckPaddleCollision(b, SettingsPaddle);
    assert r.0.xSpeed == f * 7.0;
  }

  /** The ball has entirely left through the bottom only once its top edge is below the screen. */
  lemma OutOfBoundsEdge()
    ensures !Balls.IsOutOfBounds(Balls.NewBall(400, 608, 8, 0.0, 7.0, 800, 600, 5))
    ensures Balls.IsOutOfBounds(Balls.NewBall(400, 609, 8, 0.0, 7.0, 800, 600, 5))
  {
  }

  /** A fresh engine from the shipped settings waits with a full wall, no score and the 150-pixel paddle. */
  lemma FreshEngine(chosen: set<int>)
    requires GameEngine.ValidSample(GameEngine.Settings, chosen)
    ensures var e := GameEngine.NewEngine(GameEngine.Settings, chosen);
      && IsWaiting(e.manager) && e.manager.score == 0 && e.manager.level == 1
      && |e.wall.bricks| == 50 && Bricks.Remaining(e.wall.bricks) == 50
      && e.paddle.width == 150 && !e.ball.started
      && e.ball.x == 400.0 && e.ball.y == 540.0
  {
    SettingsPaddleBuilt();
    var e := GameEngine.NewEngine(GameEngine.Settings, chosen);
    assert e == GameEngine.InitGameObjects(GameEngine.Settings, NewManager(), chosen);
    assert e.paddle == SettingsPaddle;
    var cfg := GameEngine.Settings;
    assert cfg.windowWidth / 2 == 400 && cfg.windowHeight - 60 == 540;
    assert e.ball.x == (cfg.windowWidth / 2) as real && e.ball.y == (cfg.windowHeight - 60) as real;
  }

  /** Launching from the fresh engine starts the ball and the game. */
  lemma LaunchFromFresh(chosen: set<int>)
    requires GameEngine.ValidSample(GameEngine.Settings, chosen)
    ensures var e := GameEngine.HandleEvent(GameEngine.NewEngine(GameEngine.Settings, chosen), GameEngine.Launch);
      IsPlaying(e.manager) && e.ball.started && GameEngine.Valid(e)
  {
    var e0 := GameEngine.NewEngine(GameEngine.Settings, chosen);
    GameEngine.HandleEventKeepsValid(e0, GameEngine.Launch);
  }

  /** One plain brick destroyed by the shipped settings: ten points and the paddle five pixels narrower. */
  lemma PlainBrickShrinksOnce()
    ensures Paddles.ShrinkTimes(SettingsPaddle, 1).width == 145
    ensures AddScore(NewManager(), GameEngine.Settings.Points(1)).score == 10
  {
  }

  /** Twenty-two destroyed bricks bring the shipped paddle to its 40-pixel floor, and it stays there. */
  lemma PaddleReachesFloor(n: nat)
    requires n >= 22
    ensures Paddles.ShrinkTimes(SettingsPaddle, n).width == 40
  {
    var p := SettingsPaddle;
    Paddles.ShrinkTimesWidth(p, n);
    assert n * 5 >= 110;
  }

  /** A wall holding one intact plain brick, centred on x = 400 with its bottom edge at y = 320. */
  const LastBrickWall := Bricks.Wall(GameEngine.Settings.Layout(),
    [Bricks.Brick(Rect(370, 300, 60, 20), Colors.Color(255, 0, 0), false, 0, 0, false)])

  /** A launched ball rising straight up at x = 400, its centre 10 pixels below that brick. */
  const RisingBall := Balls.Ball(400.0, 330.0, 8, 0.0, -7.0, 800, 600, 5, true, Rect(392, 322, 16, 16))

  /** The rising ball after one move: 7 pixels higher, its box following it. */
  const RisenBall := Balls.Ball(400.0, 323.0, 8, 0.0, -7.0, 800, 600, 5, true, Rect(392, 315, 16, 16))

  /** Under the pointer at x = 400 the shipped paddle stays put. */
  lemma PaddleUnderPointer()
    ensures Paddles.Update(SettingsPaddle, 400) == SettingsPaddle
  {
  }

  /** A 16-pixel box is determined by its centre. */
  lemma BoxFromCentre(r: Rect, cx: int, cy: int)
    requires r.w == 16 && r.h == 16 && r.CenterX() == cx && r.CenterY() == cy
    ensures r == Rect(cx - 8, cy - 8, 16, 16)
  {
  }

  /** One move takes the rising ball 7 pixels up, its box following it. */
  lemma RisingBallMoves(b: Balls.Ball)
    requires b == RisingBall
    ensures Balls.Move(b) == RisenBall
  {
    var m := Balls.Move(b);
    assert m.x == 400.0 && m.y == 323.0;
    TruncProperties(400, 0.0);
    TruncProperties(323, 0.0);
    assert m.rect.CenterX() == 400 && m.rect.CenterY() == 323;
    BoxFromCentre(m.rect, 400, 323);
  }

  /** The risen ball touches no wall and, rising, does not bounce off the paddle. */
  lemma RisenBallUntouched()
    ensures Balls.CheckPaddleCollision(Balls.CheckWallCollision(RisenBall), SettingsPaddle).0 == RisenBall
  {
    assert !Balls.TouchesSide(RisenBall) && !Balls.TouchesTop(RisenBall);
  }

  /** The risen ball's box reaches into the last brick from below, and the ball is on screen. */
  lemma RisenBallHitsBrick()
    ensures Bricks.Hittable(LastBrickWall.bricks[0], RisenBall.rect)
    ensures !Balls.IsOutOfBounds(RisenBall)
  {
  }

  /**
    One playing tick with the shipped settings and the paddle under the pointer: the rising
    ball reaches the last brick, destroys it, scores ten points and wins the game.
  */
  lemma PlayingTickBreaksLastBrick(e: GameEngine.Engine)
    requires e == GameEngine.Engine(GameEngine.Settings, Manager(Playing, 0, 1), LastBrickWall, SettingsPaddle, RisingBall)
    ensures var r := GameEngine.Update(e, 400);
      && Bricks.Remaining(r.wall.bricks) == 0 && r.manager.score == 10 && IsWin(r.manager)
  {
    var bounced := Balls.CheckPaddleCollision(
      Balls.CheckWallCollision(Balls.Move(e.ball)), Paddles.Update(e.paddle, 400)).0;
    assert bounced == RisenBall by {
      PaddleUnderPointer();
      RisingBallMoves(RisingBall);
      RisenBallUntouched();
    }
    assert !Balls.IsOutOfBounds(bounced) && Bricks.Hittable(e.wall.bricks[0], bounced.rect) by {
      RisenBallHitsBrick();
    }
    assert Bricks.Remaining(e.wall.bricks) == 1;
    GameEngine.UpdateClearsLastBrick(e, 400);
    assert e.config.Points(1) == 10;
  }
}
