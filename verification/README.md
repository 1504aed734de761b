# Breakout, modelled in Dafny

A functional model of a pygame brick-breaker game and proofs about it. The game has a
centred wall of bricks, some of them special, that explode their 3x3 neighbourhood. A
paddle follows the mouse and shrinks with every destroyed brick. A ball bounces off the
walls, the paddle and the bricks. A small state machine (waiting, playing, win) and a score
tie them together. The older single-file version of the game (`main.py`) is modelled as
well, as a separate and simpler tick.

Modules (one per source file):

- `Geometry` (geometry.dfy): `pygame.Rect` as an integer record, its `colliderect`, and
  Python's `int(v)` (truncation toward zero).
- `Colors` (colors.dfy): the palettes and the text colour for a background. It also holds the
  column colour and the flashing-outline phase, both indices into those palettes.
- `Paddles` (paddle.dfy), `Balls` (ball.dfy), `Bricks` (brick.dfy): the three game objects.
- `GameStates` (game_state.dfy): the state enumeration and the state/score/level manager.
- `GameEngine` (game_engine.dfy): the engine record, event handling, the per-tick update
  and the invariant it keeps.
- `LegacyGame` (legacy.dfy): the single-file game's objects and tick.
- `Scenarios` (scenarios.dfy): worked examples with the shipped settings of
  `config/settings.py`.
- `Maybe` and `Arith`: an option type and a few arithmetic lemmas.

Modelling choices:

- Every mutating method becomes a pure function from the old object to the new one. The
  engine's `update` becomes `Update(e, pointerX)`, with the mouse x as a parameter.
- Ball positions and speeds are exact reals. Rectangles are integers. Setting a rectangle's
  centre to a Python number truncates it toward zero.
- `random.sample` becomes a parameter `chosen`: a set of `min(k, n)` indices in range
  (`Bricks.ValidSample`). The restart key carries the sample the new wall draws.
- Events are abstract:
  - engine: `Launch` (click or space), `Restart` (the E key), `Quit`, `Other`;
  - legacy: `Click`, `Space`, `Quit`, `Other`.
- The wall starts at `int((screenWidth - totalWidth) / 2)`: `int()` of a true division
  truncates toward zero, so for a wall wider than the screen by an odd amount the offset is
  one more than `//` would give. The model truncates.
- `get_hit_factor`'s comment promises a value between -1 and 1. The code only gives that
  when the ball centre lies within half a paddle width of the paddle centre
  (`Paddles.HitFactorUnitRange`, an if-and-only-if). A ball overlapping a paddle corner can
  get more: `Scenarios.PaddleBeyondEdgeHit` exhibits 16/15. The model keeps the code's
  formula.

The engine invariant `GameEngine.Valid` holds after construction and is kept by every
event and every tick. It says:

- the ball is launched exactly while the state is playing;
- the state is waiting, playing or win;
- a won game has no brick left;
- the score is `scorePerBrick` times the number of destroyed bricks;
- for settings whose initial paddle width is at or above the floor and whose shrink step is
  non-negative, the paddle width is `max(minWidth, initialWidth - destroyed * step)`.

## Model

| member | source | states |
|---|---|---|
| Geometry.Trunc | src/game_objects/ball.py:57-60 | `int(v)` truncates toward zero: the result is within one below a non-negative value and within one above a negative one |
| Colors.TextColorForBackground | src/utils/colors.py:43-47 | the text colour is white or black; white exactly when the channel sum is below 420, i.e. the mean is below 140 |
| Colors.TextColorMonotone | src/utils/colors.py:46-47 | if a background gets white text, every background with a smaller or equal channel sum gets white text too |
| Colors.TextColorExamples | src/utils/colors.py:43-47 | black gets white text, white gets black, grey 140 gets black (strict comparison), and one step darker gets white |
| Colors.BrickColorForColumn | src/game_objects/brick.py:61 | the column colour is always an entry of the ten-colour palette (the index `col % 10` is in range) |
| Colors.BrickColorPeriodic | src/game_objects/brick.py:61 | column colours repeat with period ten |
| Colors.BrickColorsDistinct | src/utils/colors.py:26-37 | the first ten columns all get different colours |
| Colors.FlashPhase | src/game_objects/brick.py:97-99 | the outline phase `(tick // 300) % 2` is always a valid index of the two flash colours |
| Colors.FlashPhaseAlternates | src/game_objects/brick.py:98 | 300 ms later the phase is the other one |
| Colors.FlashColor | src/game_objects/brick.py:97-99 | the outline colour is one of the two flash colours |
| Paddles.InitialWidth | src/game_objects/paddle.py:40 | the initial width is `brick_width * multiplier` rounded down when that product is non-negative |
| Paddles.NewPaddle | src/game_objects/paddle.py:39-51 | the new paddle is well formed, at `y = screen_height - y_offset`, with the given width, step and floor, and centred (left and right margins differ by at most one) |
| Paddles.Update | src/game_objects/paddle.py:53-59 | only `rect.x` changes; it is `pointer - width // 2` when that fits, 0 when it is too far left, `max(0, screen_width - width)` when too far right; it always lies in `[0, screen_width - width]` when the paddle fits |
| Paddles.UpdateCentresOnPointer | src/game_objects/paddle.py:56-59 | when the clamp does not bite, the paddle centre is exactly the pointer |
| Paddles.UpdateForgetsPosition | src/game_objects/paddle.py:53-59 | the position depends only on the latest pointer: two updates equal the last one |
| Paddles.Shrink | src/game_objects/paddle.py:61-71 | the width becomes `max(min_width, width - step)`; when it changes, the rectangle takes the new width, stays in the screen and keeps its centre if the re-centred rectangle fits; when it does not change, nothing changes; validity is kept |
| Paddles.ShrinkAtFloor | src/game_objects/paddle.py:64-66 | at the floor, with a non-negative step, shrinking is a no-op |
| Paddles.ShrinkTimes | src/game/game_engine.py:147-148 | repeated shrinking changes only width and rectangle, keeps the row and height and validity, and never goes below the floor |
| Paddles.ShrinkTimesWidth | src/game_objects/paddle.py:64-67 | after `n` shrinks from `w0 >= min_width` the width is `max(min_width, w0 - n * step)` |
| Paddles.ShrinkTimesTwice | src/game_objects/paddle.py:64-67 | shrinking a paddle that already reflects `d` shrinks `n` more times gives the closed form for `d + n` |
| Paddles.HitFactor | src/game_objects/paddle.py:77-87 | the factor times the width is twice the ball's offset from the paddle centre |
| Paddles.HitFactorLinear | src/game_objects/paddle.py:87 | the factor is 0 at the centre and linear with slope `2 / width` |
| Paddles.HitFactorSign | src/game_objects/paddle.py:87 | the factor is positive exactly right of the centre and negative exactly left of it |
| Paddles.HitFactorUnitRange | src/game_objects/paddle.py:84-87 | the factor is in `[-1, 1]` exactly when the ball is within half a width of the centre |
| Paddles.HitFactorEdges | src/game_objects/paddle.py:84-87 | for an even width the left edge gives exactly -1 and the right edge exactly 1 |
| Balls.NewBall | src/game_objects/ball.py:36-48 | a new ball is at rest at the given position with its `2r` box centred there and the given speeds |
| Balls.SyncRect | src/game_objects/ball.py:57-60 | re-syncing moves only the box, keeps its size, and centres it on `(int(x), int(y))` |
| Balls.IsOutOfBounds | src/game_objects/ball.py:112-114 | for a ball whose box follows it: when out, the box starts at or below the bottom edge; a box starting strictly below it is always out |
| Balls.Move | src/game_objects/ball.py:50-55 | a resting ball is unchanged; a launched one advances by its velocity and its box is re-synced; nothing else changes |
| Balls.CheckWallCollision | src/game_objects/ball.py:62-78 | `x_speed` flips exactly when a side wall is touched and `y_speed` exactly when the top is; the ball is pushed to `r` or `width - r`, and to `y = r`; afterwards `y >= r` and, if the ball fits, `r <= x <= width - r`; without contact nothing changes |
| Balls.CheckPaddleCollision | src/game_objects/ball.py:80-102 | fires exactly when the boxes overlap and the ball descends; then `x_speed = factor * y_speed`, `y_speed` is negated and negative, the ball sits on top of the paddle with its box re-synced; otherwise nothing changes |
| Balls.PaddleBounceOnce | src/game_objects/ball.py:90-96 | right after a paddle bounce a second check does not fire and changes nothing |
| Balls.BounceHorizontal | src/game_objects/ball.py:104-106 | negates `x_speed` and nothing else |
| Balls.BounceVertical | src/game_objects/ball.py:108-110 | negates `y_speed` and nothing else |
| Balls.BouncesAreInvolutions | src/game_objects/ball.py:104-110 | bouncing twice the same way is the identity |
| Balls.FollowPaddle | src/game_objects/ball.py:116-121 | a launched ball is untouched; a resting one goes to the paddle centre, `follow_distance` above its top, with its box centred there |
| Balls.FollowPaddleIdempotent | src/game_objects/ball.py:116-121 | following twice is following once |
| Balls.Start | src/game_objects/ball.py:123-125 | launching sets `started` and nothing else |
| Balls.Reset | src/game_objects/ball.py:127-144 | the ball stops; with only a paddle it goes to the resting spot above it; otherwise to the given coordinates or the defaults `(width // 2, height - 60)`; the box is re-synced |
| Balls.ResetMatchesFollow | src/game_objects/ball.py:135-138 | resetting onto a paddle is following it with the ball stopped |
| Balls.RestingBallInBounds | src/game_objects/ball.py:112-121 | a ball resting above an on-screen paddle is never out of bounds |
| Bricks.StartX | src/game_objects/brick.py:51-52 | the wall is centred: the margins left and right of it differ by at most one |
| Bricks.GridCellAt | src/game_objects/brick.py:56-71 | the brick at index `row * cols + col` has that row and column, the cell's rectangle, the column colour and is intact and not special |
| Bricks.GridCellsDistinct | src/game_objects/brick.py:54-68 | distinct indices hold distinct in-range `(row, col)` cells |
| Bricks.GridColorByColumn | src/game_objects/brick.py:61 | two bricks in the same column have the same colour |
| Bricks.BuildBricks | src/game_objects/brick.py:54-71 | the nested row/column loops build exactly the reference grid |
| Bricks.SetSpecialBricks | src/game_objects/brick.py:76-81 | the special bricks are exactly the sampled indices; nothing else about a brick changes |
| Bricks.NewWall | src/game_objects/brick.py:43-74 | the new wall has `rows * cols` intact bricks, each the grid cell with the sampled ones special, and exactly `min(special_count, rows * cols)` special bricks |
| Bricks.Remaining | src/game_objects/brick.py:114-116 | the remaining count is at most the number of bricks; it is 0 exactly when every brick is hit and full exactly when none is |
| Bricks.RemainingMarkOne | src/game_objects/brick.py:132-135 | destroying one intact brick lowers the remaining count by exactly one |
| Bricks.FindHittableFrom | src/game_objects/brick.py:131-132 | the scan from `k` finds the first intact overlapping brick at or after `k`, or none exactly when there is none |
| Bricks.FirstHittable | src/game_objects/brick.py:131-148 | the collision resolves against the first intact overlapping brick, or none exactly when none overlaps |
| Bricks.FirstHittableUnique | src/game_objects/brick.py:131-132 | the first hittable brick is unique |
| Bricks.CountIntactNear | src/game_objects/brick.py:150-161 | the number of intact bricks in a 3x3 block is at most the remaining count |
| Bricks.ExplodeAround | src/game_objects/brick.py:150-161 | after the blast a brick is hit exactly when it was hit or lies in the 3x3 block; only the flags change; the count is the number of intact bricks in the block, and the remaining count drops by it |
| Bricks.CountIntactNearMarkOne | src/game_objects/brick.py:134-139 | marking the trigger first removes exactly one intact brick from its own block |
| Bricks.MostlyHorizontalCross | src/game_objects/brick.py:174 | for positive sizes, the ratio test `dx/(w/2) > dy/(h/2)` equals `dx * h > dy * w` |
| Bricks.CollisionDirection | src/game_objects/brick.py:163-177 | horizontal exactly when the centre offset in x, scaled by the brick height, exceeds the one in y scaled by the width; ties are vertical |
| Bricks.CheckCollision | src/game_objects/brick.py:118-148 | no hit exactly when no intact brick overlaps, and then `(False, 0, None)` with the wall unchanged; a hit counts at least one brick and has a direction; flags only go from intact to hit; the remaining count drops by the hit count |
| Bricks.CollisionPlainTrigger | src/game_objects/brick.py:131-146 | an ordinary first brick: exactly that brick falls, count one, direction from that brick |
| Bricks.CollisionSpecialTrigger | src/game_objects/brick.py:131-161 | a special first brick: the bricks hit afterwards are exactly those hit before plus its 3x3 block, and the count is the number of intact bricks in the block |
| Bricks.SpecialCollisionUnfold | src/game_objects/brick.py:134-146 | with a special first brick, the collision marks it, blasts its block and reports one plus the blast count |
| Bricks.MarkedBlast | src/game_objects/brick.py:150-161 | blasting after marking the centre hits exactly what was hit before plus the block |
| Bricks.ExplosionDoesNotChain | src/game_objects/brick.py:150-161 | a brick next to a caught special brick but outside the trigger's block survives |
| GameStates.NewManager | src/game/game_state.py:22-25 | a fresh manager waits, with score 0 and level 1 |
| GameStates.SetState | src/game/game_state.py:27-29 | only the state changes |
| GameStates.IsPlaying | src/game/game_state.py:31-33 | holds exactly in the playing state (exclusivity in `StateQueriesExclusive`) |
| GameStates.IsWaiting | src/game/game_state.py:35-37 | holds exactly in the waiting state |
| GameStates.IsWin | src/game/game_state.py:39-41 | holds exactly in the win state |
| GameStates.IsGameOver | src/game/game_state.py:43-45 | holds exactly in the game-over state |
| GameStates.StateQueriesExclusive | src/game/game_state.py:31-45 | at most one query holds; after `set_state(s)` exactly the query for `s` holds, and none for the paused state |
| GameStates.AddScore | src/game/game_state.py:47-49 | the score grows by exactly `points`, so it never falls for non-negative points; state and level are kept |
| GameStates.AddScoreAccumulates | src/game/game_state.py:47-49 | two additions are one addition of the sum |
| GameStates.ResetScore | src/game/game_state.py:51-53 | the score is 0; state and level are kept |
| GameStates.ResetScoreForgets | src/game/game_state.py:47-53 | resetting forgets any earlier addition |
| GameStates.NextLevel | src/game/game_state.py:55-58 | one level up, waiting, score kept |
| GameStates.ResetLevel | src/game/game_state.py:60-62 | level 1, state and score kept |
| GameStates.ResetLevelUndoesNextLevel | src/game/game_state.py:55-62 | resetting after a level-up is only the state change to waiting |
| GameEngine.InitGameObjects | src/game/game_engine.py:46-88 | a fresh wall with every brick intact; the centred paddle the settings describe; a resting synced ball at `(w // 2, h - 60)` with the configured radius, speeds and follow distance; score 0, waiting, level kept |
| GameEngine.InitKeepsValid | src/game/game_engine.py:46-88 | a freshly initialised match satisfies the engine invariant |
| GameEngine.NewEngine | src/game/game_engine.py:36-44 | the constructor is `init_game_objects` applied to a fresh manager, so the wall, paddle and ball are placed as there; the result satisfies the invariant |
| GameEngine.HandleEvent | src/game/game_engine.py:97-112 | a launch while waiting starts the ball and plays, otherwise does nothing; a restart in the win state re-initialises, otherwise does nothing; other events do nothing |
| GameEngine.HandleEventKeepsValid | src/game/game_engine.py:97-112 | every event keeps the invariant; a restart after a win gives an intact wall, score 0 and waiting |
| GameEngine.HandleEvents | src/game/game_engine.py:90-114 | the loop reports "keep running" exactly when no event is a quit; the settings are kept and a well-formed paddle stays well formed |
| GameEngine.HandleEventsKeepsValid | src/game/game_engine.py:90-114 | a whole batch of events keeps the invariant |
| GameEngine.HandleEventsSingle | src/game/game_engine.py:90-114 | a batch of one event that is not a quit is that event's reaction, and the loop goes on |
| GameEngine.HandleEventsAppend | src/game/game_engine.py:90-114 | events are handled in order: without a quit in the first part, a batch is its first part followed by the rest |
| GameEngine.HandleEventsStopsAtQuit | src/game/game_engine.py:90-96 | events after a quit are ignored: the batch leaves the engine as the events before the quit did, and reports that the loop ends |
| GameEngine.CheckCollisions | src/game/game_engine.py:130-154 | the ball is bounced off the walls, then off the paddle, and the brick test runs on that ball; state, level and launch flag are kept; flags only go from intact to hit; the returned count is the drop in remaining bricks; the score rises by the points for it and the paddle is shrunk that many times |
| GameEngine.BrickCollisions | src/game/game_engine.py:139-154 | the new wall and the hit count are the wall's own collision outcome for the ball's box; on a hit reported as horizontal only the horizontal speed is negated, on any other hit only the vertical one; nothing else of the ball changes; score and paddle follow the hit count; with no hit nothing changes |
| GameEngine.CheckWinCondition | src/game/game_engine.py:156-160 | with no brick left the state is win and the ball stops; otherwise nothing changes |
| GameEngine.CheckBallOutOfBounds | src/game/game_engine.py:162-166 | a lost ball is reset above the paddle and the game waits, with nothing else changed; otherwise nothing changes |
| GameEngine.Update | src/game/game_engine.py:116-128 | the settings are kept and the paddle stays well formed |
| GameEngine.UpdateOutsidePlay | src/game/game_engine.py:116-124 | outside play only the paddle moves, and a waiting ball follows it; in the win state the ball is untouched |
| GameEngine.UpdatePlayingKeepsHits | src/game/game_engine.py:124-128 | a playing tick never restores a brick |
| GameEngine.UpdatePlayingScore | src/game/game_engine.py:139-148 | in a playing tick the score rises by `scorePerBrick` times the bricks destroyed and the paddle is shrunk once per destroyed brick |
| GameEngine.UpdatePlayingBreaksBrick | src/game/game_engine.py:116-154 | a playing tick whose ball, after its move and the wall and paddle bounces, overlaps an intact brick destroys at least one brick and scores for each brick destroyed |
| GameEngine.UpdateClearsLastBrick | src/game/game_engine.py:116-160 | a playing tick that breaks into the last intact brick with the ball on screen clears the wall, scores that brick, wins and stops the ball |
| GameEngine.CollisionOutcome | src/game/game_engine.py:139-148 | an engine carrying a collision step's wall, paddle and score has scored and shrunk for exactly the bricks that step destroyed |
| GameEngine.PlayingTickKeepsCollisions | src/game/game_engine.py:124-128 | the win and out-of-bounds checks keep the wall, paddle and score of the collision step |
| GameEngine.ShrinkTimesWidthOnly | src/game/game_engine.py:147-148 | the width after repeated shrinking depends only on width, floor and step, not on position |
| GameEngine.UpdatePlayingOutcome | src/game/game_engine.py:124-166 | a playing tick ends waiting with the ball at rest above the paddle if the ball was lost (even if the wall was cleared), else in the win state with the ball stopped if no brick is left, else still playing |
| GameEngine.UpdateKeepsValid | src/game/game_engine.py:116-166 | every tick keeps the invariant |
| GameEngine.CollisionsKeepValid | src/game/game_engine.py:130-154 | the collision step keeps the invariant while playing |
| GameEngine.PointsAdd | src/game/game_engine.py:144 | points for separate batches of bricks add up |
| GameEngine.PaddleWidthStep | src/game/game_engine.py:147-148 | shrinking `n` more times takes the paddle width from the closed form for `d` to the one for `d + n` |
| GameEngine.WinCheckKeepsValid | src/game/game_engine.py:156-160 | the win check keeps the invariant |
| GameEngine.OutOfBoundsKeepsValid | src/game/game_engine.py:162-166 | the out-of-bounds check keeps the invariant |
| GameEngine.Tick | src/game/game_engine.py:229-241 | one loop pass is `update` on the engine the events left, even when a quit arrived; it keeps the invariant and keeps running exactly when no quit arrived |
| LegacyGame.NewWall | main.py:35-66 | `rows * cols` bricks, all intact and none special, exactly the centred reference grid |
| LegacyGame.NewPaddle | main.py:94-105 | the engine's centred paddle (margins differing by at most one) at `height - y_offset`, which never shrinks |
| LegacyGame.Initial | main.py:272-336 | the script starts with score 0, the scripted wall and paddle, and a resting synced ball, satisfying the legacy invariant |
| LegacyGame.InitialWall | main.py:272-280 | 50 bricks, all intact |
| LegacyGame.InitialPaddle | main.py:283-290 | the paddle is 150 wide at `(325, 560)` |
| LegacyGame.InitialBall | main.py:326-336 | the ball starts at `(400, 540)` |
| LegacyGame.WallCollision | main.py:165-179 | the same reflections and clamps as the engine's ball, but the box stays where it was |
| LegacyGame.WallCollisionMatchesEngine | main.py:165-179 | apart from the box, it equals the engine's wall bounce |
| LegacyGame.PaddleCollision | main.py:181-192 | a descending overlapping ball is steered and put on top of the paddle; otherwise nothing changes; the box stays |
| LegacyGame.PaddleCollisionMatchesEngine | main.py:181-192 | apart from the box, it equals the engine's paddle bounce |
| LegacyGame.BrickCollision | main.py:194-218 | a hit exactly when some intact brick overlaps; then only the first one is marked, one brick fewer remains and exactly one speed is negated; otherwise nothing changes |
| LegacyGame.BounceDirection | main.py:202-215 | horizontal exactly when the exact-position offset in x, scaled by the height, exceeds the one in y scaled by the width |
| LegacyGame.BrickBounceDirection | main.py:196-217 | the first hittable brick is the one marked, and the ball bounces the way the direction test says |
| LegacyGame.HandleEvent | main.py:353-360 | a click or space starts a resting ball; a launched ball and other events change nothing |
| LegacyGame.HandleEvents | main.py:348-360 | the script exits exactly on a quit; otherwise only `started` may change, it is set exactly when a launch event came, and a launched ball is untouched |
| LegacyGame.BallPhase | main.py:366-378 | the ball follows the paddle and moves; if it left the bottom it is first put back above the paddle (`ResetAbove`) and ends the phase not launched; then the wall bounce and the paddle bounce apply; shape and constants are kept |
| LegacyGame.Update | main.py:362-381 | the paddle follows the pointer; the ball goes through its phase against the moved paddle and then the brick test, whose ball and bricks the tick keeps; the score rises by 10 exactly when that test hit, exactly when one brick fell, and is unchanged exactly when the wall is; no brick is restored |
| LegacyGame.ResetAbove | main.py:372-374 | the ball stops at the resting spot above the paddle with its box synced |
| LegacyGame.ResetAboveMatchesEngine | main.py:240-246 | the legacy explicit reset equals the engine's reset onto the paddle |
| LegacyGame.LostBallRestsBeforeCollisions | main.py:366-378 | a ball lost during the move ends the tick not launched, because the reset runs before the collision tests |
| LegacyGame.UpdateKeepsValid | main.py:380-381 | the tick keeps the score at ten per destroyed brick, and keeps paddle and ball well formed |
| LegacyGame.Tick | main.py:342-381 | one loop pass exits exactly on a quit; otherwise it is the update applied to the ball the events left, and keeps the invariant |
| Scenarios.SettingsPaddleBuilt | config/settings.py:41-46 | the shipped paddle is 150 wide, centred at 400, and shrinks sanely |
| Scenarios.SettingsWall | config/settings.py:18-24 | the shipped wall has 50 intact bricks, 7 of them special |
| Scenarios.CeilingBounce | src/game_objects/ball.py:74-78 | a rising ball at the ceiling is pushed to `y = 8` and falls at speed 7 |
| Scenarios.LeftWallBounce | src/game_objects/ball.py:64-72 | a ball at the left wall is pushed to `x = 8` and moves right at speed 7 |
| Scenarios.PaddleCentreHit | src/game_objects/ball.py:90-101 | a hit at the paddle centre sends the ball straight up |
| Scenarios.RightEdgeFactor | src/game_objects/paddle.py:87 | the shipped paddle's right edge has factor 1 |
| Scenarios.PaddleRightEdgeHit | src/game_objects/ball.py:90-101 | a hit at the right edge leaves at 45 degrees |
| Scenarios.PaddleBeyondEdgeHit | src/game_objects/paddle.py:84-87 | a ball overlapping the paddle corner gets factor 16/15, outside the promised range |
| Scenarios.OutOfBoundsEdge | src/game_objects/ball.py:112-114 | the ball is out only once its top edge is below the screen |
| Scenarios.FreshEngine | src/game/game_engine.py:46-88 | the shipped engine starts waiting with 50 bricks, score 0, a 150-wide paddle and the ball at rest at `(400, 540)` |
| Scenarios.LaunchFromFresh | src/game/game_engine.py:97-102 | launching from the fresh engine plays, starts the ball, and keeps the invariant |
| Scenarios.PlainBrickShrinksOnce | src/game/game_engine.py:142-148 | one destroyed brick gives 10 points and a paddle 5 narrower |
| Scenarios.PaddleReachesFloor | src/game_objects/paddle.py:61-71 | from 22 destroyed bricks on, the shipped paddle is at its 40-pixel floor |
| Scenarios.PaddleUnderPointer | src/game_objects/paddle.py:53-59 | with the pointer at x = 400 the shipped paddle stays where it is |
| Scenarios.RisingBallMoves | src/game_objects/ball.py:50-55 | a launched ball at (400, 330) rising at speed 7 moves to (400, 323), its box following it |
| Scenarios.RisenBallUntouched | src/game/game_engine.py:130-137 | that ball touches no wall and, rising, does not bounce off the paddle |
| Scenarios.RisenBallHitsBrick | src/game_objects/brick.py:131-132 | that ball's box overlaps an intact brick whose bottom edge is at y = 320, and the ball is on screen |
| Scenarios.PlayingTickBreaksLastBrick | src/game/game_engine.py:116-160 | one playing tick with the shipped settings, that ball and a single brick left destroys the brick, scores 10 and wins |

## Left out

- Drawing, the UI text, fonts, the window, the clock and event polling are left out: they are
  rendering and I/O. Events and the pointer x are parameters. The font loader and
  `main_new.py` are not part of this model.
- The randomness of `random.sample` is left out: the sample is a parameter constrained to
  `min(k, n)` distinct in-range indices.
- The transitions into GAME_OVER and PAUSED are left out, because no code performs them. The
  states exist in the enumeration.
- Floating point is left out: ball positions and speeds are exact reals, so rounding of the
  hit factor and of the position sum is not modelled.
- Integer overflow is left out: Python integers are unbounded, and so are the model's.
- `colliderect` is modelled for rectangles of positive size; it never holds when either size
  is zero or negative. pygame's handling of negative sizes is not modelled.
- The legacy ball's float-to-integer rectangle setters are modelled as truncation. A pygame
  version that rounds there would shift the box by one pixel.
- The legacy paddle has no shrink step or floor. It is modelled as an engine paddle with step
  0 and floor equal to its width, so that it never shrinks.
- The legacy bricks carry row, column and a false special flag that the legacy dictionaries
  do not have. Nothing in the legacy tick reads them.
- GameEngine.Valid: the paddle-width clause holds only for settings whose initial width is at
  or above the floor and whose step is non-negative. With other settings `shrink` can widen
  the paddle, and no closed form is claimed.
- GameEngine.Update: its own contract says only that the settings are kept and the paddle
  stays well formed. What a tick does is stated by `UpdateOutsidePlay`,
  `UpdatePlayingKeepsHits`, `UpdatePlayingScore`, `UpdatePlayingBreaksBrick`,
  `UpdateClearsLastBrick`, `UpdatePlayingOutcome` and `UpdateKeepsValid`. The ball's motion in a playing tick is stated only through the
  contracts of `Balls.Move` and `CheckCollisions`; no lemma restates it for `Update`.
- Bricks.Layout: the column and row counts are natural numbers, as are those of
  `GameEngine.Config`. In the code a negative count
  makes `range` empty and gives an empty wall; that input is not modelled.
- Bricks.NewWall: the special-brick count is a natural number, as is the settings' one. In the code a negative count
  makes `random.sample` raise `ValueError`; that error path is not modelled.
- Bricks.CollisionDirection: it requires a brick of positive size. The code would divide by
  zero for a zero-size brick, and such a brick never collides.
