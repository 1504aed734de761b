/** The game's state enumeration and the manager holding state, score and level. */
module GameStates {

  datatype GameState = Playing | WaitingToStart | Win | GameOver | Paused

  /** `GameStateManager`: the current state, the score and the level. */
  datatype Manager = Manager(state: GameState, score: int, level: int)

  /** A fresh manager: waiting for the launch, no points, first level. */
  function NewManager(): (m: Manager)
    ensures IsWaiting(m) && m.score == 0 && m.level == 1
  {
    Manager(WaitingToStart, 0, 1)
  }

  /** `set_state`: only the state changes. */
  function SetState(m: Manager, s: GameState): (r: Manager)
    ensures r.state == s && r.score == m.score && r.level == m.level
  {
    m.(state := s)
  }

  predicate IsPlaying(m: Manager) { m.state == Playing }

  predicate IsWaiting(m: Manager) { m.state == WaitingToStart }

  predicate IsWin(m: Manager) { m.state == Win }

  predicate IsGameOver(m: Manager) { m.state == GameOver }

  /** How many of the four state queries hold. */
  function QueriesHolding(m: Manager): nat {
    (if IsPlaying(m) then 1 else 0) + (if IsWaiting(m) then 1 else 0)
    + (if IsWin(m) then 1 else 0) + (if IsGameOver(m) then 1 else 0)
  }

  /** At most one query holds, and after `set_state(s)` exactly the query for `s` (if any) holds. */
  lemma StateQueriesExclusive(m: Manager, s: GameState)
    ensures QueriesHolding(m) <= 1
    ensures var r := SetState(m, s);
      && (IsPlaying(r) <==> s == Playing)
      && (IsWaiting(r) <==> s == WaitingToStart)
      && (IsWin(r) <==> s == Win)
      && (IsGameOver(r) <==> s == GameOver)
      && QueriesHolding(r) == (if s == Paused then 0 else 1)
  {
  }

  /** `add_score`: the score grows by exactly `points`; state and level are untouched. */
  function AddScore(m: Manager, points: int): (r: Manager)
    ensures r.score - m.score == points
    ensures points >= 0 ==> r.score >= m.score
    ensures r.state == m.state && r.level == m.level
  {
    m.(score := m.score + points)
  }

  /** Scores accumulate: two additions are one addition of the sum. */
  lemma AddScoreAccumulates(m: Manager, a: int, b: int)
    ensures AddScore(AddScore(m, a), b) == AddScore(m, a + b)
  {
  }

  /** `reset_score`: back to zero; state and level are untouched. */
  function ResetScore(m: Manager): (r: Manager)
    ensures r.score == 0 && r.state == m.state && r.level == m.level
  {
    m.(score := 0)
  }

  /** Resetting forgets every earlier addition. */
  lemma ResetScoreForgets(m: Manager, points: int)
    ensures ResetScore(AddScore(m, points)) == ResetScore(m)
  {
  }

  /** `next_level`: one level up and waiting for the launch; the score is kept. */
  function NextLevel(m: Manager): (r: Manager)
    ensures r.level == m.level + 1 && IsWaiting(r) && r.score == m.score
  {
    m.(level := m.level + 1, state := WaitingToStart)
  }

  /** `reset_level`: back to level one; state and score are kept. */
  function ResetLevel(m: Manager): (r: Manager)
    ensures r.level == 1 && r.state == m.state && r.score == m.score
  {
    m.(level := 1)
  }

  /** Whatever levels were climbed, resetting returns to the first one with nothing else lost. */
  lemma ResetLevelUndoesNextLevel(m: Manager)
    ensures ResetLevel(NextLevel(m)) == SetState(ResetLevel(m), WaitingToStart)
  {
  }
}
