/** The defeat check, `Game::CheckGameOverCondition`: while there are more
    than 90 enemies (or health is at or below zero) the five second grace
    timer counts down, and the game is over once it reaches zero; any frame
    without the condition restarts the timer.  Within a frame the check runs
    after `CheckPlayerEnemyCollisions`, which already ends the game the
    moment health is at or below zero, so the grace period only ever delays
    the defeat by crowding. */
module GameOver {
  import opened State

  const CrowdLimit: int := 90

  predicate Overloaded(w: World) {
    |w.enemies| > CrowdLimit || w.player.health <= 0
  }

  function CheckGameOverCondition(w: World, dt: real): (r: World)
    ensures r == w.(gameOverTimer := r.gameOverTimer, gameOver := r.gameOver)
    ensures w.gameOver ==> r.gameOver
    ensures !Overloaded(w) ==> r.gameOverTimer == GameOverGrace && r.gameOver == w.gameOver
    ensures Overloaded(w) ==>
              r.gameOverTimer == w.gameOverTimer - dt && (r.gameOver <==> w.gameOver || r.gameOverTimer <= 0.0)
  {
    if Overloaded(w) then
      var t := w.gameOverTimer - dt;
      w.(gameOverTimer := t, gameOver := if t <= 0.0 then true else w.gameOver)
    else
      w.(gameOverTimer := GameOverGrace)
  }

  function Sum(dts: seq<real>): real {
    if dts == [] then 0.0 else dts[0] + Sum(dts[1..])
  }

  lemma SumNonNegative(dts: seq<real>)
    requires forall i :: 0 <= i < |dts| ==> 0.0 <= dts[i]
    ensures 0.0 <= Sum(dts)
  {
  }

  /** The check run over consecutive frames of length `dts` while nothing
      else changes. */
  function RunChecks(w: World, dts: seq<real>): (r: World)
    ensures r == w.(gameOverTimer := r.gameOverTimer, gameOver := r.gameOver)
    decreases |dts|
  {
    if dts == [] then w else RunChecks(CheckGameOverCondition(w, dts[0]), dts[1..])
  }

  /** While the condition persists the timer counts the elapsed time down,
      and the game is over exactly when the countdown has reached zero. */
  lemma {:induction false} OverloadCountsDown(w: World, dts: seq<real>)
    requires Overloaded(w)
    requires forall i :: 0 <= i < |dts| ==> 0.0 <= dts[i]
    requires dts != []
    ensures RunChecks(w, dts).gameOverTimer == w.gameOverTimer - Sum(dts)
    ensures RunChecks(w, dts).gameOver <==> w.gameOver || w.gameOverTimer - Sum(dts) <= 0.0
    decreases |dts|
  {
    var w' := CheckGameOverCondition(w, dts[0]);
    if |dts| > 1 {
      OverloadCountsDown(w', dts[1..]);
      SumNonNegative(dts[1..]);
    }
  }

  /** From a full grace period, no stretch of overload shorter than five
      seconds ends the game, and one of five seconds or more does. */
  lemma GracePeriod(w: World, dts: seq<real>)
    requires Overloaded(w) && !w.gameOver && w.gameOverTimer == GameOverGrace
    requires forall i :: 0 <= i < |dts| ==> 0.0 <= dts[i]
    requires dts != []
    ensures RunChecks(w, dts).gameOver <==> Sum(dts) >= GameOverGrace
  {
    OverloadCountsDown(w, dts);
  }
}
