/** One gameplay frame, `Game::UpdateGameplay`, and the reset done when a
    game starts, `Game::Init`.

    Everything the C++ reads from raylib during a frame is an `Input`: the
    frame time, the keys held or pressed, and the two random draws that
    `SpawnEnemy` would make.  The square root is the parameter `sqrt`. */
module Game {
  import opened Geometry
  import opened State
  import opened Movement
  import opened Spawning
  import opened Enemies
  import opened Projectiles
  import opened Contact
  import opened GameOver
  import opened Attacks
  import opened Targeting
  import opened Seqs

  datatype Input = Input(
    dt: real,
    keys: Keys,
    enterPressed: bool,
    rightClickPressed: bool,
    spacePressed: bool,
    onePressed: bool,
    twoPressed: bool,
    side: Side,
    coord: int)

  /** The random draws are within the ranges `GetRandomValue` was given. */
  predicate ValidDraw(i: Input) {
    0 <= i.coord <= EdgeLength(i.side)
  }

  /** The timers at the top of a frame: the passive timer and the freeze
      cooldown only run while companion 1 is selected, the melee cooldown
      always; a cooldown only counts down while it is positive. */
  function TickTimers(pl: Player, dt: real): (r: Player)
    ensures r == pl.(passiveAttackTimer := r.passiveAttackTimer, freezeCooldown := r.freezeCooldown,
                     attackCooldown := r.attackCooldown)
    ensures pl.companion == MeleeCompanion ==>
              r.passiveAttackTimer == pl.passiveAttackTimer && r.freezeCooldown == pl.freezeCooldown
    ensures pl.companion == PassiveCompanion ==> r.passiveAttackTimer == pl.passiveAttackTimer + dt
    ensures pl.companion == PassiveCompanion && pl.freezeCooldown > 0.0 ==> r.freezeCooldown == pl.freezeCooldown - dt
    ensures pl.freezeCooldown <= 0.0 ==> r.freezeCooldown == pl.freezeCooldown
    ensures pl.attackCooldown > 0.0 ==> r.attackCooldown == pl.attackCooldown - dt
    ensures pl.attackCooldown <= 0.0 ==> r.attackCooldown == pl.attackCooldown
  {
    var pl1 := if pl.companion == PassiveCompanion then
                 pl.(passiveAttackTimer := pl.passiveAttackTimer + dt,
                     freezeCooldown := if pl.freezeCooldown > 0.0 then pl.freezeCooldown - dt else pl.freezeCooldown)
               else pl;
    pl1.(attackCooldown := if pl.attackCooldown > 0.0 then pl.attackCooldown - dt else pl.attackCooldown)
  }

  /** Keys 1 and 2 select the companion; 2 is checked last and wins. */
  function SelectCompanion(c: Companion, onePressed: bool, twoPressed: bool): (r: Companion)
    ensures twoPressed ==> r == PassiveCompanion
    ensures onePressed && !twoPressed ==> r == MeleeCompanion
    ensures !onePressed && !twoPressed ==> r == c
  {
    if twoPressed then PassiveCompanion else if onePressed then MeleeCompanion else c
  }

  /** The part of a frame before the attacks: timers, movement, camera,
      spawning, enemies, projectiles, contact damage and the defeat check. */
  function Simulate(w: World, i: Input, sqrt: real -> real): (r: World)
    requires ValidDraw(i)
    ensures r.inGame == w.inGame
    ensures w.gameOver ==> r.gameOver
    ensures r.player.health <= w.player.health
    ensures r.player.health <= 0 ==> r.gameOver
    ensures |r.enemies| <= |w.enemies| + 1
    ensures r.player.companion == w.player.companion
  {
    LateStages(EarlyStages(w, i, sqrt), i.dt, sqrt)
  }

  /** Timers, movement, camera and spawning: health, the flags and the
      defeat timer are untouched, and at most one enemy is added. */
  function EarlyStages(w: World, i: Input, sqrt: real -> real): (r: World)
    requires ValidDraw(i)
    ensures r.inGame == w.inGame && r.gameOver == w.gameOver && r.gameOverTimer == w.gameOverTimer
    ensures r.player.health == w.player.health && r.player.maxHealth == w.player.maxHealth
    ensures r.player.speed == w.player.speed && r.player.companion == w.player.companion
    ensures r.projectiles == w.projectiles
    ensures |w.enemies| <= |r.enemies| <= |w.enemies| + 1 && r.enemies[..|w.enemies|] == w.enemies
    ensures HalfScreenWidth <= r.camera.x <= MapSize.x - HalfScreenWidth
    ensures HalfScreenHeight <= r.camera.y <= MapSize.y - HalfScreenHeight
  {
    var w1 := w.(timeSinceLastSpawn := w.timeSinceLastSpawn + i.dt, player := TickTimers(w.player, i.dt));
    var w2 := w1.(player := UpdatePlayerMovement(w1.player, i.keys, i.dt, sqrt));
    var w3 := w2.(camera := CameraTarget(w2.player.position));
    UpdateEnemySpawning(w3, i.dt, i.side, i.coord)
  }

  /** The enemy, projectile, contact and defeat passes: no enemy is added,
      health never rises, and health at or below zero means game over. */
  function LateStages(w: World, dt: real, sqrt: real -> real): (r: World)
    ensures r.inGame == w.inGame && r.camera == w.camera
    ensures w.gameOver ==> r.gameOver
    ensures r.player.health <= w.player.health && r.player.maxHealth == w.player.maxHealth
    ensures r.player.speed == w.player.speed && r.player.companion == w.player.companion
    ensures r.player.health <= 0 ==> r.gameOver
    ensures |r.enemies| <= |w.enemies|
  {
    var w5 := UpdateEnemies(w, dt, sqrt);
    var w6 := UpdateProjectiles(w5, dt);
    var w7 := CheckPlayerEnemyCollisions(w6, sqrt);
    CheckGameOverCondition(w7, dt)
  }

  /** The attacks of the selected companion. */
  function Attack(w: World, i: Input, sqrt: real -> real): (r: World)
    ensures r == w.(enemies := r.enemies, projectiles := r.projectiles, player := r.player)
    ensures r.player == w.player.(attackCooldown := r.player.attackCooldown,
                                  passiveAttackTimer := r.player.passiveAttackTimer,
                                  freezeCooldown := r.player.freezeCooldown)
    ensures |r.enemies| == |w.enemies|
    ensures w.player.companion == MeleeCompanion ==> r.projectiles == w.projectiles
    ensures w.player.companion == PassiveCompanion ==> r.enemies == w.enemies
  {
    if w.player.companion == MeleeCompanion then HandleMeleeAttack(w, i.rightClickPressed)
    else HandleFreezeAttack(HandlePassiveAttack(w, sqrt), i.spacePressed, sqrt)
  }

  /** `UpdateGameplay`: once the game is over a frame does nothing but let
      ENTER leave for the menu; otherwise the frame runs in source order and
      ends with the companion choice and its attacks. */
  function UpdateGameplay(w: World, i: Input, sqrt: real -> real): (r: World)
    requires ValidDraw(i)
    ensures w.gameOver ==> r == w.(inGame := w.inGame && !i.enterPressed)
    ensures w.gameOver ==> r.gameOver
    ensures !w.gameOver ==> r.inGame == w.inGame
    ensures !w.gameOver ==> r.player.health <= w.player.health && |r.enemies| <= |w.enemies| + 1
    ensures !w.gameOver && r.player.health <= 0 ==> r.gameOver
    ensures !w.gameOver ==> r.player.companion == SelectCompanion(w.player.companion, i.onePressed, i.twoPressed)
  {
    if w.gameOver then
      if i.enterPressed then w.(inGame := false) else w
    else
      var s := Simulate(w, i, sqrt);
      var chosen := SelectCompanion(s.player.companion, i.onePressed, i.twoPressed);
      var a := Attack(s.(player := s.player.(companion := chosen)), i, sqrt);
      assert a.player.health == s.player.health && a.player.companion == chosen;
      a
  }

  /** `Init`: the player back at the centre with full health, no enemies or
      projectiles, the defeat timer at five seconds, the spawn timer and
      melee cooldown at zero and the camera on the player.  The companion,
      the passive timer and the freeze cooldown carry over. */
  function Init(w: World): (r: World)
    ensures r.player.position == MapCenter && r.player.health == w.player.maxHealth
    ensures r.enemies == [] && r.projectiles == [] && !r.gameOver
    ensures r.gameOverTimer == GameOverGrace && r.enemySpawnTimer == 0.0 && r.timeSinceLastSpawn == 0.0
    ensures r.player.attackCooldown == 0.0 && r.camera == MapCenter
    ensures r.player == w.player.(position := MapCenter, health := w.player.maxHealth, attackCooldown := 0.0)
    ensures r.inGame == w.inGame
  {
    var pl := w.player.(position := MapCenter, health := w.player.maxHealth, attackCooldown := 0.0);
    w.(player := pl, enemies := [], projectiles := [], gameOver := false, gameOverTimer := GameOverGrace,
       enemySpawnTimer := 0.0, timeSinceLastSpawn := 0.0, camera := CameraTarget(pl.position))
  }

  lemma InitIdempotent(w: World)
    ensures Init(Init(w)) == Init(w)
  {
  }

  /** Every enemy was spawned with 100 health and has not healed since. */
  predicate EnemiesOk(es: seq<Enemy>) {
    forall k :: 0 <= k < |es| ==> es[k].maxHealth == EnemyHealth && es[k].health <= EnemyHealth
  }

  /** Every live projectile is a freezing 40-damage shot from a companion. */
  predicate ProjectilesOk(ps: seq<Projectile>) {
    forall k :: 0 <= k < |ps| ==> ps[k].active && ps[k].isFreezing && ps[k].damage == ShotDamage
  }

  /** What holds of the world between frames of a running game. */
  predicate Inv(w: World) {
    && |w.enemies| <= MaxEnemies
    && EnemiesOk(w.enemies)
    && ProjectilesOk(w.projectiles)
    && w.player.maxHealth == PlayerHealth && w.player.health <= PlayerHealth
    && w.player.speed == PlayerSpeed
    && (w.player.health <= 0 ==> w.gameOver)
    && w.gameOverTimer <= GameOverGrace
    && HalfScreenWidth <= w.camera.x <= MapSize.x - HalfScreenWidth
    && HalfScreenHeight <= w.camera.y <= MapSize.y - HalfScreenHeight
  }

  /** A new game starts in a state where the invariant holds. */
  lemma InitEstablishesInv(w: World)
    requires w.player.maxHealth == PlayerHealth && w.player.speed == PlayerSpeed
    ensures Inv(Init(w))
  {
  }

  lemma NewGameIsValid()
    ensures Inv(Init(NewWorld())) && Init(NewWorld()).player.health == PlayerHealth
  {
    InitEstablishesInv(NewWorld());
  }

  lemma SpawningKeepsEnemies(w: World, dt: real, side: Side, coord: int)
    requires 0 <= coord <= EdgeLength(side)
    requires EnemiesOk(w.enemies) && |w.enemies| <= MaxEnemies
    ensures EnemiesOk(UpdateEnemySpawning(w, dt, side, coord).enemies)
    ensures |UpdateEnemySpawning(w, dt, side, coord).enemies| <= MaxEnemies
  {
    SpawningRespectsCap(w, dt, side, coord);
  }

  lemma EnemyPassKeepsEnemies(w: World, dt: real, sqrt: real -> real)
    requires EnemiesOk(w.enemies)
    ensures EnemiesOk(UpdateEnemies(w, dt, sqrt).enemies)
    ensures |UpdateEnemies(w, dt, sqrt).enemies| <= |w.enemies|
  {
    var r := UpdateEnemies(w, dt, sqrt);
    var idx := KeptIndices(w.enemies, IsLive);
    forall k | 0 <= k < |r.enemies|
      ensures r.enemies[k].maxHealth == EnemyHealth && r.enemies[k].health <= EnemyHealth
    {
      assert r.enemies[k] == EnemyStep(w.enemies[idx[k]], w.player.position, dt, sqrt);
    }
  }

  lemma ProjectilePassKeeps(w: World, dt: real)
    requires EnemiesOk(w.enemies) && ProjectilesOk(w.projectiles)
    ensures EnemiesOk(UpdateProjectiles(w, dt).enemies)
    ensures ProjectilesOk(UpdateProjectiles(w, dt).projectiles)
  {
    assert NonNegativeDamage(w.projectiles);
  }

  lemma AttackKeeps(w: World, i: Input, sqrt: real -> real)
    requires EnemiesOk(w.enemies) && ProjectilesOk(w.projectiles)
    ensures EnemiesOk(Attack(w, i, sqrt).enemies)
    ensures ProjectilesOk(Attack(w, i, sqrt).projectiles)
  {
    if w.player.companion == PassiveCompanion {
      var w1 := HandlePassiveAttack(w, sqrt);
      assert ProjectilesOk(w1.projectiles);
    } else {
      MeleeKeepsEnemies(w, i.rightClickPressed);
    }
  }

  lemma MeleeKeepsEnemies(w: World, pressed: bool)
    requires EnemiesOk(w.enemies)
    ensures EnemiesOk(HandleMeleeAttack(w, pressed).enemies)
  {
    if pressed && w.player.attackCooldown <= 0.0 {
      match Nearest(w.player.position, w.enemies, MeleeRadius)
      case Some(k) => DamageKeepsEnemies(w.enemies, k, MeleeDamage);
      case None =>
    }
  }

  /** Damaging one enemy keeps every enemy within its maximum of 100. */
  lemma DamageKeepsEnemies(es: seq<Enemy>, k: nat, damage: int)
    requires EnemiesOk(es) && k < |es| && 0 <= damage
    ensures EnemiesOk(es[k := es[k].(health := es[k].health - damage)])
  {
  }

  /** The simulation part of a frame keeps the invariant. */
  lemma SimulateKeepsInv(w: World, i: Input, sqrt: real -> real)
    requires Inv(w) && ValidDraw(i) && 0.0 <= i.dt
    ensures Inv(Simulate(w, i, sqrt))
  {
    EarlyStagesKeepInv(w, i, sqrt);
    LateStagesKeepInv(EarlyStages(w, i, sqrt), i.dt, sqrt);
  }

  /** The timers, movement, camera and spawning keep the invariant. */
  lemma EarlyStagesKeepInv(w: World, i: Input, sqrt: real -> real)
    requires Inv(w) && ValidDraw(i)
    ensures Inv(EarlyStages(w, i, sqrt))
  {
    var w1 := w.(timeSinceLastSpawn := w.timeSinceLastSpawn + i.dt, player := TickTimers(w.player, i.dt));
    var w2 := w1.(player := UpdatePlayerMovement(w1.player, i.keys, i.dt, sqrt));
    var w3 := w2.(camera := CameraTarget(w2.player.position));
    SpawningKeepsEnemies(w3, i.dt, i.side, i.coord);
  }

  /** The enemy, projectile, contact and defeat passes keep the invariant. */
  lemma LateStagesKeepInv(w: World, dt: real, sqrt: real -> real)
    requires Inv(w) && 0.0 <= dt
    ensures Inv(LateStages(w, dt, sqrt))
  {
    var w5 := UpdateEnemies(w, dt, sqrt);
    EnemyPassKeepsEnemies(w, dt, sqrt);
    var w6 := UpdateProjectiles(w5, dt);
    ProjectilePassKeeps(w5, dt);
    var w7 := CheckPlayerEnemyCollisions(w6, sqrt);
    assert w7.enemies == w6.enemies && w7.projectiles == w6.projectiles && w7.camera == w.camera;
    var r := CheckGameOverCondition(w7, dt);
    assert r.gameOverTimer <= GameOverGrace;
  }

  /** Every frame with a non-negative frame time keeps the invariant. */
  lemma FramePreservesInv(w: World, i: Input, sqrt: real -> real)
    requires Inv(w) && ValidDraw(i) && 0.0 <= i.dt
    ensures Inv(UpdateGameplay(w, i, sqrt))
  {
    if !w.gameOver {
      var s := Simulate(w, i, sqrt);
      SimulateKeepsInv(w, i, sqrt);
      var w9 := s.(player := s.player.(companion := SelectCompanion(s.player.companion, i.onePressed, i.twoPressed)));
      AttackKeeps(w9, i, sqrt);
    }
  }
}
