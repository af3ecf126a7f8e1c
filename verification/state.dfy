/** The entities of the gameplay screen and the world record that holds them:
    the `Enemy`, `Projectile` and `Player` structs, the map of `GameState`
    and the gameplay fields of the `Game` class. */
module State {
  import opened Geometry

  /** `(int)gamestate.mapSize.x` and `(int)gamestate.mapSize.y`. */
  const MapWidth: int := 10000
  const MapHeight: int := 10000

  /** `GameState::mapSize`, fixed at construction and never changed. */
  const MapSize := Vec2(MapWidth as real, MapHeight as real)

  const MapCenter := Vec2(MapSize.x / 2.0, MapSize.y / 2.0)

  /** The closed map rectangle `[0, mapSize.x] x [0, mapSize.y]`. */
  predicate InBounds(p: Vec2) {
    0.0 <= p.x <= MapSize.x && 0.0 <= p.y <= MapSize.y
  }

  /** An enemy.  The C++ struct also has a `velocity` that is never
      initialised nor read; it is left out. */
  datatype Enemy = Enemy(
    position: Vec2,
    active: bool,
    frozenTimer: real,
    health: int,
    maxHealth: int)

  const EnemyHealth: int := 100

  /** `Enemy(Vector2 pos)`. */
  function NewEnemy(pos: Vec2): (e: Enemy)
    ensures e.position == pos && e.active && e.frozenTimer == 0.0
    ensures e.health == e.maxHealth == EnemyHealth
  {
    Enemy(pos, true, 0.0, EnemyHealth, EnemyHealth)
  }

  datatype Projectile = Projectile(
    position: Vec2,
    velocity: Vec2,
    active: bool,
    isFreezing: bool,
    damage: int)

  /** `Projectile(pos, vel, freezing, dmg)`. */
  function NewProjectile(pos: Vec2, vel: Vec2, freezing: bool, dmg: int): (p: Projectile)
    ensures p.active
    ensures p.position == pos && p.velocity == vel && p.isFreezing == freezing && p.damage == dmg
  {
    Projectile(pos, vel, true, freezing, dmg)
  }

  /** `Player::selectedCompanion`: 0 selects the melee attack, 1 the passive
      volley together with the freeze shot. */
  datatype Companion = MeleeCompanion | PassiveCompanion

  datatype Player = Player(
    position: Vec2,
    velocity: Vec2,
    speed: real,
    companion: Companion,
    passiveAttackTimer: real,
    freezeCooldown: real,
    health: int,
    maxHealth: int,
    attackCooldown: real)

  const PlayerSpeed: real := 120.0
  const PlayerHealth: int := 100

  /** `Player()`. */
  function NewPlayer(): (pl: Player)
    ensures pl.position == Zero && pl.velocity == Zero && pl.speed == PlayerSpeed
    ensures pl.companion == MeleeCompanion
    ensures pl.health == pl.maxHealth == PlayerHealth
    ensures pl.passiveAttackTimer == 0.0 && pl.freezeCooldown == 0.0 && pl.attackCooldown == 0.0
  {
    Player(Zero, Zero, PlayerSpeed, MeleeCompanion, 0.0, 0.0, PlayerHealth, PlayerHealth, 0.0)
  }

  /** The gameplay state of `Game`: the camera target of its `GameState`,
      the player, the two entity vectors and the timers and flags that the
      gameplay update reads or writes. */
  datatype World = World(
    camera: Vec2,
    player: Player,
    enemies: seq<Enemy>,
    projectiles: seq<Projectile>,
    enemySpawnTimer: real,
    gameOverTimer: real,
    gameOver: bool,
    inGame: bool,
    timeSinceLastSpawn: real)

  const GameOverGrace: real := 5.0

  /** `Game()`: the player starts at the centre of the map, the camera target
      at the origin (it is first clamped by `Init`). */
  function NewWorld(): (w: World)
    ensures w.player == NewPlayer().(position := MapCenter) && InBounds(w.player.position)
    ensures w.enemies == [] && w.projectiles == []
    ensures w.camera == Zero && !w.gameOver && !w.inGame
    ensures w.enemySpawnTimer == 0.0 && w.timeSinceLastSpawn == 0.0 && w.gameOverTimer == GameOverGrace
  {
    World(Zero, NewPlayer().(position := MapCenter), [], [], 0.0, GameOverGrace, false, false, 0.0)
  }
}
