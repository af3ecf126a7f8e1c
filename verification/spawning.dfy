/** Enemy spawning: `Game::UpdateEnemySpawning` and `Game::SpawnEnemy`.
    The two calls to `GetRandomValue` become the parameters `side` and
    `coord`. */
module Spawning {
  import opened Geometry
  import opened State

  /** `GetRandomValue(0, 3)`: 0 top, 1 right, 2 bottom, 3 left. */
  datatype Side = Top | Right | Bottom | Left

  const SpawnInterval: real := 1.5
  const MaxEnemies: int := 150

  /** The upper bound of the second random draw: the map width for the top
      and bottom edges, the map height for the left and right ones. */
  function EdgeLength(side: Side): int {
    match side
    case Top => MapWidth
    case Bottom => MapWidth
    case Right => MapHeight
    case Left => MapHeight
  }

  predicate OnEdge(p: Vec2) {
    p.x == 0.0 || p.x == MapSize.x || p.y == 0.0 || p.y == MapSize.y
  }

  /** Where `SpawnEnemy` places the new enemy. */
  function SpawnPosition(side: Side, coord: int): (p: Vec2)
    requires 0 <= coord <= EdgeLength(side)
    ensures InBounds(p) && OnEdge(p)
    ensures (side == Top || side == Bottom) ==> p.x == coord as real
    ensures (side == Left || side == Right) ==> p.y == coord as real
    ensures (side == Top ==> p.y == 0.0) && (side == Bottom ==> p.y == MapSize.y)
    ensures (side == Left ==> p.x == 0.0) && (side == Right ==> p.x == MapSize.x)
  {
    match side
    case Top => Vec2(coord as real, 0.0)
    case Right => Vec2(MapSize.x, coord as real)
    case Bottom => Vec2(coord as real, MapSize.y)
    case Left => Vec2(0.0, coord as real)
  }

  /** A freshly spawned enemy: on a map edge, active, at full health of 100
      and not frozen. */
  predicate FreshSpawn(e: Enemy) {
    e.active && e.health == 100 && e.maxHealth == 100 && e.frozenTimer == 0.0
    && InBounds(e.position) && OnEdge(e.position)
  }

  /** `SpawnEnemy`: appends one fresh enemy, leaving the others as they are. */
  function SpawnEnemy(es: seq<Enemy>, side: Side, coord: int): (r: seq<Enemy>)
    requires 0 <= coord <= EdgeLength(side)
    ensures |r| == |es| + 1 && r[..|es|] == es
    ensures FreshSpawn(r[|es|])
    ensures r[|es|] == NewEnemy(SpawnPosition(side, coord))
  {
    es + [NewEnemy(SpawnPosition(side, coord))]
  }

  /** `UpdateEnemySpawning`: the timer grows by `dt`; once it has reached the
      interval and fewer than 150 enemies are in the vector (dead ones not yet
      removed included), one enemy spawns and the timer restarts from zero. */
  function UpdateEnemySpawning(w: World, dt: real, side: Side, coord: int): (r: World)
    requires 0 <= coord <= EdgeLength(side)
    ensures r == w.(enemies := r.enemies, enemySpawnTimer := r.enemySpawnTimer)
    ensures w.enemySpawnTimer + dt >= SpawnInterval && |w.enemies| < MaxEnemies ==>
              |r.enemies| == |w.enemies| + 1 && r.enemies[..|w.enemies|] == w.enemies
              && FreshSpawn(r.enemies[|w.enemies|]) && r.enemySpawnTimer == 0.0
              && r.enemies[|w.enemies|] == NewEnemy(SpawnPosition(side, coord))
    ensures !(w.enemySpawnTimer + dt >= SpawnInterval && |w.enemies| < MaxEnemies) ==>
              r.enemies == w.enemies && r.enemySpawnTimer == w.enemySpawnTimer + dt
  {
    var timer := w.enemySpawnTimer + dt;
    if timer >= SpawnInterval && |w.enemies| < MaxEnemies then
      w.(enemies := SpawnEnemy(w.enemies, side, coord), enemySpawnTimer := 0.0)
    else
      w.(enemySpawnTimer := timer)
  }

  /** Spawning adds at most one enemy and never takes the population past
      the cap; the timer only restarts when an enemy actually spawns. */
  lemma SpawningRespectsCap(w: World, dt: real, side: Side, coord: int)
    requires 0 <= coord <= EdgeLength(side)
    requires |w.enemies| <= MaxEnemies
    ensures var r := UpdateEnemySpawning(w, dt, side, coord);
            |w.enemies| <= |r.enemies| <= |w.enemies| + 1 && |r.enemies| <= MaxEnemies
            && (r.enemySpawnTimer == 0.0 <==> |r.enemies| == |w.enemies| + 1 || w.enemySpawnTimer + dt == 0.0)
  {
  }
}
