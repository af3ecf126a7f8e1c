# Odium gameplay frame, modelled in Dafny

Odium is a top-down survival game built on raylib. Enemies spawn on the edges
of a 10000 × 10000 map and chase the player. The player fights back with one
of two companions:

- companion 0: a melee hit on the right mouse button;
- companion 1: a timed volley of freezing shots at up to three nearby
  enemies, plus a freeze shot on the space bar.

Running out of health ends the game in the same frame. More than 90 enemies
in the vector (dead ones not yet removed included) ends it once the crowd has
lasted through a five-second grace period.

This project models one gameplay frame of the `Game` class in `odium.cpp`,
the function `Game::UpdateGameplay` with every helper it calls, together with
`Game::Init` and the entity constructors. Everything is a pure function over
immutable records:

| module | models |
|---|---|
| `Geometry` | the vector arithmetic |
| `State` | the `Enemy`, `Projectile` and `Player` structs, the map and the `World` record of `Game`'s gameplay fields |
| `Movement` | `UpdatePlayerMovement` and `GameState::UpdateCamera` |
| `Spawning` | `UpdateEnemySpawning` and `SpawnEnemy` |
| `Enemies` | `UpdateEnemies` |
| `Projectiles` | `UpdateProjectiles` |
| `Contact` | `CheckPlayerEnemyCollisions` |
| `Targeting` | the minimum scan of the melee and freeze attacks, and the sort-and-take-three of the volley |
| `Attacks` | `HandleMeleeAttack`, `HandlePassiveAttack` and `HandleFreezeAttack` |
| `GameOver` | `CheckGameOverCondition` |
| `Game` | the frame, `Init`, and a world invariant every frame keeps |

## Modelling decisions

**Inputs are parameters.** raylib's per-frame inputs are fields of an
`Input` record:

- `GetFrameTime()` is the field `dt`.
- The W/S/A/D keys held are a `Keys` record.
- The presses of ENTER, the right mouse button, SPACE, 1 and 2 are booleans.
- The two `GetRandomValue` draws of `SpawnEnemy` are `side` and `coord`.

`ValidDraw` requires the draws to be in the ranges the calls were given.

**Square root is a parameter.** Positions and timers are `real`. Health
and damage are `int`. Normalising a direction divides by a square root, so
every function that normalises takes `sqrt: real -> real`. The lemmas about
directions assume `IsSqrt(sqrt)`: `sqrt(x)` is the non-negative root of
every non-negative `x`.

**Distances are compared squared.** `Within(a, b, r)` means
`DistSq(a, b) < r * r`. `Vector2Distance` is only ever compared strictly
against a non-negative radius or against another distance. The lemmas
`WithinIffDistanceBelow` and `CloserIff` show that squared comparisons
decide exactly as the square-root comparisons do.

**Loops and in-place updates are recursions.** Each loop over the entity
vectors becomes a left-to-right recursion. Later iterations see earlier
iterations' writes, as in the C++:

- the contact loop checks each enemy against the already pushed player;
- a projectile can hit an enemy an earlier projectile killed in the same
  pass, because that enemy is still active.

`std::remove_if` + `erase` is `Seqs.Filter`. `Seqs.KeptIndices` gives the
original index of every kept element.

**Tie order in the volley is one admissible choice.** `std::sort` is not
stable, so the order of equally distant candidates is unspecified.
`Targeting.SelectNearest` picks the earliest of equally near candidates.
The contract of `HandlePassiveAttack` promises only what every admissible
sort would give (`Targeting.IsNearestSelection`):

- `min(3, candidates)` targets, taken from the candidates;
- nearest first;
- none farther than any candidate left out.

## Notes on the code

- Enemies spawn on one of the four map edges.
- There is no separation between enemies.
- The defeat threshold is more than 90 enemies. The spawn cap is 150.
- Melee hits the single nearest enemy.
- The defeat check runs before the attacks of the same frame.
- The enemy pass runs after the frame's timers, movement, camera and
  spawning. The projectile pass and the attacks remove no enemies. So an
  enemy killed in one frame stays in the vector until the enemy pass of the
  next frame, and that frame's spawn cap still counts it.
- `timeSinceLastSpawn` is advanced every frame and reset by `Init`, but
  nothing reads it. `World` carries it all the same.

## Model

| member | source | states |
|---|---|---|
| State.NewEnemy | odium.cpp:23 | a new enemy is at the given position, active, not frozen, at 100 of 100 health |
| State.NewProjectile | odium.cpp:34-35 | a new projectile is active with the given position, velocity, freezing flag and damage |
| State.NewPlayer | odium.cpp:50-51 | a new player is at the origin, at rest, with speed 120, companion 0, 100 of 100 health and every timer at 0 |
| State.NewWorld | odium.cpp:110-114 | a new game has the player at the map centre (inside the map), no enemies or projectiles, is neither over nor in play, with the spawn timers at 0 and the defeat timer at 5 |
| Geometry.WithinIffDistanceBelow | odium.cpp:82-86 | comparing `Vector2Distance(a, b) < r` is the same as comparing the squared distance with `r * r`, for any radius `r >= 0` |
| Geometry.Normalize | odium.cpp:246-250 | a zero vector stays zero; with a positive length the result times that length is the input again; with no positive length the input is kept |
| Geometry.Clamp | odium.cpp:76-77 | the result is within the bounds, is the value itself when that is within them, and is the bound the value crossed otherwise |
| Geometry.NormalizeUnit | odium.cpp:246-250 | normalising a non-zero vector gives a unit vector, parallel to it and pointing the same way |
| Movement.Intent | odium.cpp:237-243 | the raw intent is zero exactly when no key is held; an axis is 0 exactly when neither of its keys is held; on each axis D beats A and S beats W, because they are checked later |
| Movement.UpdatePlayerMovement | odium.cpp:236-259 | after moving, the player is on the map; only position and velocity change; with no key held the velocity is zero and a player on the map stays put; each coordinate of the move `speed * dt` along the velocity is kept when on the map and otherwise stops at the edge it crossed |
| Movement.ClampToMap | odium.cpp:257-258 | each coordinate is kept when it lies on the map, and otherwise becomes the edge (0 or 10000) it crossed; the result is on the map |
| Movement.MovementIsNormalised | odium.cpp:246-254 | with a key held the velocity has length 1, is parallel to the intent and points the same way, and a move that stays on the map is exactly `speed * dt` along it |
| Movement.CameraTarget | odium.cpp:66-78 | the camera target lies in [400, 9600] × [300, 9700], and is the player position itself whenever that lies inside the rectangle |
| Movement.CameraTargetIdempotent | odium.cpp:76-77 | clamping an already clamped target changes nothing, and a coordinate beyond a bound goes to that bound |
| Spawning.SpawnPosition | odium.cpp:274-289 | the spawn point is on the edge the first draw names (y = 0 on top, x = 10000 on the right, y = 10000 at the bottom, x = 0 on the left), its other coordinate is the second draw, and it is inside the map |
| Spawning.SpawnEnemy | odium.cpp:271-292 | one enemy is appended and the others are untouched; the new enemy (constructor at odium.cpp:23) is active, at 100/100 health, not frozen, on a map edge, built from the spawn point of the two draws |
| Spawning.UpdateEnemySpawning | odium.cpp:261-269 | when the grown timer reaches 1.5 and fewer than 150 enemies are in the vector, exactly one fresh enemy spawns at the point of the two draws and the timer is 0; otherwise the enemies are unchanged and the timer has grown by `dt` |
| Spawning.SpawningRespectsCap | odium.cpp:265-268 | a frame adds at most one enemy and never takes the count above 150; the timer is 0 afterwards only if an enemy spawned (or it was 0 plus `dt` = 0) |
| Seqs.Filter | odium.cpp:323-324 | the `remove_if` and `erase` compaction keeps exactly the elements satisfying the predicate, in their original order, as listed by `KeptIndices` |
| Enemies.EnemyStep | odium.cpp:295-320 | an inactive enemy is untouched; a frozen one only loses `dt` off its timer; nothing changes health or activity |
| Enemies.ChaseHeadsForPlayer | odium.cpp:304-319 | a chasing enemy moves `110 * dt` along a unit vector pointing at the player |
| Enemies.UpdateEnemies | odium.cpp:294-325 | the survivors are exactly the enemies that are active with health > 0, each stepped, in their original order |
| Enemies.UpdateEnemiesIsStableCompaction | odium.cpp:322-324 | an enemy survives if and only if it is live, survivors keep strictly increasing original indices, and when all are live none is lost |
| Projectiles.FirstHit | odium.cpp:336-352 | the scan stops at the first active enemy closer than 30, and finds none only when no active enemy is that close |
| Projectiles.ApplyHit | odium.cpp:341-347 | a hit takes exactly the projectile's damage off the enemy, and a freezing one sets its frozen timer to 3 |
| Projectiles.ResolveProjectile | odium.cpp:328-359 | an active projectile moves by `velocity * dt`, stays active exactly when it hit nothing and is still on the map, and changes only the first enemy it hit |
| Projectiles.FirstHitIsUnique | odium.cpp:349-350 | there is only one first hit, so a projectile damages at most one enemy |
| Projectiles.ResolveAll | odium.cpp:328-359 | judged against the enemies as they were before the pass: each active projectile is moved and stays active exactly when it hit nothing and is on the map; each enemy loses the summed damage of the projectiles that hit it first and is frozen for 3 if any of them froze; with non-negative damage the total loss is at most the active projectiles' damage |
| Projectiles.UpdateProjectiles | odium.cpp:327-364 | the survivors are exactly the active projectiles that hit nothing and stay on the map, each moved, in their original order; every enemy takes exactly the damage and freezing of the projectiles that hit it first and none is removed; health only falls, by at most the damage the active projectiles carried |
| Projectiles.UpdateProjectilesCount | odium.cpp:361-363 | the pass never adds projectiles, and keeps them all exactly when every one survives |
| Contact.ContactStep | odium.cpp:368-388 | an active enemy closer than 40 costs exactly 5 health and may move the player (nothing else changes); any other enemy changes nothing |
| Contact.StackedContactDoesNotPush | odium.cpp:376-387 | an active enemy standing exactly on the player costs 5 health but leaves the player where it is, since the zero direction is not normalised |
| Contact.PushIsAwayFromEnemy | odium.cpp:376-387 | a contact with an enemy on a different point pushes the player exactly 20 units, parallel to the enemy-to-player direction and away from the enemy |
| Contact.ContactAll | odium.cpp:367-389 | over the whole loop health never rises, falls by a multiple of 5 and by at most 5 per active enemy, and falls by at least 5 when the first enemy touches |
| Contact.CheckPlayerEnemyCollisions | odium.cpp:366-395 | only the player's position and health and the flag change; the game is over after the pass exactly when it was before or health is at or below 0 |
| Contact.ContactCanLeaveMap | odium.cpp:386-387 | the push is not clamped: a player on the left edge touched from the right ends at x = -20, off the map |
| Targeting.Nearest | odium.cpp:402-413 | the scan returns the nearest active enemy strictly within the radius, the earliest of equally near ones, or nothing when none is within it |
| Targeting.NearestIsCharacterised | odium.cpp:405-413 | the scan returns `k` if and only if `k` is that nearest enemy, and returns nothing if and only if no active enemy is within the radius |
| Targeting.SelectNearest | odium.cpp:440-448 | sort-and-take-`n` yields as many points as `n` allows and the input has, nearest first, none farther than any point left over, and together with the rest exactly the input multiset |
| Targeting.SelectNearestIsNearestSelection | odium.cpp:441-448 | that selection is one an unstable sort followed by taking the first `n` can produce |
| Attacks.Aim | odium.cpp:489-501 | a companion shot starts at the player, is active and freezing with damage 40, and has zero velocity when aimed at the player's own position |
| Attacks.AimPointsAtTarget | odium.cpp:451-464 | a shot at a distinct target flies at exactly the given speed straight at it |
| Attacks.HandleMeleeAttack | odium.cpp:397-423 | only with the button pressed and the cooldown run out: the nearest active enemy within 60 (earliest on ties) loses 30 health and the cooldown becomes 0.5; with no such enemy nothing changes |
| Attacks.HandleFreezeAttack | odium.cpp:471-506 | only with space pressed and the freeze cooldown run out: one freezing 40-damage shot at 200 goes to the nearest active enemy within 300 and the cooldown becomes 10; with no such enemy nothing changes |
| Attacks.Candidates | odium.cpp:429-438 | the volley candidates are the positions of the active enemies within 250, in vector order |
| Attacks.CandidatesAreInReach | odium.cpp:431-438 | every candidate is within 250 and every active enemy within 250 is a candidate |
| Attacks.Volley | odium.cpp:448-465 | one shot per chosen target, in the chosen order, each a 250-speed freezing 40-damage shot from the player aimed at its target |
| Attacks.HandlePassiveAttack | odium.cpp:425-469 | once the timer reaches 1.4, exactly `min(3, candidates)` shots are appended, aimed at a nearest-first selection no farther than any candidate left out; the timer resets to 0 even with no target |
| GameOver.CheckGameOverCondition | odium.cpp:508-518 | under overload (more than 90 enemies or health at or below 0) the timer loses `dt` and the game ends once it reaches 0; otherwise the timer is back at exactly 5; a finished game stays finished |
| GameOver.OverloadCountsDown | odium.cpp:509-514 | over consecutive overloaded frames the timer loses their total time, and the game is over exactly when the countdown has reached 0 |
| GameOver.GracePeriod | odium.cpp:508-518 | from a full grace period, overload lasting less than 5 seconds never ends the game, and 5 seconds or more does |
| Game.TickTimers | odium.cpp:184-195 | the passive timer and freeze cooldown only run with companion 1; the melee cooldown always; a cooldown only counts down while positive |
| Game.SelectCompanion | odium.cpp:218-224 | key 2 wins over key 1; with neither pressed the companion is kept |
| Game.Simulate | odium.cpp:182-216 | the frame before the attacks never raises health, adds at most one enemy, keeps a finished game finished, and leaves the game over whenever health is at or below 0 |
| Game.EarlyStages | odium.cpp:185-204 | the timers, movement, camera and spawning leave health, the flags, the defeat timer and the projectiles alone, keep every enemy and add at most one, and put the camera inside its bounds |
| Game.LateStages | odium.cpp:207-216 | the enemy, projectile, contact and defeat passes add no enemy, never raise health, keep a finished game finished, and leave the game over whenever health is at or below 0 |
| Game.Attack | odium.cpp:226-233 | companion 0 never fires projectiles and companion 1 never damages enemies directly; only the cooldowns and timers of the player change |
| Game.UpdateGameplay | odium.cpp:174-234 | once the game is over a frame changes nothing but `inGame` on ENTER; otherwise health never rises, at most one enemy is added, health at or below 0 means game over, and the companion is the one keys 1 and 2 chose |
| Game.Init | odium.cpp:116-128 | the player is back at the centre with full health, there are no enemies or projectiles, the game is not over, the timers are reset and the camera is on the player; the companion and its timers carry over |
| Game.InitIdempotent | odium.cpp:116-128 | starting a game twice is the same as starting it once |
| Game.InitEstablishesInv | odium.cpp:116-128 | a started game satisfies the world invariant |
| Game.NewGameIsValid | odium.cpp:110-114 | the freshly constructed game, once started, satisfies the invariant with the player at 100 health |
| Game.FramePreservesInv | odium.cpp:174-234 | every frame with `dt >= 0` keeps the invariant: <= 150 enemies, no enemy above 100 health, only active freezing 40-damage projectiles, player health <= 100, game over whenever health <= 0, defeat timer <= 5, camera inside its bounds |

## Left out

- Rendering and UI (`DrawGameplay`, `DrawMinimap`, `DrawUI`, `DrawMainMenu`, `DrawSettings`), the window and frame loop (`Run`, `main`): output only.
- The menu and settings screens (`UpdateMainMenu`, `UpdateSettings`, `musicVolume`, `inSettings`, `SetMasterVolume`): UI and audio. Starting a game from the menu is `Init` plus setting `inGame`.
- The mouse world position computed in `HandleMeleeAttack` (odium.cpp:399): it is never used.
- `Enemy::velocity`: it is never initialised nor read.
- State.NewPlayer: `Player()` leaves `velocity` uninitialised; the model starts it at zero. This is harmless because `UpdatePlayerMovement` overwrites it (odium.cpp:237) before anything reads it.
- IEEE single-precision rounding: positions and timers are exact reals, and `(float)` conversions of the spawn coordinate are exact here.
- `sqrt` is a parameter. Properties about directions hold for any `sqrt` satisfying `IsSqrt`. The other properties hold for any `sqrt` at all.
- Contact.ContactAll: states that the loss is a multiple of 5, at most 5 per active enemy and at least 5 when the first enemy touches. It does not state the exact number of touches along the pushed path, which depends on the square roots.
- Contact.CheckPlayerEnemyCollisions: does not state where the player ends up after the pushes, only what else changes and when the game ends. `ContactCanLeaveMap` shows that the position is not clamped.
- Game.UpdateGameplay: relates a frame to its stages through the stages' own contracts. The whole-world invariant is stated separately by `FramePreservesInv`.
