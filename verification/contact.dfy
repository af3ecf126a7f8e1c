/** Contact damage, `Game::CheckPlayerEnemyCollisions`: every active enemy
    within 40 units of the player's current position costs 5 health and
    pushes the player 20 units away from it.  The push is not clamped, so
    contact can carry the player off the map. */
module Contact {
  import opened Geometry
  import opened State

  const ContactRadius: real := 40.0
  const ContactDamage: int := 5
  const PushDistance: real := 20.0

  predicate Touches(pl: Player, e: Enemy) {
    e.active && Within(pl.position, e.position, ContactRadius)
  }

  /** One iteration of the loop, against the already pushed player. */
  function ContactStep(pl: Player, e: Enemy, sqrt: real -> real): (r: Player)
    ensures r == pl.(position := r.position, health := r.health)
    ensures Touches(pl, e) ==> r.health == pl.health - ContactDamage
    ensures !Touches(pl, e) ==> r == pl
  {
    if Touches(pl, e) then
      var push := Normalize(Sub(pl.position, e.position), sqrt);
      pl.(health := pl.health - ContactDamage,
          position := Add(pl.position, Scale(push, PushDistance)))
    else pl
  }

  /** A contact pushes the player exactly 20 units, straight away from the
      enemy (when the two do not stand on the same point). */
  lemma PushIsAwayFromEnemy(pl: Player, e: Enemy, sqrt: real -> real)
    requires IsSqrt(sqrt)
    requires Touches(pl, e) && pl.position != e.position
    ensures var d := Sub(ContactStep(pl, e, sqrt).position, pl.position);
            var u := Sub(pl.position, e.position);
            LengthSq(d) == PushDistance * PushDistance && d.x * u.y == d.y * u.x && 0.0 < d.x * u.x + d.y * u.y
  {
    var u := Sub(pl.position, e.position);
    assert u != Zero;
    NormalizeUnit(sqrt, u);
    var n := Normalize(u, sqrt);
    var d := Sub(ContactStep(pl, e, sqrt).position, pl.position);
    assert d == Scale(n, PushDistance);
    assert LengthSq(d) == (n.x * n.x + n.y * n.y) * (PushDistance * PushDistance);
    assert d.x * u.y == (n.x * u.y) * PushDistance;
    assert d.y * u.x == (n.y * u.x) * PushDistance;
    assert d.x * u.x + d.y * u.y == (n.x * u.x + n.y * u.y) * PushDistance;
    PositiveProduct(n.x * u.x + n.y * u.y, PushDistance);
  }

  /** An enemy standing exactly on the player still costs 5 health, but the
      zero direction is not normalised, so the push adds nothing. */
  lemma StackedContactDoesNotPush(pl: Player, e: Enemy, sqrt: real -> real)
    requires Touches(pl, e) && pl.position == e.position
    ensures ContactStep(pl, e, sqrt).position == pl.position
    ensures ContactStep(pl, e, sqrt).health == pl.health - ContactDamage
  {
    assert Sub(pl.position, e.position) == Zero;
    NormalizeZero(sqrt);
    NoPushStays(pl.position, Normalize(Zero, sqrt));
  }

  /** A push along the zero vector moves nothing. */
  lemma NoPushStays(p: Vec2, push: Vec2)
    requires push == Zero
    ensures Add(p, Scale(push, PushDistance)) == p
  {
  }

  function ActiveCount(es: seq<Enemy>): nat {
    if es == [] then 0 else (if es[0].active then 1 else 0) + ActiveCount(es[1..])
  }

  /** The loop over the enemies: health falls by exactly 5 per contact and
      never rises, at most once per active enemy, and nothing but the
      position and health of the player changes. */
  function ContactAll(pl: Player, es: seq<Enemy>, sqrt: real -> real): (r: Player)
    ensures r == pl.(position := r.position, health := r.health)
    ensures r.health <= pl.health
    ensures (pl.health - r.health) % ContactDamage == 0
    ensures pl.health - r.health <= ContactDamage * ActiveCount(es)
    ensures ActiveCount(es) == 0 ==> r == pl
    ensures |es| > 0 && Touches(pl, es[0]) ==> r.health <= pl.health - ContactDamage
    decreases |es|
  {
    if es == [] then pl
    else ContactAll(ContactStep(pl, es[0], sqrt), es[1..], sqrt)
  }

  /** `CheckPlayerEnemyCollisions`: the contact loop, then game over as soon
      as health is at or below zero. */
  function CheckPlayerEnemyCollisions(w: World, sqrt: real -> real): (r: World)
    ensures r == w.(player := r.player, gameOver := r.gameOver)
    ensures r.player == w.player.(position := r.player.position, health := r.player.health)
    ensures r.player.health <= w.player.health
    ensures w.player.health - r.player.health <= ContactDamage * ActiveCount(w.enemies)
    ensures r.gameOver <==> w.gameOver || r.player.health <= 0
  {
    var pl := ContactAll(w.player, w.enemies, sqrt);
    w.(player := pl, gameOver := if pl.health <= 0 then true else w.gameOver)
  }

  /** The push is not followed by a clamp: a player standing on the left
      edge, touched by an enemy one unit to its right, ends up 20 units off
      the map. */
  lemma ContactCanLeaveMap(sqrt: real -> real)
    requires IsSqrt(sqrt)
    ensures var pl := NewPlayer().(position := Vec2(0.0, 5000.0));
            var e := NewEnemy(Vec2(1.0, 5000.0));
            InBounds(pl.position)
            && CheckPlayerEnemyCollisions(NewWorld().(player := pl, enemies := [e]), sqrt).player.position
               == Vec2(-20.0, 5000.0)
  {
    var pl := NewPlayer().(position := Vec2(0.0, 5000.0));
    var e := NewEnemy(Vec2(1.0, 5000.0));
    var d := Sub(pl.position, e.position);
    assert d == Vec2(-1.0, 0.0);
    assert LengthSq(d) == 1.0;
    var s := sqrt(1.0);
    assert s * s == 1.0 && 0.0 <= s;
    assert (s - 1.0) * (s + 1.0) == 0.0;
    ZeroProduct(s - 1.0, s + 1.0);
    assert Normalize(d, sqrt) == Vec2(-1.0, 0.0);
    assert Touches(pl, e);
    assert ContactAll(pl, [e], sqrt) == ContactAll(ContactStep(pl, e, sqrt), [], sqrt);
  }
}
