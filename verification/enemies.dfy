/** The enemy pass, `Game::UpdateEnemies`: frozen enemies thaw, the others
    chase the player, then dead and inactive enemies are compacted away. */
module Enemies {
  import opened Geometry
  import opened State
  import opened Seqs

  const EnemySpeed: real := 110.0

  /** Enemies that survive the compaction at the end of the pass. */
  predicate IsLive(e: Enemy) { e.active && e.health > 0 }

  /** One enemy's update: an inactive enemy is skipped, a frozen one only
      counts its timer down, any other one moves towards `target`. */
  function EnemyStep(e: Enemy, target: Vec2, dt: real, sqrt: real -> real): (r: Enemy)
    ensures r.active == e.active && r.health == e.health && r.maxHealth == e.maxHealth
    ensures !e.active ==> r == e
    ensures e.active && e.frozenTimer > 0.0 ==> r == e.(frozenTimer := e.frozenTimer - dt)
    ensures e.active && e.frozenTimer <= 0.0 ==> r.frozenTimer == e.frozenTimer
    ensures e.position == target ==> r.position == target
  {
    if !e.active then e
    else if e.frozenTimer > 0.0 then e.(frozenTimer := e.frozenTimer - dt)
    else
      var dir := Normalize(Sub(target, e.position), sqrt);
      e.(position := Add(e.position, Scale(dir, EnemySpeed * dt)))
  }

  /** A chasing enemy moves by `110 * dt` along a unit vector that is
      parallel to the way to the player and points towards it. */
  lemma ChaseHeadsForPlayer(e: Enemy, target: Vec2, dt: real, sqrt: real -> real)
    requires IsSqrt(sqrt)
    requires e.active && e.frozenTimer <= 0.0 && e.position != target
    ensures var u := Normalize(Sub(target, e.position), sqrt);
            var d := Sub(target, e.position);
            EnemyStep(e, target, dt, sqrt).position == Add(e.position, Scale(u, EnemySpeed * dt))
            && LengthSq(u) == 1.0 && u.x * d.y == u.y * d.x && 0.0 < u.x * d.x + u.y * d.y
  {
    var d := Sub(target, e.position);
    assert d != Zero;
    NormalizeUnit(sqrt, d);
  }

  function StepAll(es: seq<Enemy>, target: Vec2, dt: real, sqrt: real -> real): (r: seq<Enemy>)
    ensures |r| == |es|
    ensures forall i :: 0 <= i < |es| ==> r[i] == EnemyStep(es[i], target, dt, sqrt)
  {
    seq(|es|, i requires 0 <= i < |es| => EnemyStep(es[i], target, dt, sqrt))
  }

  /** `UpdateEnemies`: every enemy takes its step, then exactly the enemies
      that are inactive or at health <= 0 are removed and the survivors keep
      their relative order. */
  function UpdateEnemies(w: World, dt: real, sqrt: real -> real): (r: World)
    ensures r == w.(enemies := r.enemies)
    ensures forall k :: 0 <= k < |r.enemies| ==> IsLive(r.enemies[k])
    ensures |r.enemies| <= |w.enemies|
    ensures var idx := KeptIndices(w.enemies, IsLive);
            |r.enemies| == |idx|
            && forall k :: 0 <= k < |idx| ==>
                 r.enemies[k] == EnemyStep(w.enemies[idx[k]], w.player.position, dt, sqrt)
  {
    var stepped := StepAll(w.enemies, w.player.position, dt, sqrt);
    KeptIndicesAgree(stepped, IsLive, w.enemies, IsLive);
    FilterAll(stepped, IsLive);
    w.(enemies := Filter(stepped, IsLive))
  }

  /** Spelled out: the survivors are the live enemies, each one stepped, in
      their original order, and no live enemy is dropped. */
  lemma UpdateEnemiesIsStableCompaction(w: World, dt: real, sqrt: real -> real)
    ensures var r := UpdateEnemies(w, dt, sqrt);
            var idx := KeptIndices(w.enemies, IsLive);
            (forall i :: 0 <= i < |w.enemies| ==> (IsLive(w.enemies[i]) <==> i in idx))
            && (forall k, l :: 0 <= k < l < |idx| ==> idx[k] < idx[l])
            && |r.enemies| <= |w.enemies|
            && ((forall i :: 0 <= i < |w.enemies| ==> IsLive(w.enemies[i])) ==> |r.enemies| == |w.enemies|)
  {
    var idx := KeptIndices(w.enemies, IsLive);
    FilterAll(w.enemies, IsLive);
  }
}
