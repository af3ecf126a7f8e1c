/** The projectile pass, `Game::UpdateProjectiles`: every active projectile
    moves, damages at most one enemy (the first active one in vector order
    within 30 units), and projectiles that hit or leave the map are dropped.
    Enemies are never removed here, so an enemy killed in this pass stays in
    the vector, still active, until the enemy pass of the next frame, which
    runs after that frame's spawning. */
module Projectiles {
  import opened Geometry
  import opened State
  import opened Seqs

  const HitRadius: real := 30.0
  const FreezeDuration: real := 3.0

  predicate Hits(pos: Vec2, e: Enemy) {
    e.active && Within(pos, e.position, HitRadius)
  }

  /** `j` is the enemy the inner loop stops at: it is hit, and no enemy
      before it is. */
  predicate IsFirstHit(pos: Vec2, es: seq<Enemy>, j: int) {
    0 <= j < |es| && Hits(pos, es[j]) && forall i :: 0 <= i < j ==> !Hits(pos, es[i])
  }

  predicate NoHit(pos: Vec2, es: seq<Enemy>) {
    forall j :: 0 <= j < |es| ==> !Hits(pos, es[j])
  }

  function FirstHitFrom(pos: Vec2, es: seq<Enemy>, from: nat): (r: Option<nat>)
    requires from <= |es|
    ensures r.Some? ==> from <= r.value < |es| && Hits(pos, es[r.value])
                        && forall j :: from <= j < r.value ==> !Hits(pos, es[j])
    ensures r.None? ==> forall j :: from <= j < |es| ==> !Hits(pos, es[j])
    decreases |es| - from
  {
    if from == |es| then None
    else if Hits(pos, es[from]) then Some(from)
    else FirstHitFrom(pos, es, from + 1)
  }

  /** The scan of the inner loop: the first hit enemy, if there is one. */
  function FirstHit(pos: Vec2, es: seq<Enemy>): (r: Option<nat>)
    ensures r.Some? ==> IsFirstHit(pos, es, r.value)
    ensures r.None? ==> NoHit(pos, es)
  {
    FirstHitFrom(pos, es, 0)
  }

  /** A hit takes exactly the projectile's damage off the enemy and, for a
      freezing projectile, freezes it for three seconds. */
  function ApplyHit(e: Enemy, p: Projectile): (r: Enemy)
    ensures r.health == e.health - p.damage
    ensures r.frozenTimer == (if p.isFreezing then FreezeDuration else e.frozenTimer)
    ensures r == e.(health := r.health, frozenTimer := r.frozenTimer)
  {
    e.(health := e.health - p.damage,
       frozenTimer := if p.isFreezing then FreezeDuration else e.frozenTimer)
  }

  /** Where a projectile is after this frame's move. */
  function Moved(p: Projectile, dt: real): Vec2 {
    Add(p.position, Scale(p.velocity, dt))
  }

  /** `p` is active and, once moved, hits enemy `i` first. */
  predicate HitsFirst(p: Projectile, es: seq<Enemy>, dt: real, i: nat) {
    p.active && FirstHit(Moved(p, dt), es) == Some(i)
  }

  /** `p` is still active after the pass: it hit nothing and is on the map. */
  predicate Survives(p: Projectile, es: seq<Enemy>, dt: real) {
    p.active && NoHit(Moved(p, dt), es) && InBounds(Moved(p, dt))
  }

  function Surviving(es: seq<Enemy>, dt: real): Projectile -> bool {
    (p: Projectile) => Survives(p, es, dt)
  }

  /** The damage the projectiles of `ps` deal to enemy `i`, each hit
      judged against the enemies `es`. */
  function DamageTo(ps: seq<Projectile>, es: seq<Enemy>, dt: real, i: nat): int {
    if ps == [] then 0
    else (if HitsFirst(ps[0], es, dt, i) then ps[0].damage else 0) + DamageTo(ps[1..], es, dt, i)
  }

  /** Some freezing projectile of `ps` hits enemy `i`. */
  predicate FrozenBy(ps: seq<Projectile>, es: seq<Enemy>, dt: real, i: nat) {
    ps != [] && ((HitsFirst(ps[0], es, dt, i) && ps[0].isFreezing) || FrozenBy(ps[1..], es, dt, i))
  }

  datatype Resolution = Resolution(projectile: Projectile, enemies: seq<Enemy>)

  /** Two enemy vectors present the same targets: hits depend only on the
      positions and the activity of the enemies. */
  predicate SameTargets(es: seq<Enemy>, fs: seq<Enemy>) {
    |es| == |fs| && forall i :: 0 <= i < |es| ==> es[i].position == fs[i].position && es[i].active == fs[i].active
  }

  /** One iteration of the outer loop. */
  function ResolveProjectile(p: Projectile, es: seq<Enemy>, dt: real): (r: Resolution)
    ensures |r.enemies| == |es|
    ensures !p.active ==> r == Resolution(p, es)
    ensures p.active ==>
              && r.projectile == p.(position := Moved(p, dt), active := r.projectile.active)
              && (r.projectile.active <==> NoHit(Moved(p, dt), es) && InBounds(Moved(p, dt)))
              && (NoHit(Moved(p, dt), es) ==> r.enemies == es)
              && (forall j {:trigger IsFirstHit(Moved(p, dt), es, j)} ::
                    IsFirstHit(Moved(p, dt), es, j) ==> r.enemies == es[j := ApplyHit(es[j], p)])
    ensures forall i :: 0 <= i < |es| ==>
              r.enemies[i] == if HitsFirst(p, es, dt, i) then ApplyHit(es[i], p) else es[i]
  {
    if !p.active then Resolution(p, es)
    else
      var moved := Moved(p, dt);
      match FirstHit(moved, es)
      case Some(j) =>
        Resolution(p.(position := moved, active := false), es[j := ApplyHit(es[j], p)])
      case None =>
        Resolution(p.(position := moved, active := InBounds(moved)), es)
  }

  /** The first hit is unique, so together with `ResolveProjectile` a
      projectile changes at most one enemy. */
  lemma FirstHitIsUnique(pos: Vec2, es: seq<Enemy>, j: int, k: int)
    requires IsFirstHit(pos, es, j) && IsFirstHit(pos, es, k)
    ensures j == k
  {
  }

  lemma {:induction false} FirstHitFromAgrees(pos: Vec2, es: seq<Enemy>, fs: seq<Enemy>, from: nat)
    requires SameTargets(es, fs) && from <= |es|
    ensures FirstHitFrom(pos, es, from) == FirstHitFrom(pos, fs, from)
    decreases |es| - from
  {
    if from < |es| {
      assert Hits(pos, es[from]) == Hits(pos, fs[from]);
      FirstHitFromAgrees(pos, es, fs, from + 1);
    }
  }

  /** Enemy vectors with the same targets get the same hits, so the damage
      and the freezing the later projectiles deal do not depend on what
      earlier projectiles did to the enemies' health. */
  lemma {:induction false} TargetsAgree(ps: seq<Projectile>, es: seq<Enemy>, fs: seq<Enemy>, dt: real, i: nat)
    requires SameTargets(es, fs)
    ensures DamageTo(ps, es, dt, i) == DamageTo(ps, fs, dt, i)
    ensures FrozenBy(ps, es, dt, i) == FrozenBy(ps, fs, dt, i)
    ensures forall p :: Survives(p, es, dt) == Survives(p, fs, dt)
    decreases |ps|
  {
    forall p ensures Survives(p, es, dt) == Survives(p, fs, dt) {
      assert forall j :: 0 <= j < |es| ==> Hits(Moved(p, dt), es[j]) == Hits(Moved(p, dt), fs[j]);
    }
    if ps != [] {
      FirstHitFromAgrees(Moved(ps[0], dt), es, fs, 0);
      TargetsAgree(ps[1..], es, fs, dt, i);
    }
  }

  function TotalHealth(es: seq<Enemy>): int {
    if es == [] then 0 else es[0].health + TotalHealth(es[1..])
  }

  /** The damage carried by the active projectiles. */
  function ActiveDamage(ps: seq<Projectile>): int {
    if ps == [] then 0 else (if ps[0].active then ps[0].damage else 0) + ActiveDamage(ps[1..])
  }

  predicate NonNegativeDamage(ps: seq<Projectile>) {
    forall k :: 0 <= k < |ps| ==> ps[k].damage >= 0
  }

  lemma {:induction false} TotalHealthUpdate(es: seq<Enemy>, j: int, e: Enemy)
    requires 0 <= j < |es|
    ensures TotalHealth(es[j := e]) == TotalHealth(es) - es[j].health + e.health
    decreases |es|
  {
    if j == 0 {
      assert es[j := e][1..] == es[1..];
    } else {
      assert es[j := e][1..] == es[1..][j - 1 := e];
      TotalHealthUpdate(es[1..], j - 1, e);
    }
  }

  /** The resolved form of one projectile: untouched when inactive,
      otherwise moved and still active exactly when it survives. */
  function Resolved(p: Projectile, es: seq<Enemy>, dt: real): Projectile {
    if p.active then p.(position := Moved(p, dt), active := Survives(p, es, dt)) else p
  }

  /** The resolved form of one enemy: every hit's damage subtracted, and
      frozen for three seconds if any freezing projectile hit it. */
  function Damaged(ps: seq<Projectile>, es: seq<Enemy>, dt: real, i: nat): Enemy
    requires i < |es|
  {
    es[i].(health := es[i].health - DamageTo(ps, es, dt, i),
           frozenTimer := if FrozenBy(ps, es, dt, i) then FreezeDuration else es[i].frozenTimer)
  }

  /** The whole outer loop, before the inactive projectiles are erased.
      Every projectile's fate and every enemy's damage are stated against
      the enemies as they were before the pass. */
  function ResolveAll(ps: seq<Projectile>, es: seq<Enemy>, dt: real): (r: (seq<Projectile>, seq<Enemy>))
    ensures |r.0| == |ps| && |r.1| == |es|
    ensures forall k :: 0 <= k < |ps| ==> r.0[k] == Resolved(ps[k], es, dt)
    ensures forall i :: 0 <= i < |es| ==> r.1[i] == Damaged(ps, es, dt, i)
    ensures NonNegativeDamage(ps) ==>
              (forall i :: 0 <= i < |es| ==> r.1[i].health <= es[i].health)
              && 0 <= TotalHealth(es) - TotalHealth(r.1) <= ActiveDamage(ps)
    decreases |ps|
  {
    if ps == [] then ([], es)
    else
      var first := ResolveProjectile(ps[0], es, dt);
      var rest := ResolveAll(ps[1..], first.enemies, dt);
      ResolveStepFacts(ps[0], es, dt);
      ResolveStepAgrees(ps, es, dt);
      ([first.projectile] + rest.0, rest.1)
  }

  /** Resolving the rest of the projectiles against the enemies the first
      one left behind is the same as resolving them against the original
      enemies. */
  lemma ResolveStepAgrees(ps: seq<Projectile>, es: seq<Enemy>, dt: real)
    requires ps != []
    ensures var fs := ResolveProjectile(ps[0], es, dt).enemies;
            && (forall i :: 0 <= i < |es| ==> Damaged(ps[1..], fs, dt, i) == Damaged(ps, es, dt, i))
            && (forall p :: Resolved(p, fs, dt) == Resolved(p, es, dt))
  {
    var fs := ResolveProjectile(ps[0], es, dt).enemies;
    assert SameTargets(es, fs);
    forall i | 0 <= i < |es| ensures Damaged(ps[1..], fs, dt, i) == Damaged(ps, es, dt, i) {
      TargetsAgree(ps[1..], es, fs, dt, i);
    }
    TargetsAgree(ps[1..], es, fs, dt, 0);
  }

  /** What one iteration does to the enemies, in the terms `ResolveAll`
      accumulates. */
  lemma ResolveStepFacts(p: Projectile, es: seq<Enemy>, dt: real)
    ensures var r := ResolveProjectile(p, es, dt);
            (p.damage >= 0 ==>
                  (forall i :: 0 <= i < |es| ==> r.enemies[i].health <= es[i].health)
                  && 0 <= TotalHealth(es) - TotalHealth(r.enemies) <= (if p.active then p.damage else 0))
  {
    var r := ResolveProjectile(p, es, dt);
    if p.active {
      var h := FirstHit(Moved(p, dt), es);
      if h.Some? {
        TotalHealthUpdate(es, h.value, ApplyHit(es[h.value], p));
      }
    }
  }

  predicate IsActive(p: Projectile) { p.active }

  /** `UpdateProjectiles`: resolve every projectile in order, then erase the
      inactive ones.  The survivors are exactly the active projectiles that
      hit nothing and stay on the map, moved, in their original order; every
      enemy takes the damage of the projectiles that hit it first, and none
      is removed. */
  function UpdateProjectiles(w: World, dt: real): (r: World)
    ensures r == w.(projectiles := r.projectiles, enemies := r.enemies)
    ensures var idx := KeptIndices(w.projectiles, Surviving(w.enemies, dt));
            |r.projectiles| == |idx|
            && forall k :: 0 <= k < |idx| ==>
                 r.projectiles[k] == w.projectiles[idx[k]].(position := Moved(w.projectiles[idx[k]], dt))
    ensures forall k :: 0 <= k < |r.projectiles| ==>
              r.projectiles[k].active && InBounds(r.projectiles[k].position)
    ensures |r.enemies| == |w.enemies|
    ensures forall i :: 0 <= i < |w.enemies| ==> r.enemies[i] == Damaged(w.projectiles, w.enemies, dt, i)
    ensures NonNegativeDamage(w.projectiles) ==>
              (forall i :: 0 <= i < |w.enemies| ==> r.enemies[i].health <= w.enemies[i].health)
              && 0 <= TotalHealth(w.enemies) - TotalHealth(r.enemies) <= ActiveDamage(w.projectiles)
  {
    var res := ResolveAll(w.projectiles, w.enemies, dt);
    KeptIndicesAgree(res.0, IsActive, w.projectiles, Surviving(w.enemies, dt));
    w.(projectiles := Filter(res.0, IsActive), enemies := res.1)
  }

  /** The number of projectiles never grows, and it stays the same exactly
      when every projectile survives. */
  lemma UpdateProjectilesCount(w: World, dt: real)
    ensures |UpdateProjectiles(w, dt).projectiles| <= |w.projectiles|
    ensures |UpdateProjectiles(w, dt).projectiles| == |w.projectiles| <==>
              forall k :: 0 <= k < |w.projectiles| ==> Survives(w.projectiles[k], w.enemies, dt)
  {
    var s, keep := w.projectiles, Surviving(w.enemies, dt);
    var idx := KeptIndices(s, keep);
    assert |UpdateProjectiles(w, dt).projectiles| == |idx|;
    FilterAll(s, keep);
    assert |Filter(s, keep)| == |idx|;
    if |idx| == |s| {
      KeptAllIndices(s, keep);
      forall k | 0 <= k < |s| ensures Survives(s[k], w.enemies, dt) {
        assert keep(s[k]);
      }
    } else {
      assert !(forall i :: 0 <= i < |s| ==> keep(s[i]));
    }
  }
}
