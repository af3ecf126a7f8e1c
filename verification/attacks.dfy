/** The player's attacks: the melee hit of companion 0
    (`Game::HandleMeleeAttack`), and the passive volley and freeze shot of
    companion 1 (`Game::HandlePassiveAttack`, `Game::HandleFreezeAttack`).
    Whether the right mouse button or the space bar was pressed this frame
    is a parameter. */
module Attacks {
  import opened Geometry
  import opened State
  import opened Seqs
  import opened Targeting

  const MeleeRadius: real := 60.0
  const MeleeDamage: int := 30
  const MeleeCooldown: real := 0.5

  const PassiveInterval: real := 1.4
  const PassiveRadius: real := 250.0
  const PassiveTargets: nat := 3
  const PassiveSpeed: real := 250.0

  const FreezeRadius: real := 300.0
  const FreezeSpeed: real := 200.0
  const FreezeCooldown: real := 10.0

  /** Every projectile the companions fire freezes and deals 40 damage. */
  const ShotDamage: int := 40

  /** A shot from `from` towards `target` at `speed`. */
  function Aim(from: Vec2, target: Vec2, speed: real, sqrt: real -> real): (p: Projectile)
    ensures p.position == from && p.active && p.isFreezing && p.damage == ShotDamage
    ensures target == from ==> p.velocity == Zero
  {
    NewProjectile(from, Scale(Normalize(Sub(target, from), sqrt), speed), true, ShotDamage)
  }

  /** A shot at a distinct target flies at exactly `speed`, straight at it. */
  lemma AimPointsAtTarget(from: Vec2, target: Vec2, speed: real, sqrt: real -> real)
    requires IsSqrt(sqrt)
    requires target != from && 0.0 < speed
    ensures var v := Aim(from, target, speed, sqrt).velocity;
            var d := Sub(target, from);
            LengthSq(v) == speed * speed && v.x * d.y == v.y * d.x && 0.0 < v.x * d.x + v.y * d.y
  {
    var d := Sub(target, from);
    var u := Normalize(d, sqrt);
    assert d != Zero;
    NormalizeUnit(sqrt, d);
    var v := Scale(u, speed);
    assert LengthSq(v) == (u.x * u.x + u.y * u.y) * (speed * speed);
    assert v.x * d.y == (u.x * d.y) * speed;
    assert v.y * d.x == (u.y * d.x) * speed;
    assert v.x * d.x + v.y * d.y == (u.x * d.x + u.y * d.y) * speed;
    PositiveProduct(u.x * d.x + u.y * d.y, speed);
  }

  /** `HandleMeleeAttack`: when the button is pressed and the cooldown has
      run out, the nearest active enemy within 60 units loses 30 health and
      the cooldown restarts at 0.5 s; with no such enemy nothing happens. */
  function HandleMeleeAttack(w: World, pressed: bool): (r: World)
    ensures r == w.(enemies := r.enemies, player := w.player.(attackCooldown := r.player.attackCooldown))
    ensures |r.enemies| == |w.enemies|
    ensures !(pressed && w.player.attackCooldown <= 0.0) ==> r == w
    ensures pressed && w.player.attackCooldown <= 0.0 ==>
              (NoneWithin(w.player.position, w.enemies, MeleeRadius) ==> r == w)
              && forall k :: IsNearest(w.player.position, w.enemies, MeleeRadius, k) ==>
                   r.enemies == w.enemies[k := w.enemies[k].(health := w.enemies[k].health - MeleeDamage)]
                   && r.player.attackCooldown == MeleeCooldown
  {
    if pressed && w.player.attackCooldown <= 0.0 then
      match Nearest(w.player.position, w.enemies, MeleeRadius)
      case Some(k) =>
        NearestIsCharacterisedAll(w.player.position, w.enemies, MeleeRadius);
        w.(enemies := w.enemies[k := w.enemies[k].(health := w.enemies[k].health - MeleeDamage)],
           player := w.player.(attackCooldown := MeleeCooldown))
      case None =>
        NearestIsCharacterisedAll(w.player.position, w.enemies, MeleeRadius);
        w
    else w
  }

  lemma NearestIsCharacterisedAll(pos: Vec2, es: seq<Enemy>, radius: real)
    ensures forall k: nat :: Nearest(pos, es, radius) == Some(k) <==> IsNearest(pos, es, radius, k)
    ensures Nearest(pos, es, radius).None? <==> NoneWithin(pos, es, radius)
  {
    forall k: nat ensures Nearest(pos, es, radius) == Some(k) <==> IsNearest(pos, es, radius, k) {
      NearestIsCharacterised(pos, es, radius, k);
    }
    NearestIsCharacterised(pos, es, radius, 0);
  }

  /** `HandleFreezeAttack`: when space is pressed and the freeze cooldown has
      run out, one freezing shot at 200 units/s goes to the nearest active
      enemy within 300 units and the cooldown restarts at 10 s; with no such
      enemy nothing happens. */
  function HandleFreezeAttack(w: World, pressed: bool, sqrt: real -> real): (r: World)
    ensures r == w.(projectiles := r.projectiles, player := w.player.(freezeCooldown := r.player.freezeCooldown))
    ensures !(pressed && w.player.freezeCooldown <= 0.0) ==> r == w
    ensures pressed && w.player.freezeCooldown <= 0.0 ==>
              (NoneWithin(w.player.position, w.enemies, FreezeRadius) ==> r == w)
              && forall k :: IsNearest(w.player.position, w.enemies, FreezeRadius, k) ==>
                   r.projectiles == w.projectiles + [Aim(w.player.position, w.enemies[k].position, FreezeSpeed, sqrt)]
                   && r.player.freezeCooldown == FreezeCooldown
  {
    if pressed && w.player.freezeCooldown <= 0.0 then
      match Nearest(w.player.position, w.enemies, FreezeRadius)
      case Some(k) =>
        NearestIsCharacterisedAll(w.player.position, w.enemies, FreezeRadius);
        w.(projectiles := w.projectiles + [Aim(w.player.position, w.enemies[k].position, FreezeSpeed, sqrt)],
           player := w.player.(freezeCooldown := FreezeCooldown))
      case None =>
        NearestIsCharacterisedAll(w.player.position, w.enemies, FreezeRadius);
        w
    else w
  }

  /** Active enemies strictly within `radius` of `pos`. */
  function InReach(pos: Vec2, radius: real): Enemy -> bool {
    (e: Enemy) => e.active && Within(pos, e.position, radius)
  }

  /** The positions of the volley's candidates, in vector order. */
  function Candidates(pos: Vec2, es: seq<Enemy>): (c: seq<Vec2>)
    ensures var idx := KeptIndices(es, InReach(pos, PassiveRadius));
            |c| == |idx| && forall k :: 0 <= k < |c| ==> c[k] == es[idx[k]].position
  {
    var near := Filter(es, InReach(pos, PassiveRadius));
    seq(|near|, k requires 0 <= k < |near| => near[k].position)
  }

  /** The candidates are exactly the positions of the active enemies within
      250 units. */
  lemma CandidatesAreInReach(pos: Vec2, es: seq<Enemy>)
    ensures forall x :: x in Candidates(pos, es) ==> Within(pos, x, PassiveRadius)
    ensures forall j :: 0 <= j < |es| && es[j].active && Within(pos, es[j].position, PassiveRadius) ==>
              es[j].position in Candidates(pos, es)
  {
    var c := Candidates(pos, es);
    var idx := KeptIndices(es, InReach(pos, PassiveRadius));
    forall x | x in c ensures Within(pos, x, PassiveRadius) {
      var k :| 0 <= k < |c| && c[k] == x;
      assert InReach(pos, PassiveRadius)(es[idx[k]]);
    }
    forall j | 0 <= j < |es| && es[j].active && Within(pos, es[j].position, PassiveRadius)
      ensures es[j].position in c
    {
      assert InReach(pos, PassiveRadius)(es[j]);
      assert j in idx;
      var k :| 0 <= k < |idx| && idx[k] == j;
      assert c[k] == es[j].position;
    }
  }

  /** One shot per target, in order. */
  function Volley(from: Vec2, targets: seq<Vec2>, sqrt: real -> real): (ps: seq<Projectile>)
    ensures |ps| == |targets|
    ensures forall k :: 0 <= k < |ps| ==> ps[k] == Aim(from, targets[k], PassiveSpeed, sqrt)
  {
    seq(|targets|, k requires 0 <= k < |targets| => Aim(from, targets[k], PassiveSpeed, sqrt))
  }

  /** `HandlePassiveAttack`: once the timer reaches 1.4 s, a freezing shot
      at 250 units/s goes to each of the (up to three) nearest candidates,
      nearest first, and the timer restarts from zero whether or not
      anything was in reach. */
  function HandlePassiveAttack(w: World, sqrt: real -> real): (r: World)
    ensures r == w.(projectiles := r.projectiles, player := w.player.(passiveAttackTimer := r.player.passiveAttackTimer))
    ensures w.player.passiveAttackTimer < PassiveInterval ==> r == w
    ensures w.player.passiveAttackTimer >= PassiveInterval ==>
              && r.player.passiveAttackTimer == 0.0
              && |r.projectiles| == |w.projectiles| + MinInt(PassiveTargets, |Candidates(w.player.position, w.enemies)|)
              && exists chosen ::
                   && IsNearestSelection(w.player.position, Candidates(w.player.position, w.enemies), PassiveTargets, chosen)
                   && r.projectiles == w.projectiles + Volley(w.player.position, chosen, sqrt)
  {
    if w.player.passiveAttackTimer >= PassiveInterval then
      var pos := w.player.position;
      var sel := SelectNearest(pos, Candidates(pos, w.enemies), PassiveTargets);
      SelectNearestIsNearestSelection(pos, Candidates(pos, w.enemies), PassiveTargets);
      w.(projectiles := w.projectiles + Volley(pos, sel.0, sqrt),
         player := w.player.(passiveAttackTimer := 0.0))
    else w
  }
}
