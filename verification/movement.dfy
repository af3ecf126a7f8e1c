/** Player movement (`Game::UpdatePlayerMovement`) and the camera that follows
    the player (`GameState::UpdateCamera`). */
module Movement {
  import opened Geometry
  import opened State

  /** The movement keys held this frame: W, S, A, D. */
  datatype Keys = Keys(up: bool, down: bool, left: bool, right: bool)

  predicate AnyHeld(k: Keys) { k.up || k.down || k.left || k.right }

  /** The raw movement intent.  Each axis is set by the keys in the order W, S
      (and A, D), so when both keys of an axis are held the later one wins. */
  function Intent(k: Keys): (v: Vec2)
    ensures v == Zero <==> !AnyHeld(k)
    ensures v.x == 1.0 <==> k.right
    ensures v.x == -1.0 <==> k.left && !k.right
    ensures v.y == 1.0 <==> k.down
    ensures v.y == -1.0 <==> k.up && !k.down
    ensures v.x == 0.0 <==> !k.left && !k.right
    ensures v.y == 0.0 <==> !k.up && !k.down
  {
    Vec2(if k.right then 1.0 else if k.left then -1.0 else 0.0,
         if k.down then 1.0 else if k.up then -1.0 else 0.0)
  }

  /** One frame of player movement: the intent is normalised, the player
      moves `speed * dt` along it, and a coordinate that would leave the map
      stops at the edge it crossed. */
  function UpdatePlayerMovement(pl: Player, k: Keys, dt: real, sqrt: real -> real): (r: Player)
    ensures InBounds(r.position)
    ensures r == pl.(position := r.position, velocity := r.velocity)
    ensures !AnyHeld(k) ==> r.velocity == Zero
    ensures !AnyHeld(k) && InBounds(pl.position) ==> r.position == pl.position
    ensures var m := Add(pl.position, Scale(r.velocity, pl.speed * dt));
            && (m.x < 0.0 ==> r.position.x == 0.0)
            && (m.x > MapSize.x ==> r.position.x == MapSize.x)
            && (0.0 <= m.x <= MapSize.x ==> r.position.x == m.x)
            && (m.y < 0.0 ==> r.position.y == 0.0)
            && (m.y > MapSize.y ==> r.position.y == MapSize.y)
            && (0.0 <= m.y <= MapSize.y ==> r.position.y == m.y)
  {
    var v := Normalize(Intent(k), sqrt);
    var moved := Add(pl.position, Scale(v, pl.speed * dt));
    assert !AnyHeld(k) ==> v == Zero && moved == pl.position;
    pl.(velocity := v, position := ClampToMap(moved))
  }

  /** Each coordinate clamped to the map, as `std::max(0, std::min(size, c))`. */
  function ClampToMap(m: Vec2): (c: Vec2)
    ensures InBounds(c)
    ensures (m.x < 0.0 ==> c.x == 0.0) && (m.x > MapSize.x ==> c.x == MapSize.x)
            && (0.0 <= m.x <= MapSize.x ==> c.x == m.x)
    ensures (m.y < 0.0 ==> c.y == 0.0) && (m.y > MapSize.y ==> c.y == MapSize.y)
            && (0.0 <= m.y <= MapSize.y ==> c.y == m.y)
  {
    Vec2(Clamp(0.0, MapSize.x, m.x), Clamp(0.0, MapSize.y, m.y))
  }

  /** With any movement key held the velocity is a unit vector along the
      intent, and a move that stays on the map is exactly `speed * dt` along it. */
  lemma MovementIsNormalised(pl: Player, k: Keys, dt: real, sqrt: real -> real)
    requires IsSqrt(sqrt)
    requires AnyHeld(k)
    ensures var v := UpdatePlayerMovement(pl, k, dt, sqrt).velocity;
            LengthSq(v) == 1.0 && v.x * Intent(k).y == v.y * Intent(k).x && 0.0 < v.x * Intent(k).x + v.y * Intent(k).y
    ensures var r := UpdatePlayerMovement(pl, k, dt, sqrt);
            InBounds(Add(pl.position, Scale(r.velocity, pl.speed * dt))) ==>
            r.position == Add(pl.position, Scale(r.velocity, pl.speed * dt))
  {
    MoveOnMapIsExact(pl, k, dt, sqrt);
    NormalizeUnit(sqrt, Intent(k));
  }

  lemma MoveOnMapIsExact(pl: Player, k: Keys, dt: real, sqrt: real -> real)
    ensures var r := UpdatePlayerMovement(pl, k, dt, sqrt);
            InBounds(Add(pl.position, Scale(r.velocity, pl.speed * dt))) ==>
            r.position == Add(pl.position, Scale(r.velocity, pl.speed * dt))
  {
    var r := UpdatePlayerMovement(pl, k, dt, sqrt);
    var m := Add(pl.position, Scale(r.velocity, pl.speed * dt));
    if InBounds(m) {
      assert r.position.x == m.x && r.position.y == m.y;
    }
  }

  const HalfScreenWidth: real := 400.0
  const HalfScreenHeight: real := 300.0

  /** The camera target: the player position clamped so that the screen
      never shows anything beyond the map. */
  function CameraTarget(p: Vec2): (c: Vec2)
    ensures HalfScreenWidth <= c.x <= MapSize.x - HalfScreenWidth
    ensures HalfScreenHeight <= c.y <= MapSize.y - HalfScreenHeight
    ensures (HalfScreenWidth <= p.x <= MapSize.x - HalfScreenWidth &&
             HalfScreenHeight <= p.y <= MapSize.y - HalfScreenHeight) ==> c == p
  {
    Vec2(Clamp(HalfScreenWidth, MapSize.x - HalfScreenWidth, p.x),
         Clamp(HalfScreenHeight, MapSize.y - HalfScreenHeight, p.y))
  }

  /** Following an already clamped target does not move the camera again,
      and the clamp moves each coordinate to the nearest admissible value. */
  lemma CameraTargetIdempotent(p: Vec2)
    ensures CameraTarget(CameraTarget(p)) == CameraTarget(p)
    ensures p.x < HalfScreenWidth ==> CameraTarget(p).x == HalfScreenWidth
    ensures p.x > MapSize.x - HalfScreenWidth ==> CameraTarget(p).x == MapSize.x - HalfScreenWidth
    ensures p.y < HalfScreenHeight ==> CameraTarget(p).y == HalfScreenHeight
    ensures p.y > MapSize.y - HalfScreenHeight ==> CameraTarget(p).y == MapSize.y - HalfScreenHeight
  {
  }
}
