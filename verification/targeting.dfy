/** Target selection for the player's attacks.

    `HandleMeleeAttack` and `HandleFreezeAttack` scan the enemy vector with a
    running minimum that starts at the attack radius and is only replaced by
    a strictly smaller distance, so the nearest active enemy within the
    radius wins and, among equally near ones, the earliest in the vector.
    `HandlePassiveAttack` collects the active enemies within 250 units,
    sorts them by distance and takes up to three.  `std::sort` is not
    stable, so among equally near candidates the order is unspecified; the
    model picks the earliest, and its contract is stated up to ties.

    Distances are compared squared; `CloserIff` and `WithinIffDistanceBelow`
    in `Geometry` show that this agrees with comparing square roots. */
module Targeting {
  import opened Geometry
  import opened State
  import opened Seqs

  /** `k` is the target of a minimum scan with radius `radius` over the
      first `n` enemies: an active enemy strictly inside the radius, no
      farther than any active enemy, and strictly nearer than every active
      enemy before it. */
  predicate IsNearestIn(pos: Vec2, es: seq<Enemy>, radius: real, k: int, n: int)
    requires n <= |es|
  {
    0 <= k < n && es[k].active && Within(pos, es[k].position, radius)
    && (forall j :: 0 <= j < n && es[j].active ==> DistSq(pos, es[k].position) <= DistSq(pos, es[j].position))
    && (forall j :: 0 <= j < k && es[j].active ==> DistSq(pos, es[k].position) < DistSq(pos, es[j].position))
  }

  /** No active enemy among the first `n` is strictly inside the radius. */
  predicate NoneWithinIn(pos: Vec2, es: seq<Enemy>, radius: real, n: int)
    requires n <= |es|
  {
    forall j :: 0 <= j < n && es[j].active ==> !Within(pos, es[j].position, radius)
  }

  predicate IsNearest(pos: Vec2, es: seq<Enemy>, radius: real, k: int) {
    IsNearestIn(pos, es, radius, k, |es|)
  }

  predicate NoneWithin(pos: Vec2, es: seq<Enemy>, radius: real) {
    NoneWithinIn(pos, es, radius, |es|)
  }

  /** The current minimum distance of the scan, squared. */
  function Bound(pos: Vec2, es: seq<Enemy>, radius: real, best: Option<nat>): real
    requires best.Some? ==> best.value < |es|
  {
    if best.None? then radius * radius else DistSq(pos, es[best.value].position)
  }

  /** The scan from enemy `i` on, with `best` the target found so far. */
  function NearestFrom(pos: Vec2, es: seq<Enemy>, radius: real, i: nat, best: Option<nat>): (r: Option<nat>)
    requires i <= |es|
    requires best.Some? ==> IsNearestIn(pos, es, radius, best.value, i)
    requires best.None? ==> NoneWithinIn(pos, es, radius, i)
    ensures r.Some? ==> IsNearestIn(pos, es, radius, r.value, |es|)
    ensures r.None? ==> NoneWithinIn(pos, es, radius, |es|)
    decreases |es| - i
  {
    if i == |es| then best
    else if es[i].active && DistSq(pos, es[i].position) < Bound(pos, es, radius, best) then
      NearestFrom(pos, es, radius, i + 1, Some(i))
    else
      NearestFrom(pos, es, radius, i + 1, best)
  }

  /** The target of the scan, if there is one. */
  function Nearest(pos: Vec2, es: seq<Enemy>, radius: real): (r: Option<nat>)
    ensures r.Some? ==> IsNearest(pos, es, radius, r.value)
    ensures r.None? ==> NoneWithin(pos, es, radius)
  {
    NearestFrom(pos, es, radius, 0, None)
  }

  lemma NearestIsUnique(pos: Vec2, es: seq<Enemy>, radius: real, k: int, l: int)
    requires IsNearest(pos, es, radius, k) && IsNearest(pos, es, radius, l)
    ensures k == l
  {
  }

  /** The scan finds exactly the nearest enemy, and finds nothing exactly
      when no active enemy is within the radius. */
  lemma NearestIsCharacterised(pos: Vec2, es: seq<Enemy>, radius: real, k: nat)
    ensures Nearest(pos, es, radius) == Some(k) <==> IsNearest(pos, es, radius, k)
    ensures Nearest(pos, es, radius).None? <==> NoneWithin(pos, es, radius)
  {
    var r := Nearest(pos, es, radius);
    if r.Some? {
      if IsNearest(pos, es, radius, k) {
        NearestIsUnique(pos, es, radius, k, r.value);
      }
      assert !NoneWithin(pos, es, radius) by {
        assert es[r.value].active && Within(pos, es[r.value].position, radius);
      }
    }
  }

  /** Index of the nearest point of a non-empty sequence, the earliest one
      among equally near points. */
  function ArgMin(pos: Vec2, s: seq<Vec2>): (m: nat)
    requires |s| > 0
    ensures m < |s|
    ensures forall x :: x in s ==> DistSq(pos, s[m]) <= DistSq(pos, x)
    ensures forall j :: 0 <= j < m ==> DistSq(pos, s[m]) < DistSq(pos, s[j])
  {
    ArgMinFrom(pos, s, 1, 0)
  }

  function ArgMinFrom(pos: Vec2, s: seq<Vec2>, i: nat, m: nat): (r: nat)
    requires m < i <= |s|
    requires forall j :: 0 <= j < i ==> DistSq(pos, s[m]) <= DistSq(pos, s[j])
    requires forall j :: 0 <= j < m ==> DistSq(pos, s[m]) < DistSq(pos, s[j])
    ensures r < |s|
    ensures forall x :: x in s ==> DistSq(pos, s[r]) <= DistSq(pos, x)
    ensures forall j :: 0 <= j < r ==> DistSq(pos, s[r]) < DistSq(pos, s[j])
    decreases |s| - i
  {
    if i == |s| then m
    else if DistSq(pos, s[i]) < DistSq(pos, s[m]) then ArgMinFrom(pos, s, i + 1, i)
    else ArgMinFrom(pos, s, i + 1, m)
  }

  /** Distances from `pos` never decrease along `s`. */
  predicate SortedByDistance(pos: Vec2, s: seq<Vec2>) {
    forall i, j :: 0 <= i < j < |s| ==> DistSq(pos, s[i]) <= DistSq(pos, s[j])
  }

  /** `s` without its element at `m`. */
  function RemoveAt(s: seq<Vec2>, m: nat): (r: seq<Vec2>)
    requires m < |s|
    ensures |r| == |s| - 1
    ensures multiset(r) + multiset{s[m]} == multiset(s)
  {
    assert s == s[..m] + [s[m]] + s[m + 1..];
    s[..m] + s[m + 1..]
  }

  /** `chosen` is what sorting `s` by distance and taking the first `n`
      can produce: as many points as there are (up to `n`), taken from `s`,
      nearest first, and none farther than any point left out. */
  predicate IsNearestSelection(pos: Vec2, s: seq<Vec2>, n: nat, chosen: seq<Vec2>) {
    && |chosen| == MinInt(n, |s|)
    && multiset(chosen) <= multiset(s)
    && SortedByDistance(pos, chosen)
    && forall x, y :: x in chosen && y in multiset(s) - multiset(chosen) ==> DistSq(pos, x) <= DistSq(pos, y)
  }

  /** Sort by distance and take the first `n`: the chosen points (nearest
      first) and the points left over. */
  function SelectNearest(pos: Vec2, s: seq<Vec2>, n: nat): (r: (seq<Vec2>, seq<Vec2>))
    ensures |r.0| == MinInt(n, |s|)
    ensures multiset(r.0) + multiset(r.1) == multiset(s)
    ensures SortedByDistance(pos, r.0)
    ensures forall x, y :: x in r.0 && y in r.1 ==> DistSq(pos, x) <= DistSq(pos, y)
    decreases n
  {
    if n == 0 || s == [] then ([], s)
    else
      var m := ArgMin(pos, s);
      var rest := RemoveAt(s, m);
      var sub := SelectNearest(pos, rest, n - 1);
      SelectStep(pos, s, m, sub.0, sub.1);
      assert multiset([s[m]] + sub.0) == multiset{s[m]} + multiset(sub.0);
      ([s[m]] + sub.0, sub.1)
  }

  /** Putting the minimum in front of a selection from the remaining points
      keeps the selection sorted and ahead of everything left over. */
  lemma SelectStep(pos: Vec2, s: seq<Vec2>, m: nat, chosen: seq<Vec2>, left: seq<Vec2>)
    requires m < |s|
    requires forall x :: x in s ==> DistSq(pos, s[m]) <= DistSq(pos, x)
    requires multiset(chosen) + multiset(left) == multiset(RemoveAt(s, m))
    requires SortedByDistance(pos, chosen)
    ensures SortedByDistance(pos, [s[m]] + chosen)
    ensures forall y :: y in left ==> DistSq(pos, s[m]) <= DistSq(pos, y)
  {
    forall x | x in chosen + left
      ensures DistSq(pos, s[m]) <= DistSq(pos, x)
    {
      assert x in multiset(RemoveAt(s, m));
      assert x in multiset(s);
    }
    var c := [s[m]] + chosen;
    forall i, j | 0 <= i < j < |c|
      ensures DistSq(pos, c[i]) <= DistSq(pos, c[j])
    {
      if i == 0 {
        assert c[j] in chosen + left;
      } else {
        assert c[i] == chosen[i - 1] && c[j] == chosen[j - 1];
      }
    }
    forall y | y in left
      ensures DistSq(pos, s[m]) <= DistSq(pos, y)
    {
      assert y in chosen + left;
    }
  }

  /** The selection is one that sorting and truncating can produce. */
  lemma SelectNearestIsNearestSelection(pos: Vec2, s: seq<Vec2>, n: nat)
    ensures IsNearestSelection(pos, s, n, SelectNearest(pos, s, n).0)
  {
    var r := SelectNearest(pos, s, n);
    assert multiset(s) - multiset(r.0) == multiset(r.1);
    forall x, y | x in r.0 && y in multiset(s) - multiset(r.0)
      ensures DistSq(pos, x) <= DistSq(pos, y)
    {
      assert y in r.1;
    }
  }
}
