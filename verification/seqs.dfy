/** Sequence helpers: an option type, and the stable compaction that
    `erase(remove_if(...))` performs on a `std::vector`. */
module Seqs {

  datatype Option<T> = None | Some(value: T)

  function MinInt(a: int, b: int): int { if a <= b then a else b }

  /** The positions, in increasing order, of the elements that `keep` accepts. */
  function KeptIndices<T>(s: seq<T>, keep: T -> bool): (idx: seq<nat>)
    ensures forall k :: 0 <= k < |idx| ==> idx[k] < |s| && keep(s[idx[k]])
    ensures forall k, l :: 0 <= k < l < |idx| ==> idx[k] < idx[l]
    ensures forall i :: 0 <= i < |s| && keep(s[i]) ==> i in idx
    decreases |s|
  {
    if |s| == 0 then []
    else
      var front := KeptIndices(s[..|s| - 1], keep);
      if keep(s[|s| - 1]) then front + [|s| - 1] else front
  }

  /** The elements that `keep` accepts, in their original order: what
      `v.erase(std::remove_if(v.begin(), v.end(), not keep), v.end())` leaves. */
  function Filter<T>(s: seq<T>, keep: T -> bool): (r: seq<T>)
    ensures |r| == |KeptIndices(s, keep)|
    ensures forall k :: 0 <= k < |r| ==> r[k] == s[KeptIndices(s, keep)[k]]
    decreases |s|
  {
    if |s| == 0 then []
    else
      var front := Filter(s[..|s| - 1], keep);
      if keep(s[|s| - 1]) then front + [s[|s| - 1]] else front
  }

  /** Everything compaction keeps satisfies the predicate, and everything
      that satisfies it is kept. */
  lemma FilterMembership<T>(s: seq<T>, keep: T -> bool, x: T)
    ensures x in Filter(s, keep) <==> x in s && keep(x)
  {
    var r := Filter(s, keep);
    var idx := KeptIndices(s, keep);
    if x in r {
      var k :| 0 <= k < |r| && r[k] == x;
      assert s[idx[k]] == x;
    }
    if x in s && keep(x) {
      var i :| 0 <= i < |s| && s[i] == x;
      assert i in idx;
      var k :| 0 <= k < |idx| && idx[k] == i;
      assert r[k] == x;
    }
  }

  /** The kept positions depend only on which elements are accepted. */
  lemma {:induction false} KeptIndicesAgree<T, U>(s: seq<T>, keep: T -> bool, t: seq<U>, keep': U -> bool)
    requires |s| == |t|
    requires forall i :: 0 <= i < |s| ==> keep(s[i]) == keep'(t[i])
    ensures KeptIndices(s, keep) == KeptIndices(t, keep')
    decreases |s|
  {
    if |s| > 0 {
      KeptIndicesAgree(s[..|s| - 1], keep, t[..|t| - 1], keep');
    }
  }

  /** Compaction never lengthens, and keeps everything exactly when every
      element is accepted. */
  lemma {:induction false} FilterAll<T>(s: seq<T>, keep: T -> bool)
    ensures |Filter(s, keep)| <= |s|
    ensures (forall i :: 0 <= i < |s| ==> keep(s[i])) <==> Filter(s, keep) == s
    decreases |s|
  {
    if |s| > 0 {
      var init, last := s[..|s| - 1], s[|s| - 1];
      FilterAll(init, keep);
      assert s == init + [last];
      if keep(last) {
        assert Filter(s, keep) == Filter(init, keep) + [last];
        if Filter(s, keep) == s {
          assert Filter(init, keep) == Filter(s, keep)[..|s| - 1] == init;
        }
      } else {
        assert Filter(s, keep) == Filter(init, keep);
      }
    }
  }

  /** Keeping as many positions as there are elements means keeping all. */
  lemma {:induction false} KeptAllIndices<T>(s: seq<T>, keep: T -> bool)
    requires |KeptIndices(s, keep)| == |s|
    ensures forall i :: 0 <= i < |s| ==> keep(s[i])
    decreases |s|
  {
    if |s| > 0 {
      var init := s[..|s| - 1];
      FilterAll(init, keep);
      assert keep(s[|s| - 1]);
      KeptAllIndices(init, keep);
      assert forall i :: 0 <= i < |s| - 1 ==> s[i] == init[i];
    }
  }
}
