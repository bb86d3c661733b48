/** The nested `for (i) for (j = i + 1)` scan over unordered pairs that the
    deadlock rules share: every detector visits the pairs (i, j), i < j, in
    lexicographic order and either collects the pairs satisfying a rule or
    stops at the first one. */
module PairScan {
  import opened Common

  /** (i1, j1) comes strictly before (i2, j2) in the scan order. */
  predicate Before(a: (nat, nat), b: (nat, nat))
  {
    a.0 < b.0 || (a.0 == b.0 && a.1 < b.1)
  }

  /** A pair the scan reaches at or after position (i, j). */
  predicate FromPosition(p: (nat, nat), i: nat, j: nat)
  {
    p.0 > i || (p.0 == i && p.1 >= j)
  }

  /** The pairs (a, b) with a < b, scanned from position (i, j), whose
      elements satisfy `rule`, in scan order. */
  function PairsFrom<T>(s: seq<T>, rule: (T, T) -> bool, i: nat, j: nat): (r: seq<(nat, nat)>)
    requires j <= |s| + 1
    requires i < |s| ==> i < j
    ensures forall p :: p in r <==>
      p.0 < p.1 < |s| && FromPosition(p, i, j) && rule(s[p.0], s[p.1])
    ensures forall k1, k2 :: 0 <= k1 < k2 < |r| ==> Before(r[k1], r[k2])
    decreases |s| - i, |s| + 1 - j
  {
    if i >= |s| then []
    else if j >= |s| then PairsFrom(s, rule, i + 1, i + 2)
    else
      var rest := PairsFrom(s, rule, i, j + 1);
      if rule(s[i], s[j]) then [(i, j)] + rest else rest
  }

  /** Every pair (i, j), i < j, whose elements satisfy `rule`, in the order
      the nested loops visit them. */
  function Pairs<T>(s: seq<T>, rule: (T, T) -> bool): (r: seq<(nat, nat)>)
    ensures forall p :: p in r <==> p.0 < p.1 < |s| && rule(s[p.0], s[p.1])
    ensures forall k1, k2 :: 0 <= k1 < k2 < |r| ==> Before(r[k1], r[k2])
  {
    PairsFrom(s, rule, 0, 1)
  }

  /** The pair an early-returning scan stops at: the first satisfying pair in
      scan order, or None when no pair satisfies the rule. */
  function FirstPair<T>(s: seq<T>, rule: (T, T) -> bool): (r: Option<(nat, nat)>)
    ensures r.None? <==> forall i, j :: 0 <= i < j < |s| ==> !rule(s[i], s[j])
    ensures r.Some? ==> r.value.0 < r.value.1 < |s| && rule(s[r.value.0], s[r.value.1])
    ensures r.Some? ==> forall i, j :: 0 <= i < j < |s| && Before((i, j), r.value) ==> !rule(s[i], s[j])
  {
    var all := Pairs(s, rule);
    if |all| == 0 then
      assert forall i, j :: 0 <= i < j < |s| ==> !rule(s[i], s[j]) by {
        forall i, j | 0 <= i < j < |s| ensures !rule(s[i], s[j]) {
          assert (i, j) !in all;
        }
      }
      None
    else
      assert all[0] in all;
      assert forall p :: p in all ==> p == all[0] || Before(all[0], p) by {
        forall p | p in all ensures p == all[0] || Before(all[0], p) {
          var k :| 0 <= k < |all| && all[k] == p;
          if k > 0 { assert Before(all[0], all[k]); }
        }
      }
      Some(all[0])
  }

  /** The rule is symmetric and irreflexive, and relates kept elements only. */
  ghost predicate SymmetricWithin<T(!new)>(keep: T -> bool, rule: (T, T) -> bool)
  {
    forall a, b :: rule(a, b) ==> keep(a) && keep(b) && rule(b, a) && a != b
  }

  /** For a symmetric, irreflexive rule that only holds between kept
      elements, scanning the kept elements finds a pair exactly when two
      elements of the whole list satisfy the rule. */
  lemma FirstPairOfFilter<T(!new)>(s: seq<T>, keep: T -> bool, rule: (T, T) -> bool)
    requires SymmetricWithin(keep, rule)
    ensures FirstPair(Filter(s, keep), rule).Some? <==> exists a, b :: a in s && b in s && rule(a, b)
  {
    var f := Filter(s, keep);
    if exists a, b :: a in s && b in s && rule(a, b) {
      var a, b :| a in s && b in s && rule(a, b);
      assert a in f && b in f;
      var i :| 0 <= i < |f| && f[i] == a;
      var j :| 0 <= j < |f| && f[j] == b;
      if i < j {
        assert rule(f[i], f[j]);
      } else {
        assert rule(f[j], f[i]);
      }
    }
    var r := FirstPair(f, rule);
    if r.Some? {
      assert f[r.value.0] in f && f[r.value.1] in f;
    }
  }
}
