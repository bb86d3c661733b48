/** The pairwise deadlock test of src/utils/DeadlockChecker.ts. Two
    elements deadlock when they point in opposite directions and lie on the
    same line: the same column (`x`) when the first points up or down, the
    same row (`y`) otherwise. Whether they actually face each other is not
    checked, so two arrows pointing away from each other are flagged too. */
module DeadlockChecker {
  import opened Common
  import opened Geometry
  import opened PairScan
  import opened Elements

  /** isOpposingArrows */
  predicate IsOpposing(a1: Element, a2: Element)
  {
    Opposite(a1.direction) == a2.direction
  }

  /** areArrowsAligned */
  predicate AreAligned(a1: Element, a2: Element)
  {
    if a1.direction == Up || a1.direction == Down then a1.x == a2.x else a1.y == a2.y
  }

  /** isDeadlock */
  predicate IsDeadlock(a1: Element, a2: Element)
  {
    IsOpposing(a1, a2) && AreAligned(a1, a2)
  }

  /** The test does not depend on the order of its arguments, an element
      never deadlocks with itself, and two arrows with the same direction
      never deadlock. */
  lemma IsDeadlockSymmetric(a1: Element, a2: Element)
    ensures IsDeadlock(a1, a2) <==> IsDeadlock(a2, a1)
    ensures !IsDeadlock(a1, a1)
    ensures a1.direction == a2.direction ==> !IsDeadlock(a1, a2)
  {
  }

  /** The test ignores which way round the two arrows stand: an up arrow
      above a down arrow in the same column, pointing away from each other,
      is reported as a deadlock. */
  lemma NoFacingCheck()
    ensures IsDeadlock(Element("a", "arrow", Up, 1, 2, 3, 0), Element("b", "arrow", Down, 1, 2, 3, 6))
  {
  }

  /** wouldCauseDeadlock */
  function WouldCauseDeadlock(e: Element, existing: seq<Element>): (r: bool)
    ensures r <==> exists x :: x in existing && IsDeadlock(e, x)
  {
    if |existing| == 0 then false
    else
      assert forall x :: x in existing <==> x == existing[0] || x in existing[1..];
      IsDeadlock(e, existing[0]) || WouldCauseDeadlock(e, existing[1..])
  }

  /** findDeadlocks: every deadlocked pair (elements[i], elements[j]), i < j,
      in scan order. */
  function FindDeadlocks(elements: seq<Element>): (r: seq<(Element, Element)>)
    ensures forall p :: p in r <==>
      exists i, j :: 0 <= i < j < |elements| && IsDeadlock(elements[i], elements[j])
                     && p == (elements[i], elements[j])
  {
    var pairs := Pairs(elements, IsDeadlock);
    var r := seq(|pairs|, k requires 0 <= k < |pairs| => (elements[pairs[k].0], elements[pairs[k].1]));
    PairedElements(elements, pairs, r);
    r
  }

  /** Mapping the deadlocked index pairs to their elements gives exactly the
      deadlocked element pairs. */
  lemma PairedElements(elements: seq<Element>, pairs: seq<(nat, nat)>, r: seq<(Element, Element)>)
    requires forall p :: p in pairs <==> p.0 < p.1 < |elements| && IsDeadlock(elements[p.0], elements[p.1])
    requires |r| == |pairs|
    requires forall k :: 0 <= k < |pairs| ==> pairs[k].1 < |elements| && r[k] == (elements[pairs[k].0], elements[pairs[k].1])
    ensures forall p :: p in r <==>
      exists i, j :: 0 <= i < j < |elements| && IsDeadlock(elements[i], elements[j])
                     && p == (elements[i], elements[j])
  {
    assert forall p :: p in r ==> exists i, j :: 0 <= i < j < |elements| && IsDeadlock(elements[i], elements[j])
                                                 && p == (elements[i], elements[j]) by {
      forall p | p in r ensures exists i, j :: 0 <= i < j < |elements| && IsDeadlock(elements[i], elements[j])
                                               && p == (elements[i], elements[j]) {
        var k :| 0 <= k < |r| && r[k] == p;
        assert pairs[k] in pairs;
      }
    }
    assert forall i, j :: 0 <= i < j < |elements| && IsDeadlock(elements[i], elements[j]) ==>
                          (elements[i], elements[j]) in r by {
      forall i, j | 0 <= i < j < |elements| && IsDeadlock(elements[i], elements[j])
        ensures (elements[i], elements[j]) in r {
        assert (i, j) in pairs;
        var k :| 0 <= k < |pairs| && pairs[k] == (i, j);
        assert r[k] == (elements[i], elements[j]);
      }
    }
  }

  /** hasDeadlocks */
  function HasDeadlocks(elements: seq<Element>): (r: bool)
    ensures r <==> exists i, j :: 0 <= i < j < |elements| && IsDeadlock(elements[i], elements[j])
  {
    var found := FindDeadlocks(elements);
    assert (exists i, j :: 0 <= i < j < |elements| && IsDeadlock(elements[i], elements[j])) ==> |found| > 0 by {
      if exists i, j :: 0 <= i < j < |elements| && IsDeadlock(elements[i], elements[j]) {
        var i, j :| 0 <= i < j < |elements| && IsDeadlock(elements[i], elements[j]);
        assert (elements[i], elements[j]) in found;
      }
    }
    assert |found| > 0 ==> found[0] in found;
    |found| > 0
  }

  /** Checking a new element against the placed ones is the same as checking
      the whole list after appending it, provided the placed ones were
      deadlock-free. */
  lemma WouldCauseIffNewDeadlock(es: seq<Element>, e: Element)
    ensures HasDeadlocks(es + [e]) <==> HasDeadlocks(es) || WouldCauseDeadlock(e, es)
  {
    var all := es + [e];
    var n := |es|;
    if WouldCauseDeadlock(e, es) {
      var x :| x in es && IsDeadlock(e, x);
      var i :| 0 <= i < n && es[i] == x;
      IsDeadlockSymmetric(e, x);
      assert all[i] == x && all[n] == e;
      assert IsDeadlock(all[i], all[n]);
    }
    if HasDeadlocks(es) {
      var i, j :| 0 <= i < j < n && IsDeadlock(es[i], es[j]);
      assert all[i] == es[i] && all[j] == es[j];
    }
    if HasDeadlocks(all) {
      var i, j :| 0 <= i < j < |all| && IsDeadlock(all[i], all[j]);
      if j < n {
        assert all[i] == es[i] && all[j] == es[j];
      } else {
        assert all[j] == e && all[i] == es[i] && es[i] in es;
        IsDeadlockSymmetric(all[i], e);
      }
    }
  }
}
