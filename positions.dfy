/** Positions within a table, as the row and column selections use them. */
module Positions {
  /** s lists positions in strictly increasing order. */
  predicate Increasing(s: seq<nat>) {
    forall p, q :: 0 <= p < q < |s| ==> s[p] < s[q]
  }

  /** The positions one further down, as for the same rows after dropping the first row of the table. */
  function Shifted(m: seq<nat>): (r: seq<nat>)
    ensures |r| == |m| && forall k :: 0 <= k < |m| ==> r[k] == m[k] + 1
  {
    seq(|m|, k requires 0 <= k < |m| => m[k] + 1)
  }

  /** Shifting keeps the order, never yields 0, and yields i exactly when i - 1 was listed. */
  lemma ShiftedSpec(m: seq<nat>)
    requires Increasing(m)
    ensures Increasing(Shifted(m)) && 0 !in Shifted(m)
    ensures forall i: nat :: i in Shifted(m) <==> i > 0 && i - 1 in m
  {
    forall i: nat | i > 0 && i - 1 in m ensures i in Shifted(m) {
      var k :| 0 <= k < |m| && m[k] == i - 1;
      assert Shifted(m)[k] == i;
    }
  }

  /** Position 0 put before increasing positions that do not list 0 keeps them increasing. */
  lemma ZeroFirst(m: seq<nat>)
    requires Increasing(m) && 0 !in m
    ensures Increasing([0] + m)
  {
    forall q | 1 <= q < |m| + 1 ensures ([0] + m)[q] > 0 {
      assert ([0] + m)[q] == m[q - 1];
    }
  }

  /** The positions of a selection from a table, from those m' of the same selection from the table less its first row. */
  function ConsPositions(head: bool, m': seq<nat>): seq<nat> {
    (if head then [0] else []) + Shifted(m')
  }

  /**
   * If m' points at the rows of tail within xs[1..], then ConsPositions
   * points at the rows of the selection that puts xs[0] (when head) before
   * tail, within xs.
   */
  lemma ConsPositionsRows<X>(xs: seq<X>, head: bool, sel: seq<X>, tail: seq<X>, m': seq<nat>)
    requires xs != [] && sel == (if head then [xs[0]] else []) + tail && |m'| == |tail|
    requires forall k :: 0 <= k < |m'| ==> m'[k] < |xs| - 1 && tail[k] == xs[m'[k] + 1]
    ensures |ConsPositions(head, m')| == |sel|
    ensures forall k :: 0 <= k < |sel| ==> ConsPositions(head, m')[k] < |xs| && sel[k] == xs[ConsPositions(head, m')[k]]
  {
    var m := ConsPositions(head, m');
    if head {
      forall k | 1 <= k < |sel| ensures m[k] < |xs| && sel[k] == xs[m[k]] {
        assert sel[k] == tail[k - 1] && m[k] == m'[k - 1] + 1;
      }
    }
  }
}
