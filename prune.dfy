/**
 * The column pruning of `InputData`: after the field-of-view overlay,
 * only the columns holding at least one non-null value are kept
 * (`columns[notna().any()]`), in their original order, with every row.
 */
module Prune {
  import opened Wrappers
  import opened Positions

  /** A table: column names and rows of possibly-null cells, one cell per column. */
  datatype Table<V> = Table(columns: seq<string>, rows: seq<seq<Option<V>>>)

  /** Every row has one cell per column. */
  predicate WellFormed<V>(t: Table<V>) {
    forall r :: 0 <= r < |t.rows| ==> |t.rows[r]| == |t.columns|
  }

  /** Column c holds a non-null value on some row. */
  predicate HasValue<V>(t: Table<V>, c: nat)
    requires WellFormed(t) && c < |t.columns|
  {
    exists r :: 0 <= r < |t.rows| && t.rows[r][c].Some?
  }

  /** The columns, from c on, that hold a value. */
  function KeptColumns<V>(t: Table<V>, c: nat): seq<nat>
    requires WellFormed(t)
    decreases |t.columns| - c
  {
    if c >= |t.columns| then []
    else if HasValue(t, c) then [c] + KeptColumns(t, c + 1)
    else KeptColumns(t, c + 1)
  }

  /**
   * KeptColumns lists, in increasing order, exactly the columns from c on
   * that hold a value.
   */
  lemma {:induction false} KeptColumnsSpec<V>(t: Table<V>, c: nat)
    requires WellFormed(t) && c <= |t.columns|
    ensures |KeptColumns(t, c)| <= |t.columns| - c
    ensures forall k :: 0 <= k < |KeptColumns(t, c)| ==> c <= KeptColumns(t, c)[k] < |t.columns|
    ensures Increasing(KeptColumns(t, c))
    ensures forall j :: c <= j < |t.columns| ==> (j in KeptColumns(t, c) <==> HasValue(t, j))
    decreases |t.columns| - c
  {
    if c < |t.columns| {
      KeptColumnsSpec(t, c + 1);
    }
  }

  /** The cells of a row at the given positions. */
  function Pick<X>(row: seq<X>, cols: seq<nat>): (r: seq<X>)
    requires forall k :: 0 <= k < |cols| ==> cols[k] < |row|
    ensures |r| == |cols| && forall k :: 0 <= k < |cols| ==> r[k] == row[cols[k]]
  {
    seq(|cols|, k requires 0 <= k < |cols| => row[cols[k]])
  }

  /** The table restricted to the columns that hold a value. */
  function PruneNullColumns<V>(t: Table<V>): (p: Table<V>)
    requires WellFormed(t)
    ensures WellFormed(p) && |p.rows| == |t.rows|
  {
    var keep := KeptColumns(t, 0);
    KeptColumnsSpec(t, 0);
    Table(Pick(t.columns, keep), seq(|t.rows|, r requires 0 <= r < |t.rows| => Pick(t.rows[r], keep)))
  }

  /**
   * Pruning keeps exactly the columns holding a value, in their order: its
   * column k is the original column KeptColumns(t, 0)[k], with the same
   * name and the same cell on every row.
   */
  lemma PruneSpec<V>(t: Table<V>)
    requires WellFormed(t)
    ensures var p, keep := PruneNullColumns(t), KeptColumns(t, 0);
      |p.columns| == |keep| && Increasing(keep) &&
      (forall j :: 0 <= j < |t.columns| ==> (j in keep <==> HasValue(t, j))) &&
      (forall k :: 0 <= k < |keep| ==> keep[k] < |t.columns| && p.columns[k] == t.columns[keep[k]]) &&
      (forall r, k :: 0 <= r < |t.rows| && 0 <= k < |keep| ==> p.rows[r][k] == t.rows[r][keep[k]])
  {
    KeptColumnsSpec(t, 0);
  }

  /** After pruning, every remaining column holds a value. */
  lemma PrunedHaveValues<V>(t: Table<V>)
    requires WellFormed(t)
    ensures forall k :: 0 <= k < |PruneNullColumns(t).columns| ==> HasValue(PruneNullColumns(t), k)
  {
    var p, keep := PruneNullColumns(t), KeptColumns(t, 0);
    PruneSpec(t);
    forall k | 0 <= k < |p.columns| ensures HasValue(p, k) {
      assert HasValue(t, keep[k]);
      var r :| 0 <= r < |t.rows| && t.rows[r][keep[k]].Some?;
      assert p.rows[r][k].Some?;
    }
  }

  /** A table whose columns all hold a value keeps them all, from c on. */
  lemma {:induction false} KeepAll<V>(t: Table<V>, c: nat)
    requires WellFormed(t) && c <= |t.columns|
    requires forall j :: 0 <= j < |t.columns| ==> HasValue(t, j)
    ensures |KeptColumns(t, c)| == |t.columns| - c
    ensures forall k :: 0 <= k < |KeptColumns(t, c)| ==> KeptColumns(t, c)[k] == c + k
    decreases |t.columns| - c
  {
    if c < |t.columns| {
      KeepAll(t, c + 1);
    }
  }

  /** Picking every position of a row, in order, gives the row back. */
  lemma PickAll<X>(row: seq<X>, cols: seq<nat>)
    requires |cols| == |row| && forall k :: 0 <= k < |cols| ==> cols[k] == k
    ensures Pick(row, cols) == row
  {
  }

  /** Pruning twice prunes nothing more. */
  lemma PruneIdempotent<V>(t: Table<V>)
    requires WellFormed(t)
    ensures PruneNullColumns(PruneNullColumns(t)) == PruneNullColumns(t)
  {
    var p := PruneNullColumns(t);
    PrunedHaveValues(t);
    var keep := KeptColumns(p, 0);
    KeepAll(p, 0);
    PickAll(p.columns, keep);
    forall r | 0 <= r < |p.rows| ensures Pick(p.rows[r], keep) == p.rows[r] {
      PickAll(p.rows[r], keep);
    }
    var q := PruneNullColumns(p);
    assert q.rows == p.rows;
  }
}
