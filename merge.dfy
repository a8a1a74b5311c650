/**
 * `MergeSHP`: the attribute table and the camera buffers are joined on
 * their index labels (an inner join, `left_index=True, right_index=True`).
 * A camera row survives exactly when its key has a point, rows keep the
 * attribute table's order, and each carries the geometry stored under its
 * key.
 */
module Merge {
  import opened AttributeKeys
  import opened Positions

  /** A merged row: the index label, the attribute row and the geometry under that label. */
  datatype Joined<T, G> = Joined(key: string, row: T, geom: G)

  /** The positions, from j on, of the attribute rows whose key has a geometry. */
  function Matched<T, G>(att: seq<Keyed<T>>, geom: map<string, G>, j: nat): seq<nat>
    decreases |att| - j
  {
    if j >= |att| then []
    else if att[j].key in geom then [j] + Matched(att, geom, j + 1)
    else Matched(att, geom, j + 1)
  }

  /**
   * Matched lists, in increasing order, exactly the positions from j on
   * whose key is present in the geometry map.
   */
  lemma {:induction false} MatchedSpec<T, G>(att: seq<Keyed<T>>, geom: map<string, G>, j: nat)
    ensures |Matched(att, geom, j)| <= |att| - j || j > |att|
    ensures forall k :: 0 <= k < |Matched(att, geom, j)| ==> j <= Matched(att, geom, j)[k] < |att|
    ensures Increasing(Matched(att, geom, j))
    ensures forall c :: c in Matched(att, geom, j) <==> j <= c < |att| && att[c].key in geom
    decreases |att| - j
  {
    if j < |att| {
      MatchedSpec(att, geom, j + 1);
    }
  }

  /** The inner join of the attribute rows with the geometries, in attribute order. */
  function InnerJoin<T, G>(att: seq<Keyed<T>>, geom: map<string, G>): (r: seq<Joined<T, G>>)
    ensures |r| <= |att|
  {
    var m := Matched(att, geom, 0);
    MatchedSpec(att, geom, 0);
    seq(|m|, k requires 0 <= k < |m| => Joined(att[m[k]].key, att[m[k]].row, geom[att[m[k]].key]))
  }

  /**
   * The merged table is the attribute rows whose key has a geometry, kept
   * in order, each paired with that geometry: row k comes from attribute
   * row Matched(..)[k], those positions increase, and a position is used
   * exactly when its key is in the geometry map.
   */
  lemma InnerJoinSpec<T, G>(att: seq<Keyed<T>>, geom: map<string, G>)
    ensures var r, m := InnerJoin(att, geom), Matched(att, geom, 0);
      |r| == |m| && Increasing(m) &&
      (forall k :: 0 <= k < |r| ==>
        m[k] < |att| && att[m[k]].key in geom && r[k] == Joined(att[m[k]].key, att[m[k]].row, geom[att[m[k]].key])) &&
      (forall i :: 0 <= i < |att| ==> (i in m <==> att[i].key in geom))
  {
    MatchedSpec(att, geom, 0);
  }

  /** Every key of the merged table is a key of both inputs, and every key common to both inputs is one of its keys. */
  lemma InnerJoinKeys<T, G>(att: seq<Keyed<T>>, geom: map<string, G>)
    ensures forall k :: 0 <= k < |InnerJoin(att, geom)| ==>
      InnerJoin(att, geom)[k].key in geom &&
      exists i :: 0 <= i < |att| && att[i] == Keyed(InnerJoin(att, geom)[k].key, InnerJoin(att, geom)[k].row)
    ensures forall i :: 0 <= i < |att| && att[i].key in geom ==>
      Joined(att[i].key, att[i].row, geom[att[i].key]) in InnerJoin(att, geom)
  {
    var r, m := InnerJoin(att, geom), Matched(att, geom, 0);
    InnerJoinSpec(att, geom);
    forall i | 0 <= i < |att| && att[i].key in geom
      ensures Joined(att[i].key, att[i].row, geom[att[i].key]) in r
    {
      var k :| 0 <= k < |m| && m[k] == i;
      assert r[k] == Joined(att[i].key, att[i].row, geom[att[i].key]);
    }
  }

  /** Pairwise distinct attribute keys give pairwise distinct merged keys. */
  lemma InnerJoinDistinct<T, G>(att: seq<Keyed<T>>, geom: map<string, G>)
    requires forall i, j :: 0 <= i < j < |att| ==> att[i].key != att[j].key
    ensures forall p, q :: 0 <= p < q < |InnerJoin(att, geom)| ==> InnerJoin(att, geom)[p].key != InnerJoin(att, geom)[q].key
  {
    InnerJoinSpec(att, geom);
  }

  /**
   * The camera pipeline's merge: with the keys `Attributes` assigns, row i
   * of an N-row attribute table appears in the merge exactly when str(N - i)
   * has a point, and the merged keys are distinct.
   */
  lemma MergeAligned<T, G>(att: seq<T>, t: seq<Keyed<T>>, geom: map<string, G>)
    requires |t| == |att|
    requires forall i :: 0 <= i < |t| ==> t[i] == Keyed(AlignedKey(|att|, i), att[i])
    ensures forall i :: 0 <= i < |att| ==>
      AlignedKey(|att|, i) in geom ==>
        Joined(AlignedKey(|att|, i), att[i], geom[AlignedKey(|att|, i)]) in InnerJoin(t, geom)
    ensures forall k :: 0 <= k < |InnerJoin(t, geom)| ==>
      InnerJoin(t, geom)[k].key in geom && InnerJoin(t, geom)[k].key in AlignedKeys(|att|)
    ensures forall p, q :: 0 <= p < q < |InnerJoin(t, geom)| ==> InnerJoin(t, geom)[p].key != InnerJoin(t, geom)[q].key
  {
    AlignedKeysDistinct(|att|);
    InnerJoinKeys(t, geom);
    InnerJoinDistinct(t, geom);
    var r := InnerJoin(t, geom);
    forall k | 0 <= k < |r| ensures r[k].key in AlignedKeys(|att|) {
      var i :| 0 <= i < |t| && t[i] == Keyed(r[k].key, r[k].row);
      assert r[k].key == AlignedKey(|att|, i);
    }
  }
}
