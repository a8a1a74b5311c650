/**
 * The field-of-view fragments of one zone and the three columns `ZoneFOV`
 * stamps on them. A fragment is one row of the zone/field-of-view overlay;
 * its area comes from the geometry engine and is an input here.
 */
module Zones {
  import opened Wrappers
  import opened Sums

  /**
   * One overlay row: its index label, its area, and the survey attributes
   * `ZoneQOV` reads (led, well_lit, scaffoldin, foliage), each possibly
   * missing.
   */
  datatype Fragment = Fragment(
    id: nat,
    area: real,
    led: Option<string>,
    wellLit: Option<string>,
    scaffolding: Option<string>,
    foliage: Option<string>)

  /** A fragment with the columns fov_area, fov_cnt and totfov_area added. */
  datatype FovRow = FovRow(frag: Fragment, fovArea: real, fovCnt: nat, totFovArea: real)

  /** The area column of the overlay. */
  function Areas(frags: seq<Fragment>): (r: seq<real>)
    ensures |r| == |frags| && forall i :: 0 <= i < |r| ==> r[i] == frags[i].area
  {
    seq(|frags|, i requires 0 <= i < |frags| => frags[i].area)
  }

  /** The fov_area column of a stamped table. */
  function FovAreas(rows: seq<FovRow>): (r: seq<real>)
    ensures |r| == |rows| && forall i :: 0 <= i < |r| ==> r[i] == rows[i].fovArea
  {
    seq(|rows|, i requires 0 <= i < |rows| => rows[i].fovArea)
  }

  /** The fragments of a stamped table, in order. */
  function Frags(rows: seq<FovRow>): (r: seq<Fragment>)
    ensures |r| == |rows| && forall i :: 0 <= i < |r| ==> r[i] == rows[i].frag
  {
    seq(|rows|, i requires 0 <= i < |rows| => rows[i].frag)
  }

  /**
   * What `ZoneFOV` guarantees of every row: fov_cnt is the number of rows
   * of the table and totfov_area the sum of its fov_area column.
   */
  ghost predicate Broadcast(rows: seq<FovRow>) {
    forall i :: 0 <= i < |rows| ==> rows[i].fovCnt == |rows| && rows[i].totFovArea == Sum(FovAreas(rows))
  }

  /**
   * `ZoneFOV`'s stamping: fov_area is each fragment's area, fov_cnt the
   * row count, totfov_area the sum of the areas; rows, order and the
   * fragments themselves are unchanged.
   */
  method ZoneFov(frags: seq<Fragment>) returns (rows: seq<FovRow>)
    ensures Frags(rows) == frags
    ensures forall i :: 0 <= i < |rows| ==> rows[i].fovArea == frags[i].area
    ensures Broadcast(rows)
  {
    var total := 0.0;
    var i := 0;
    while i < |frags|
      invariant 0 <= i <= |frags|
      invariant total == Sum(Areas(frags)[..i])
    {
      assert Areas(frags)[..i + 1][..i] == Areas(frags)[..i];
      total := total + frags[i].area;
      i := i + 1;
    }
    assert Areas(frags)[..i] == Areas(frags);
    rows := seq(|frags|, j requires 0 <= j < |frags| => FovRow(frags[j], frags[j].area, |frags|, total));
    assert FovAreas(rows) == Areas(frags);
  }

  /** With non-negative areas, no fragment covers more than the zone total, and the total is not negative. */
  lemma TotalCoversEachFragment(rows: seq<FovRow>)
    requires Broadcast(rows)
    requires forall i :: 0 <= i < |rows| ==> rows[i].fovArea >= 0.0
    ensures forall i :: 0 <= i < |rows| ==> 0.0 <= rows[i].fovArea <= rows[i].totFovArea
  {
    SumBoundsEach(FovAreas(rows));
  }
}
