/**
 * Worked examples of the `ZoneQOV` totals on a zone of four unit-area
 * fragments, showing how the pre-dedup counts are added.
 */
module QovScenarios {
  import opened Wrappers
  import opened Sums
  import opened Zones
  import opened Qov

  /** A stamped unit-area fragment of a four-fragment zone: lit or dark, behind scaffolding or not. */
  function Sample(id: nat, dark: bool, scaffolded: bool): FovRow {
    FovRow(
      Fragment(id, 1.0, Some(if dark then "none" else "yes"), None, Some(if scaffolded then "yes" else "no"), None),
      1.0, 4, 4.0)
  }

  /** Three dark fragments (0, 1, 2) and two behind scaffolding (2, 3), fragment 2 being both. */
  function Overlapping(): seq<FovRow> {
    [Sample(0, true, false), Sample(1, true, false), Sample(2, true, true), Sample(3, false, true)]
  }

  /** Two dark fragments (0, 1) and two other fragments behind scaffolding (2, 3). */
  function EqualCounts(): seq<FovRow> {
    [Sample(0, true, false), Sample(1, true, false), Sample(2, false, true), Sample(3, false, true)]
  }

  /** SetSum of a two-element set. */
  lemma SetSumPair(x: real, y: real)
    requires x != y
    ensures SetSum({x, y}) == x + y
  {
    SetSumRemove({x, y}, x);
    assert {x, y} - {x} == {y};
    SetSumRemove({y}, y);
    assert {y} - {y} == {};
  }

  /** SetSum of a one-element set. */
  lemma SetSumSingle(x: real)
    ensures SetSum({x}) == x
  {
    SetSumRemove({x}, x);
    assert {x} - {x} == {};
  }

  /** The overlapping zone is a well-formed `ZoneFOV` table whose percentages are defined. */
  lemma OverlappingWellFormed()
    ensures DistinctIds(Overlapping()) && DivisionDefined(Overlapping()) && Broadcast(Overlapping())
    ensures Degraded(Overlapping()[0].frag)
  {
    var full := Overlapping();
    SumConstant(FovAreas(full), 1.0);
  }

  /**
   * Four fragments are degraded, yet totqov_cnt is 3 + 2 = 5: the dark
   * subset has 3 rows and the scaffolding subset 2, and fragment 2, dropped
   * from the scaffolding rows by de-duplication, is still counted in the
   * scaffolding subset's count.
   */
  lemma OverlapCountsTwice()
    ensures TotQovCnt(QovRows(Overlapping())) == 5.0
  {
    var full := Overlapping();
    OverlappingWellFormed();
    assert Select(full, Dark) == full[..3];
    assert Select(full, Scaffolding) == full[2..];
    assert Reported(full) == {Dark, Scaffolding} by {
      assert Priority(full[0].frag) == Some(Dark);
      assert Priority(full[3].frag) == Some(Scaffolding);
    }
    assert CauseCounts(full) == {3.0, 2.0};
    TotalsAreDistinctSums(full);
    SetSumPair(3.0, 2.0);
  }

  /**
   * On the overlapping zone the zone-wide NoIRpct, which `ZoneTableTotals`
   * puts on every row, is 5 / 4 * 100 = 125: it is not bounded by 100.
   */
  lemma OverlapPercentAboveHundred()
    ensures ZoneNoIRpct(Overlapping()) == 125.0
  {
    OverlapCountsTwice();
    assert Percent(5.0, 4.0) == 125.0;
  }

  /**
   * Two causes with two fragments each: the equal counts collapse in
   * unique(), so totqov_cnt is 2 although four fragments are degraded.
   */
  lemma EqualCountsCollapse()
    ensures TotQovCnt(QovRows(EqualCounts())) == 2.0
  {
    var full := EqualCounts();
    assert Select(full, Dark) == full[..2];
    assert Select(full, Scaffolding) == full[2..];
    assert Reported(full) == {Dark, Scaffolding} by {
      assert Priority(full[0].frag) == Some(Dark);
      assert Priority(full[3].frag) == Some(Scaffolding);
    }
    assert CauseCounts(full) == {2.0};
    TotalsAreDistinctSums(full);
    SetSumSingle(2.0);
  }
}
