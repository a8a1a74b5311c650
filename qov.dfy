/**
 * `ZoneQOV`: the low quality-of-view analysis of one zone. Fragments are
 * classified as dark, obstructed by a sign or scaffolding, or obstructed by
 * foliage; each cause's rows are stamped with the cause, its row count and
 * its area; the three subsets are concatenated in that order and
 * de-duplicated by fragment, keeping the first; the zone-wide totals and
 * percentages are written onto the surviving rows, merged back into the
 * full table, and gap-filled down and up the table, then with 0.
 */
module Qov {
  import opened Wrappers
  import opened Sums
  import opened Zones
  import opened Fill
  import opened Positions

  /** The three causes of a low quality of view, in the order the subsets are concatenated. */
  datatype Cause = Dark | Scaffolding | Foliage

  /** The note written in the lo_qov column. */
  function Label(c: Cause): string {
    match c
    case Dark => "dark"
    case Scaffolding => "sign/scaffolding"
    case Foliage => "foliage"
  }

  /** The row filters: led == 'none' and well_lit 'no' or missing; scaffoldin == 'yes'; foliage == 'yes'. */
  predicate Matches(f: Fragment, c: Cause) {
    match c
    case Dark => f.led == Some("none") && (f.wellLit == Some("no") || f.wellLit.None?)
    case Scaffolding => f.scaffolding == Some("yes")
    case Foliage => f.foliage == Some("yes")
  }

  /** The cause a fragment is reported under: the first of dark, scaffolding, foliage that it matches. */
  function Priority(f: Fragment): Option<Cause> {
    if Matches(f, Dark) then Some(Dark)
    else if Matches(f, Scaffolding) then Some(Scaffolding)
    else if Matches(f, Foliage) then Some(Foliage)
    else None
  }

  /** A fragment with a low quality of view for some cause. */
  predicate Degraded(f: Fragment) {
    Matches(f, Dark) || Matches(f, Scaffolding) || Matches(f, Foliage)
  }

  /** The overlay's index: no two rows describe the same fragment. */
  predicate DistinctIds(rows: seq<FovRow>) {
    forall i, j :: 0 <= i < j < |rows| ==> rows[i].frag.id != rows[j].frag.id
  }

  /** The rows of the table that match cause c, in table order. */
  function Select(rows: seq<FovRow>, c: Cause): seq<FovRow> {
    if rows == [] then []
    else (if Matches(rows[0].frag, c) then [rows[0]] else []) + Select(rows[1..], c)
  }

  /** Select keeps exactly the rows that match c. */
  lemma {:induction false} SelectSpec(rows: seq<FovRow>, c: Cause)
    ensures forall r :: r in Select(rows, c) <==> r in rows && Matches(r.frag, c)
  {
    if rows != [] {
      SelectSpec(rows[1..], c);
      assert rows == [rows[0]] + rows[1..];
    }
  }

  /**
   * m lists, in increasing order, exactly the positions of the rows that
   * match c, and sel is those rows in that order.
   */
  predicate ListsMatches(rows: seq<FovRow>, c: Cause, sel: seq<FovRow>, m: seq<nat>) {
    && |m| == |sel| && Increasing(m)
    && (forall k :: 0 <= k < |m| ==> m[k] < |rows| && sel[k] == rows[m[k]])
    && (forall i :: 0 <= i < |rows| ==> (i in m <==> Matches(rows[i].frag, c)))
  }

  /** Positions of the matches of rows[1..] give, through ConsPositions, those of rows. */
  lemma ShiftedMatches(rows: seq<FovRow>, c: Cause, m': seq<nat>)
    requires rows != [] && ListsMatches(rows[1..], c, Select(rows[1..], c), m')
    ensures ListsMatches(rows, c, Select(rows, c), ConsPositions(Matches(rows[0].frag, c), m'))
  {
    var head := Matches(rows[0].frag, c);
    assert forall i :: 0 <= i < |rows| - 1 ==> rows[1..][i] == rows[i + 1];
    assert Select(rows, c) == (if head then [rows[0]] else []) + Select(rows[1..], c);
    ConsPositionsRows(rows, head, Select(rows, c), Select(rows[1..], c), m');
    ShiftedSpec(m');
    if head {
      ZeroFirst(Shifted(m'));
    }
  }

  /**
   * Select keeps the table's order and each matching row once: its k-th row
   * is row m[k] of the table, for increasing positions m that are exactly
   * the matching rows. In particular |Select(rows, c)|, the loqov_cnt of
   * cause c, is the number of rows matching c.
   */
  lemma {:induction false} SelectOrder(rows: seq<FovRow>, c: Cause)
    ensures exists m: seq<nat> :: ListsMatches(rows, c, Select(rows, c), m)
  {
    if rows == [] {
      assert ListsMatches(rows, c, Select(rows, c), []);
    } else {
      SelectOrder(rows[1..], c);
      var m' :| ListsMatches(rows[1..], c, Select(rows[1..], c), m');
      ShiftedMatches(rows, c, m');
      assert ListsMatches(rows, c, Select(rows, c), ConsPositions(Matches(rows[0].frag, c), m'));
    }
  }

  /** A cause no row matches selects nothing. */
  lemma {:induction false} SelectNone(rows: seq<FovRow>, c: Cause)
    requires forall j :: 0 <= j < |rows| ==> !Matches(rows[j].frag, c)
    ensures Select(rows, c) == []
  {
    if rows != [] {
      SelectNone(rows[1..], c);
    }
  }

  /** A fragment row after `LowQOV`: lo_qov, loqov_cnt and loqov_area added. */
  datatype QovRow = QovRow(fov: FovRow, cause: Cause, loQovCnt: nat, loQovArea: real)

  /** The rows of s, each stamped with the cause c, the count cnt and the area area. */
  function StampRows(s: seq<FovRow>, c: Cause, cnt: nat, area: real): seq<QovRow> {
    seq(|s|, i requires 0 <= i < |s| => QovRow(s[i], c, cnt, area))
  }

  /**
   * A subset stamped as `LowQOV` stamps it: its own row count and the sum
   * of its fragments' geometry areas (`low_qov.area`) on every row.
   */
  function Stamped(s: seq<FovRow>, c: Cause): seq<QovRow> {
    StampRows(s, c, |s|, Sum(Areas(Frags(s))))
  }

  /**
   * `LowQOV`: stamp every row of a cause's subset with the cause, the
   * subset's row count and the total geometry area of its fragments.
   */
  method LowQov(subset: seq<FovRow>, c: Cause) returns (stamped: seq<QovRow>)
    ensures stamped == Stamped(subset, c)
  {
    var area := 0.0;
    var i := 0;
    while i < |subset|
      invariant 0 <= i <= |subset|
      invariant area == Sum(Areas(Frags(subset))[..i])
    {
      assert Areas(Frags(subset))[..i + 1][..i] == Areas(Frags(subset))[..i];
      area := area + subset[i].frag.area;
      i := i + 1;
    }
    assert Areas(Frags(subset))[..i] == Areas(Frags(subset));
    stamped := seq(|subset|, j requires 0 <= j < |subset| => QovRow(subset[j], c, |subset|, area));
  }

  /** Stamping distributes over concatenation. */
  lemma StampRowsConcat(s: seq<FovRow>, t: seq<FovRow>, c: Cause, cnt: nat, area: real)
    ensures StampRows(s + t, c, cnt, area) == StampRows(s, c, cnt, area) + StampRows(t, c, cnt, area)
  {
  }

  /** The first stamped row describing fragment id, as a label lookup on a de-duplicated index finds it. */
  function FindQov(rows: seq<QovRow>, id: nat): (r: Option<QovRow>)
    ensures r.Some? ==> r.value in rows && r.value.fov.frag.id == id
  {
    if rows == [] then None
    else if rows[0].fov.frag.id == id then Some(rows[0])
    else FindQov(rows[1..], id)
  }

  /** Nothing is found exactly when no row carries the id. */
  lemma {:induction false} FindQovNone(rows: seq<QovRow>, id: nat)
    ensures FindQov(rows, id).None? <==> forall j :: 0 <= j < |rows| ==> rows[j].fov.frag.id != id
  {
    if rows != [] && rows[0].fov.frag.id != id {
      FindQovNone(rows[1..], id);
      assert forall j :: 1 <= j < |rows| ==> rows[j] == rows[1..][j - 1];
    }
  }

  /** Looking up in a concatenation looks in the first part, then in the second. */
  lemma {:induction false} FindQovAppend(a: seq<QovRow>, b: seq<QovRow>, id: nat)
    ensures FindQov(a + b, id) == if FindQov(a, id).Some? then FindQov(a, id) else FindQov(b, id)
  {
    if a == [] {
      assert a + b == b;
    } else {
      assert (a + b)[1..] == a[1..] + b;
      FindQovAppend(a[1..], b, id);
    }
  }

  /** No two stamped rows describe the same fragment. */
  predicate DistinctQovIds(rows: seq<QovRow>) {
    forall i, j :: 0 <= i < j < |rows| ==> rows[i].fov.frag.id != rows[j].fov.frag.id
  }

  /** In a table without repeated fragments, the lookup of a row's id finds that row. */
  lemma {:induction false} FindQovDistinct(rows: seq<QovRow>, j: nat)
    requires DistinctQovIds(rows) && j < |rows|
    ensures FindQov(rows, rows[j].fov.frag.id) == Some(rows[j])
  {
    if j > 0 {
      assert DistinctQovIds(rows[1..]) by {
        forall a, b | 0 <= a < b < |rows| - 1 ensures rows[1..][a].fov.frag.id != rows[1..][b].fov.frag.id {
          assert rows[1..][a] == rows[a + 1] && rows[1..][b] == rows[b + 1];
        }
      }
      FindQovDistinct(rows[1..], j - 1);
    }
  }

  /**
   * `qov_cvrg.index.duplicated() == False`: the rows whose fragment did
   * not already occur higher up in the table.
   */
  function KeepFirst(rows: seq<QovRow>): seq<QovRow> {
    if rows == [] then []
    else
      var init, last := rows[..|rows| - 1], rows[|rows| - 1];
      KeepFirst(init) + (if FindQov(init, last.fov.frag.id).Some? then [] else [last])
  }

  /** De-duplication keeps the first row of every fragment: lookups are unchanged. */
  lemma {:induction false} KeepFirstFind(rows: seq<QovRow>, id: nat)
    ensures FindQov(KeepFirst(rows), id) == FindQov(rows, id)
  {
    if rows != [] {
      var init, last := rows[..|rows| - 1], rows[|rows| - 1];
      assert rows == init + [last];
      KeepFirstFind(init, id);
      FindQovAppend(init, [last], id);
      assert [last][1..] == [];
      assert FindQov([last], id) == if last.fov.frag.id == id then Some(last) else FindQov([], id);
      if FindQov(init, last.fov.frag.id).None? {
        FindQovAppend(KeepFirst(init), [last], id);
      } else {
        assert KeepFirst(init) + [] == KeepFirst(init);
      }
    }
  }

  /** After de-duplication each fragment appears at most once, and every row comes from the input. */
  lemma {:induction false} KeepFirstDistinct(rows: seq<QovRow>)
    ensures DistinctQovIds(KeepFirst(rows))
    ensures forall q :: q in KeepFirst(rows) ==> q in rows
  {
    if rows != [] {
      var init, last := rows[..|rows| - 1], rows[|rows| - 1];
      KeepFirstDistinct(init);
      if FindQov(init, last.fov.frag.id).None? {
        KeepFirstFind(init, last.fov.frag.id);
        FindQovNone(KeepFirst(init), last.fov.frag.id);
      }
    }
  }

  /** A table without repeated fragments is left as it is by de-duplication. */
  lemma {:induction false} KeepFirstOfDistinct(rows: seq<QovRow>)
    requires DistinctQovIds(rows)
    ensures KeepFirst(rows) == rows
  {
    if rows != [] {
      var init, last := rows[..|rows| - 1], rows[|rows| - 1];
      assert DistinctQovIds(init);
      KeepFirstOfDistinct(init);
      FindQovNone(init, last.fov.frag.id);
      assert rows == init + [last];
    }
  }

  /** De-duplicating twice drops nothing more. */
  lemma KeepFirstIdempotent(rows: seq<QovRow>)
    ensures KeepFirst(KeepFirst(rows)) == KeepFirst(rows)
  {
    KeepFirstDistinct(rows);
    KeepFirstOfDistinct(KeepFirst(rows));
  }

  /**
   * Under distinct fragment ids, the stamped subset of cause c holds
   * row i exactly when row i matches c, stamped with the given values.
   */
  lemma {:induction false} FindStampedSelect(rows: seq<FovRow>, c: Cause, cnt: nat, area: real, i: nat)
    requires DistinctIds(rows) && i < |rows|
    ensures FindQov(StampRows(Select(rows, c), c, cnt, area), rows[i].frag.id) ==
            if Matches(rows[i].frag, c) then Some(QovRow(rows[i], c, cnt, area)) else None
  {
    var id := rows[i].frag.id;
    var head := if Matches(rows[0].frag, c) then [rows[0]] else [];
    var tail := rows[1..];
    StampRowsConcat(head, Select(tail, c), c, cnt, area);
    FindQovAppend(StampRows(head, c, cnt, area), StampRows(Select(tail, c), c, cnt, area), id);
    if i == 0 {
      SelectSpec(tail, c);
      var st := StampRows(Select(tail, c), c, cnt, area);
      forall j | 0 <= j < |st| ensures st[j].fov.frag.id != id {
        assert st[j].fov in Select(tail, c);
        var k :| 0 <= k < |tail| && tail[k] == st[j].fov;
        assert tail[k] == rows[k + 1];
      }
      FindQovNone(st, id);
    } else {
      assert tail[i - 1] == rows[i];
      assert DistinctIds(tail) by {
        forall a, b | 0 <= a < b < |tail| ensures tail[a].frag.id != tail[b].frag.id {
          assert tail[a] == rows[a + 1] && tail[b] == rows[b + 1];
        }
      }
      FindStampedSelect(tail, c, cnt, area, i - 1);
    }
  }

  /** The three stamped subsets, dark first, then scaffolding, then foliage. */
  function Concatenated(full: seq<FovRow>): seq<QovRow> {
    Stamped(Select(full, Dark), Dark) + (Stamped(Select(full, Scaffolding), Scaffolding) + Stamped(Select(full, Foliage), Foliage))
  }

  /** qov_cvrg before the totals: the concatenation with repeated fragments dropped. */
  function QovRows(full: seq<FovRow>): seq<QovRow> {
    KeepFirst(Concatenated(full))
  }

  /** The stamp a degraded fragment is reported with: its first cause, with that cause's pre-dedup count and area. */
  function ExpectedStamp(full: seq<FovRow>, r: FovRow): Option<QovRow> {
    match Priority(r.frag)
    case None => None
    case Some(c) => Some(QovRow(r, c, |Select(full, c)|, Sum(Areas(Frags(Select(full, c))))))
  }

  /**
   * Classification: a fragment survives de-duplication exactly when it
   * matches some cause; it is then tagged with the first cause it matches
   * in the order dark, scaffolding, foliage, and carries that cause's
   * count and area as computed before de-duplication.
   */
  lemma QovLookup(full: seq<FovRow>, i: nat)
    requires DistinctIds(full) && i < |full|
    ensures FindQov(QovRows(full), full[i].frag.id) == ExpectedStamp(full, full[i])
  {
    var id := full[i].frag.id;
    var d, s, f := Select(full, Dark), Select(full, Scaffolding), Select(full, Foliage);
    KeepFirstFind(Concatenated(full), id);
    FindQovAppend(Stamped(d, Dark), Stamped(s, Scaffolding) + Stamped(f, Foliage), id);
    FindQovAppend(Stamped(s, Scaffolding), Stamped(f, Foliage), id);
    FindStampedSelect(full, Dark, |d|, Sum(Areas(Frags(d))), i);
    FindStampedSelect(full, Scaffolding, |s|, Sum(Areas(Frags(s))), i);
    FindStampedSelect(full, Foliage, |f|, Sum(Areas(Frags(f))), i);
  }

  /** A row of a stamped subset comes from the subset and carries the cause, the subset's count and its area. */
  lemma StampedMember(sub: seq<FovRow>, c: Cause, q: QovRow)
    requires q in Stamped(sub, c)
    ensures q.fov in sub && q.cause == c && q.loQovCnt == |sub| && q.loQovArea == Sum(Areas(Frags(sub)))
  {
    var i :| 0 <= i < |sub| && Stamped(sub, c)[i] == q;
  }

  /** A row of a cause's stamped subset is a row of the table that matches the cause, with the cause's count and area. */
  lemma SelectedMember(full: seq<FovRow>, c: Cause, q: QovRow)
    requires q in Stamped(Select(full, c), c)
    ensures && q.fov in full && Matches(q.fov.frag, q.cause)
            && q.loQovCnt == |Select(full, q.cause)| && q.loQovArea == Sum(Areas(Frags(Select(full, q.cause))))
  {
    StampedMember(Select(full, c), c, q);
    SelectSpec(full, c);
  }

  /**
   * Every surviving row is a row of the table, matches its cause, and
   * carries that cause's pre-dedup count and area; no fragment appears twice.
   */
  lemma QovRowsFromFull(full: seq<FovRow>)
    ensures DistinctQovIds(QovRows(full))
    ensures forall q :: q in QovRows(full) ==>
      && q.fov in full && Matches(q.fov.frag, q.cause)
      && q.loQovCnt == |Select(full, q.cause)| && q.loQovArea == Sum(Areas(Frags(Select(full, q.cause))))
  {
    KeepFirstDistinct(Concatenated(full));
    var d, s, f := Stamped(Select(full, Dark), Dark), Stamped(Select(full, Scaffolding), Scaffolding), Stamped(Select(full, Foliage), Foliage);
    forall q | q in QovRows(full)
      ensures && q.fov in full && Matches(q.fov.frag, q.cause)
              && q.loQovCnt == |Select(full, q.cause)| && q.loQovArea == Sum(Areas(Frags(Select(full, q.cause))))
    {
      assert q in d + (s + f);
      if q in d {
        SelectedMember(full, Dark, q);
      } else if q in s {
        SelectedMember(full, Scaffolding, q);
      } else {
        SelectedMember(full, Foliage, q);
      }
    }
  }

  /** The loqov_cnt column of the surviving rows. */
  function Counts(qov: seq<QovRow>): seq<real> {
    seq(|qov|, i requires 0 <= i < |qov| => qov[i].loQovCnt as real)
  }

  /** The loqov_area column of the surviving rows. */
  function LoAreas(qov: seq<QovRow>): seq<real> {
    seq(|qov|, i requires 0 <= i < |qov| => qov[i].loQovArea)
  }

  /** totqov_cnt: `loqov_cnt.unique().sum()`. */
  function TotQovCnt(qov: seq<QovRow>): real {
    Sum(Unique(Counts(qov)))
  }

  /** totqov_area: `loqov_area.unique().sum()`. */
  function TotQovArea(qov: seq<QovRow>): real {
    Sum(Unique(LoAreas(qov)))
  }

  /** `.unique().sum()` computed in one pass, remembering the values already added. */
  method DistinctSum(xs: seq<real>) returns (total: real)
    ensures total == Sum(Unique(xs))
  {
    var seen: seq<real> := [];
    total := 0.0;
    var i := 0;
    while i < |xs|
      invariant 0 <= i <= |xs|
      invariant seen == Unique(xs[..i]) && total == Sum(seen)
    {
      assert xs[..i + 1][..i] == xs[..i];
      if xs[i] !in seen {
        assert (seen + [xs[i]])[..|seen|] == seen;
        seen := seen + [xs[i]];
        total := total + xs[i];
      }
      i := i + 1;
    }
    assert xs[..i] == xs;
  }

  /** Each surviving row may be divided by: its fov_cnt is positive and its totfov_area non-zero. */
  predicate Guarded(qov: seq<QovRow>) {
    forall q :: q in qov ==> q.fov.fovCnt > 0 && q.fov.totFovArea != 0.0
  }

  /** The divisions of `ZoneQOV` are defined on every degraded fragment. */
  predicate DivisionDefined(full: seq<FovRow>) {
    forall i :: 0 <= i < |full| && Degraded(full[i].frag) ==> full[i].fovCnt > 0 && full[i].totFovArea != 0.0
  }

  /** The four zone-wide columns written onto a surviving row. */
  datatype Totals = Totals(totQovCnt: real, totQovArea: real, noIRpct: real, actlFov: real)

  /** One of the four zone-wide columns. */
  datatype Scalar = TotQovCntCol | TotQovAreaCol | NoIRpctCol | ActlFovCol

  /** The value of column s in t. */
  function Get(t: Totals, s: Scalar): real {
    match s
    case TotQovCntCol => t.totQovCnt
    case TotQovAreaCol => t.totQovArea
    case NoIRpctCol => t.noIRpct
    case ActlFovCol => t.actlFov
  }

  /** num as a percentage of den. */
  function Percent(num: real, den: real): real
    requires den != 0.0
  {
    num / den * 100.0
  }

  /**
   * The totals of a surviving row: the zone's totqov_cnt and totqov_area,
   * NoIRpct = totqov_cnt / fov_cnt * 100 and
   * actlFOV = (totfov_area - totqov_area) / totfov_area * 100.
   */
  function RowTotals(q: QovRow, totCnt: real, totArea: real): Totals
    requires q.fov.fovCnt > 0 && q.fov.totFovArea != 0.0
  {
    Totals(totCnt, totArea,
           Percent(totCnt, q.fov.fovCnt as real),
           Percent(q.fov.totFovArea - totArea, q.fov.totFovArea))
  }

  /**
   * `zn_cvrg.update(qov_cvrg)` on the four zone-wide columns: a row of the
   * full table gets the totals of its surviving row, or stays missing.
   */
  function Updates(full: seq<FovRow>, qov: seq<QovRow>, totCnt: real, totArea: real): seq<Option<Totals>>
    requires Guarded(qov)
  {
    seq(|full|, i requires 0 <= i < |full| =>
      match FindQov(qov, full[i].frag.id)
      case None => None
      case Some(q) => Some(RowTotals(q, totCnt, totArea)))
  }

  /** Column s of the updated table, before gap filling. */
  function ColumnOf(u: seq<Option<Totals>>, s: Scalar): Column {
    seq(|u|, i requires 0 <= i < |u| => match u[i] case None => None case Some(t) => Some(Get(t, s)))
  }

  /** A row of the table `ZoneQOV` returns. */
  datatype ZoneRow = ZoneRow(
    fov: FovRow,
    loQov: Option<string>,
    loQovCnt: Option<nat>,
    loQovArea: Option<real>,
    totQovCnt: real,
    totQovArea: real,
    noIRpct: real,
    actlFov: real)

  /** The full table with the per-cause columns of its surviving rows and the four filled columns. */
  function Assemble(full: seq<FovRow>, qov: seq<QovRow>, cnt: seq<real>, area: seq<real>, pct: seq<real>, actl: seq<real>): seq<ZoneRow>
    requires |cnt| == |area| == |pct| == |actl| == |full|
  {
    seq(|full|, i requires 0 <= i < |full| =>
      match FindQov(qov, full[i].frag.id)
      case None => ZoneRow(full[i], None, None, None, cnt[i], area[i], pct[i], actl[i])
      case Some(q) => ZoneRow(full[i], Some(Label(q.cause)), Some(q.loQovCnt), Some(q.loQovArea), cnt[i], area[i], pct[i], actl[i]))
  }

  /** The table `ZoneQOV` returns for the zone's stamped fragments. */
  function ZoneTable(full: seq<FovRow>): (zn: seq<ZoneRow>)
    requires DivisionDefined(full)
    ensures |zn| == |full| && forall i :: 0 <= i < |zn| ==> zn[i].fov == full[i]
  {
    QovRowsFromFull(full);
    var qov := QovRows(full);
    var u := Updates(full, qov, TotQovCnt(qov), TotQovArea(qov));
    Assemble(full, qov, Filled(ColumnOf(u, TotQovCntCol)), Filled(ColumnOf(u, TotQovAreaCol)),
             Filled(ColumnOf(u, NoIRpctCol)), Filled(ColumnOf(u, ActlFovCol)))
  }

  /** `ZoneQOV`, step by step as the source computes it. */
  method ZoneQov(full: seq<FovRow>) returns (zn: seq<ZoneRow>)
    requires DivisionDefined(full)
    ensures zn == ZoneTable(full)
  {
    var dark := Select(full, Dark);
    var scaf := Select(full, Scaffolding);
    var folg := Select(full, Foliage);
    var darkCvrg := LowQov(dark, Dark);
    var scafCvrg := LowQov(scaf, Scaffolding);
    var folgCvrg := LowQov(folg, Foliage);
    var qov := KeepFirst(darkCvrg + (scafCvrg + folgCvrg));
    QovRowsFromFull(full);
    var totCnt := DistinctSum(Counts(qov));
    var totArea := DistinctSum(LoAreas(qov));
    var u := Updates(full, qov, totCnt, totArea);
    var cnt := FillColumn(ColumnOf(u, TotQovCntCol));
    var area := FillColumn(ColumnOf(u, TotQovAreaCol));
    var pct := FillColumn(ColumnOf(u, NoIRpctCol));
    var actl := FillColumn(ColumnOf(u, ActlFovCol));
    zn := Assemble(full, qov, cnt, area, pct, actl);
  }

  /**
   * Per-cause columns of the result: a degraded fragment's row carries the
   * label, pre-dedup count and pre-dedup area of the first cause it
   * matches; any other row keeps them missing.
   */
  lemma ZoneTableCauses(full: seq<FovRow>, i: nat)
    requires DistinctIds(full) && DivisionDefined(full) && i < |full|
    ensures match Priority(full[i].frag)
      case None =>
        ZoneTable(full)[i].loQov.None? && ZoneTable(full)[i].loQovCnt.None? && ZoneTable(full)[i].loQovArea.None?
      case Some(c) =>
        && ZoneTable(full)[i].loQov == Some(Label(c))
        && ZoneTable(full)[i].loQovCnt == Some(|Select(full, c)|)
        && ZoneTable(full)[i].loQovArea == Some(Sum(Areas(Frags(Select(full, c)))))
  {
    QovLookup(full, i);
  }

  /**
   * NoIRpct of a zone whose rows all carry fov_cnt = the row count. The
   * 0.0 of an empty zone is no division policy: `Expected` is read only on
   * a degraded row, so the zone is never empty there.
   */
  function ZoneNoIRpct(full: seq<FovRow>): real {
    if |full| == 0 then 0.0 else Percent(TotQovCnt(QovRows(full)), |full| as real)
  }

  /**
   * actlFOV of a zone whose rows all carry totfov_area = the sum of its
   * fov_area column. The 0.0 of a zero total is no division policy:
   * `Expected` is read only on a degraded row, where `DivisionDefined`
   * makes the total non-zero.
   */
  function ZoneActlFov(full: seq<FovRow>): real {
    var total := Sum(FovAreas(full));
    if total == 0.0 then 0.0 else Percent(total - TotQovArea(QovRows(full)), total)
  }

  /**
   * The zone-wide value of column s on a degraded row of a `ZoneFOV`
   * table. (The zero cases never arise there: a degraded row makes the
   * table non-empty, and its totfov_area is non-zero.)
   */
  function Expected(full: seq<FovRow>, s: Scalar): real {
    match s
    case TotQovCntCol => TotQovCnt(QovRows(full))
    case TotQovAreaCol => TotQovArea(QovRows(full))
    case NoIRpctCol => ZoneNoIRpct(full)
    case ActlFovCol => ZoneActlFov(full)
  }

  /** Column s of the result, as a sequence. */
  function ResultColumn(zn: seq<ZoneRow>, s: Scalar): seq<real> {
    seq(|zn|, i requires 0 <= i < |zn| =>
      match s
      case TotQovCntCol => zn[i].totQovCnt
      case TotQovAreaCol => zn[i].totQovArea
      case NoIRpctCol => zn[i].noIRpct
      case ActlFovCol => zn[i].actlFov)
  }

  /** On a row stamped with the zone's own count and total area, the totals are the zone-wide values. */
  lemma RowTotalsExpected(full: seq<FovRow>, q: QovRow, s: Scalar)
    requires q.fov.fovCnt == |full| > 0
    requires q.fov.totFovArea == Sum(FovAreas(full)) != 0.0
    ensures Get(RowTotals(q, TotQovCnt(QovRows(full)), TotQovArea(QovRows(full))), s) == Expected(full, s)
  {
  }

  /** Before filling, column s is present exactly on the degraded rows, with the zone-wide value there. */
  lemma RawColumn(full: seq<FovRow>, s: Scalar, j: nat)
    requires DistinctIds(full) && DivisionDefined(full) && Broadcast(full) && j < |full|
    ensures Guarded(QovRows(full))
    ensures
      var qov := QovRows(full);
      var col := ColumnOf(Updates(full, qov, TotQovCnt(qov), TotQovArea(qov)), s);
      col[j] == if Degraded(full[j].frag) then Some(Expected(full, s)) else None
  {
    QovRowsFromFull(full);
    var qov := QovRows(full);
    var u := Updates(full, qov, TotQovCnt(qov), TotQovArea(qov));
    QovLookup(full, j);
    var tc, ta := TotQovCnt(qov), TotQovArea(qov);
    if Degraded(full[j].frag) {
      var q := FindQov(qov, full[j].frag.id).value;
      assert q.fov == full[j];
      var total := Sum(FovAreas(full));
      assert q.fov.fovCnt == |full| && q.fov.totFovArea == total;
      assert u[j] == Some(RowTotals(q, tc, ta));
      RowTotalsExpected(full, q, s);
    } else {
      assert u[j] == None;
    }
  }

  /** The result column s, read off the filled columns of `ZoneTable`. */
  lemma ResultColumnIsFilled(full: seq<FovRow>, s: Scalar)
    requires DivisionDefined(full)
    ensures Guarded(QovRows(full))
    ensures
      var qov := QovRows(full);
      ResultColumn(ZoneTable(full), s) == Filled(ColumnOf(Updates(full, qov, TotQovCnt(qov), TotQovArea(qov)), s))
  {
    QovRowsFromFull(full);
  }

  /**
   * When some fragment of the zone is degraded, every row of the result
   * carries the same four zone-wide values: totqov_cnt, totqov_area,
   * NoIRpct = totqov_cnt / fov_cnt * 100 and
   * actlFOV = (totfov_area - totqov_area) / totfov_area * 100.
   */
  lemma ZoneTableTotals(full: seq<FovRow>, s: Scalar)
    requires DistinctIds(full) && DivisionDefined(full) && Broadcast(full)
    requires exists j :: 0 <= j < |full| && Degraded(full[j].frag)
    ensures forall i :: 0 <= i < |full| ==> ResultColumn(ZoneTable(full), s)[i] == Expected(full, s)
  {
    QovRowsFromFull(full);
    var qov := QovRows(full);
    var col := ColumnOf(Updates(full, qov, TotQovCnt(qov), TotQovArea(qov)), s);
    var j0 :| 0 <= j0 < |full| && Degraded(full[j0].frag);
    RawColumn(full, s, j0);
    forall j | 0 <= j < |col| && col[j].Some? ensures col[j].value == Expected(full, s) {
      RawColumn(full, s, j);
    }
    FilledConstant(col, Expected(full, s));
    ResultColumnIsFilled(full, s);
  }

  /** When no fragment of the zone is degraded, the four zone-wide columns are 0 on every row. */
  lemma ZoneTableClean(full: seq<FovRow>, s: Scalar)
    requires DivisionDefined(full)
    requires forall j :: 0 <= j < |full| ==> !Degraded(full[j].frag)
    ensures forall i :: 0 <= i < |full| ==> ResultColumn(ZoneTable(full), s)[i] == 0.0
  {
    QovRowsFromFull(full);
    var qov := QovRows(full);
    SelectNone(full, Dark);
    SelectNone(full, Scaffolding);
    SelectNone(full, Foliage);
    assert Concatenated(full) == [];
    var col := ColumnOf(Updates(full, qov, TotQovCnt(qov), TotQovArea(qov)), s);
    FilledAllMissing(col);
    ResultColumnIsFilled(full, s);
  }

  /** The causes under which at least one fragment of the zone is reported. */
  function Reported(full: seq<FovRow>): set<Cause> {
    set i | 0 <= i < |full| && Degraded(full[i].frag) :: Priority(full[i].frag).value
  }

  /** The pre-dedup row counts of the reported causes. */
  function CauseCounts(full: seq<FovRow>): set<real> {
    set c | c in Reported(full) :: |Select(full, c)| as real
  }

  /** The pre-dedup areas of the reported causes. */
  function CauseAreas(full: seq<FovRow>): set<real> {
    set c | c in Reported(full) :: Sum(Areas(Frags(Select(full, c))))
  }

  /** Each surviving row carries a reported cause: the first cause of its fragment. */
  lemma SurvivorCause(full: seq<FovRow>, k: nat)
    requires DistinctIds(full) && k < |QovRows(full)|
    ensures QovRows(full)[k].cause in Reported(full)
  {
    var qov := QovRows(full);
    QovRowsFromFull(full);
    var q := qov[k];
    assert q in qov;
    var j :| 0 <= j < |full| && full[j] == q.fov;
    FindQovDistinct(qov, k);
    QovLookup(full, j);
  }

  /** Each reported cause has a surviving row. */
  lemma ReportedSurvives(full: seq<FovRow>, c: Cause)
    requires DistinctIds(full) && c in Reported(full)
    ensures exists k :: 0 <= k < |QovRows(full)| && QovRows(full)[k].cause == c
  {
    var qov := QovRows(full);
    var j :| 0 <= j < |full| && Degraded(full[j].frag) && Priority(full[j].frag).value == c;
    QovLookup(full, j);
    var q := FindQov(qov, full[j].frag.id).value;
    var k :| 0 <= k < |qov| && qov[k] == q;
  }

  /** The surviving rows carry exactly the reported causes. */
  lemma SurvivingCauses(full: seq<FovRow>)
    requires DistinctIds(full)
    ensures forall q :: q in QovRows(full) ==> q.cause in Reported(full)
    ensures forall c :: c in Reported(full) ==> exists k :: 0 <= k < |QovRows(full)| && QovRows(full)[k].cause == c
  {
    var qov := QovRows(full);
    forall q | q in qov ensures q.cause in Reported(full) {
      var k :| 0 <= k < |qov| && qov[k] == q;
      SurvivorCause(full, k);
    }
    forall c | c in Reported(full) ensures exists k :: 0 <= k < |qov| && qov[k].cause == c {
      ReportedSurvives(full, c);
    }
  }

  /** The distinct values of the surviving loqov_cnt column are the pre-dedup counts of the reported causes. */
  lemma SurvivingCounts(full: seq<FovRow>)
    requires DistinctIds(full)
    ensures Values(Counts(QovRows(full))) == CauseCounts(full)
  {
    var qov := QovRows(full);
    QovRowsFromFull(full);
    SurvivingCauses(full);
    var counts := Counts(qov);
    forall x | x in Values(counts) ensures x in CauseCounts(full) {
      var k :| 0 <= k < |counts| && counts[k] == x;
      assert qov[k] in qov;
    }
    forall x | x in CauseCounts(full) ensures x in Values(counts) {
      var c :| c in Reported(full) && x == |Select(full, c)| as real;
      var k :| 0 <= k < |qov| && qov[k].cause == c;
      assert qov[k] in qov && counts[k] == x;
    }
  }

  /** The distinct values of the surviving loqov_area column are the pre-dedup areas of the reported causes. */
  lemma SurvivingAreas(full: seq<FovRow>)
    requires DistinctIds(full)
    ensures Values(LoAreas(QovRows(full))) == CauseAreas(full)
  {
    var qov := QovRows(full);
    QovRowsFromFull(full);
    SurvivingCauses(full);
    var areas := LoAreas(qov);
    forall x | x in Values(areas) ensures x in CauseAreas(full) {
      var k :| 0 <= k < |areas| && areas[k] == x;
      assert qov[k] in qov;
    }
    forall x | x in CauseAreas(full) ensures x in Values(areas) {
      var c :| c in Reported(full) && x == Sum(Areas(Frags(Select(full, c))));
      var k :| 0 <= k < |qov| && qov[k].cause == c;
      assert qov[k] in qov && areas[k] == x;
    }
  }

  /**
   * totqov_cnt and totqov_area add up the pre-dedup count (area) of each
   * reported cause, a value shared by two causes being added once: a
   * fragment dropped by de-duplication still counts towards its own
   * cause's total, and a cause all of whose fragments were dropped does not.
   */
  lemma TotalsAreDistinctSums(full: seq<FovRow>)
    requires DistinctIds(full)
    ensures TotQovCnt(QovRows(full)) == SetSum(CauseCounts(full))
    ensures TotQovArea(QovRows(full)) == SetSum(CauseAreas(full))
  {
    SurvivingCounts(full);
    SurvivingAreas(full);
    SumUnique(Counts(QovRows(full)));
    SumUnique(LoAreas(QovRows(full)));
  }
}
