/**
 * The gap filling `ZoneQOV` applies to its four zone-wide columns:
 * `fillna(method='ffill')`, then `fillna(method='bfill')`, then `fillna(0)`.
 * A column is a sequence of optional values, None standing for NaN.
 */
module Fill {
  import opened Wrappers

  /** A table column with missing entries. */
  type Column = seq<Option<real>>

  /** What ffill leaves at row i: the nearest present value at or above row i, if any. */
  function LastPresent(col: Column, i: nat): Option<real>
    requires i < |col|
  {
    if col[i].Some? || i == 0 then col[i] else LastPresent(col, i - 1)
  }

  /** What bfill leaves at row i: the nearest present value at or below row i, if any. */
  function NextPresent(col: Column, i: nat): Option<real>
    requires i < |col|
    decreases |col| - i
  {
    if col[i].Some? || i == |col| - 1 then col[i] else NextPresent(col, i + 1)
  }

  /**
   * LastPresent keeps a present value, is missing exactly when rows 0..i
   * all are, and otherwise copies the last present value at or above i.
   */
  lemma {:induction false} LastPresentSpec(col: Column, i: nat)
    requires i < |col|
    ensures col[i].Some? ==> LastPresent(col, i) == col[i]
    ensures LastPresent(col, i).None? <==> forall j :: 0 <= j <= i ==> col[j].None?
    ensures LastPresent(col, i).Some? ==>
      exists j :: 0 <= j <= i && col[j] == LastPresent(col, i) && forall k :: j < k <= i ==> col[k].None?
  {
    if col[i].None? && i > 0 {
      LastPresentSpec(col, i - 1);
    }
  }

  /**
   * NextPresent keeps a present value, is missing exactly when rows
   * i..|col|-1 all are, and otherwise copies the first present value at or
   * below i.
   */
  lemma {:induction false} NextPresentSpec(col: Column, i: nat)
    requires i < |col|
    ensures col[i].Some? ==> NextPresent(col, i) == col[i]
    ensures NextPresent(col, i).None? <==> forall j :: i <= j < |col| ==> col[j].None?
    ensures NextPresent(col, i).Some? ==>
      exists j :: i <= j < |col| && col[j] == NextPresent(col, i) && forall k :: i <= k < j ==> col[k].None?
    decreases |col| - i
  {
    if col[i].None? && i < |col| - 1 {
      NextPresentSpec(col, i + 1);
    }
  }

  /** The column after ffill. */
  function ForwardFilled(col: Column): Column {
    seq(|col|, i requires 0 <= i < |col| => LastPresent(col, i))
  }

  /** The column after bfill. */
  function BackFilled(col: Column): Column {
    seq(|col|, i requires 0 <= i < |col| => NextPresent(col, i))
  }

  /** The column after fillna(0). */
  function ZeroFilled(col: Column): seq<real> {
    seq(|col|, i requires 0 <= i < |col| => if col[i].Some? then col[i].value else 0.0)
  }

  /** The column after ffill, bfill and fillna(0), in that order. */
  function Filled(col: Column): seq<real> {
    ZeroFilled(BackFilled(ForwardFilled(col)))
  }

  /** ffill in place: each missing entry takes the (already filled) entry above it. */
  method ForwardFill(a: array<Option<real>>)
    modifies a
    ensures a[..] == ForwardFilled(old(a[..]))
  {
    ghost var col := a[..];
    var i := 0;
    while i < a.Length
      invariant 0 <= i <= a.Length
      invariant forall j :: 0 <= j < i ==> a[j] == LastPresent(col, j)
      invariant forall j :: i <= j < a.Length ==> a[j] == col[j]
    {
      if a[i].None? && i > 0 {
        a[i] := a[i - 1];
      }
      i := i + 1;
    }
  }

  /** bfill in place: each missing entry takes the (already filled) entry below it. */
  method BackFill(a: array<Option<real>>)
    modifies a
    ensures a[..] == BackFilled(old(a[..]))
  {
    ghost var col := a[..];
    var i := a.Length;
    while i > 0
      invariant 0 <= i <= a.Length
      invariant forall j :: i <= j < a.Length ==> a[j] == NextPresent(col, j)
      invariant forall j :: 0 <= j < i ==> a[j] == col[j]
    {
      i := i - 1;
      if a[i].None? && i < a.Length - 1 {
        a[i] := a[i + 1];
      }
    }
  }

  /** One of the four zone-wide columns of `ZoneQOV`, gap-filled as the source does. */
  method FillColumn(col: Column) returns (filled: seq<real>)
    ensures filled == Filled(col)
  {
    var a := new Option<real>[|col|](i requires 0 <= i < |col| => col[i]);
    assert a[..] == col;
    ForwardFill(a);
    BackFill(a);
    filled := seq(a.Length, i requires 0 <= i < a.Length reads a => if a[i].Some? then a[i].value else 0.0);
  }

  /** Filling never touches a present value. */
  lemma FilledKeepsPresent(col: Column, i: nat, v: real)
    requires i < |col| && col[i] == Some(v)
    ensures Filled(col)[i] == v
  {
    LastPresentSpec(col, i);
    NextPresentSpec(ForwardFilled(col), i);
  }

  /** A column with no value at all is filled with zeros. */
  lemma FilledAllMissing(col: Column)
    requires forall i :: 0 <= i < |col| ==> col[i].None?
    ensures forall i :: 0 <= i < |col| ==> Filled(col)[i] == 0.0
  {
    var ff := ForwardFilled(col);
    forall i | 0 <= i < |col|
      ensures Filled(col)[i] == 0.0
    {
      LastPresentSpec(col, i);
      forall j | i <= j < |col| ensures ff[j].None? {
        LastPresentSpec(col, j);
      }
      NextPresentSpec(ff, i);
    }
  }

  /**
   * Every filled entry is 0 or a value present somewhere in the column:
   * filling only copies values.
   */
  lemma FilledFromColumn(col: Column, i: nat)
    requires i < |col|
    ensures Filled(col)[i] == 0.0 || exists j :: 0 <= j < |col| && col[j] == Some(Filled(col)[i])
  {
    var ff := ForwardFilled(col);
    NextPresentSpec(ff, i);
    if BackFilled(ff)[i].Some? {
      var j :| i <= j < |col| && ff[j] == NextPresent(ff, i);
      LastPresentSpec(col, j);
    }
  }

  /**
   * A column whose present values all equal v, with at least one present,
   * is v on every row once filled.
   */
  lemma FilledConstant(col: Column, v: real)
    requires exists j :: 0 <= j < |col| && col[j].Some?
    requires forall j :: 0 <= j < |col| && col[j].Some? ==> col[j].value == v
    ensures forall i :: 0 <= i < |col| ==> Filled(col)[i] == v
  {
    var j0 :| 0 <= j0 < |col| && col[j0].Some?;
    var ff := ForwardFilled(col);
    forall k | 0 <= k < |col| && ff[k].Some? ensures ff[k].value == v {
      LastPresentSpec(col, k);
    }
    forall i | 0 <= i < |col|
      ensures Filled(col)[i] == v
    {
      LastPresentSpec(col, j0);
      NextPresentSpec(ff, i);
      if i <= j0 {
        assert ff[j0].Some?;
      } else {
        LastPresentSpec(col, i);
        assert ff[i].Some?;
      }
      var j :| i <= j < |col| && ff[j] == NextPresent(ff, i);
    }
  }
}
