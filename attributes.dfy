/**
 * `Attributes`: the rows of a camera attribute table keep their order and
 * contents, and the table's index (0..N-1 as read) is shifted to 1..N,
 * reversed and turned into text, so that row i of N is keyed str(N - i).
 */
module AttributeKeys {
  import opened PyText

  /** A table row together with its index label. */
  datatype Keyed<T> = Keyed(key: string, row: T)

  /** The index as the three statements of `Attributes` leave it, before it is attached to the rows. */
  method Attributes<T>(att: seq<T>) returns (t: seq<Keyed<T>>)
    ensures |t| == |att|
    ensures forall i :: 0 <= i < |t| ==> t[i].row == att[i]
    ensures forall i :: 0 <= i < |t| ==> t[i].key == NatToString(|att| - i)
  {
    var n := |att|;
    var index: seq<int> := seq(n, i => i);
    index := seq(n, i requires 0 <= i < n => index[i] + 1);
    index := seq(n, i requires 0 <= i < n => index[n - 1 - i]);
    assert forall i :: 0 <= i < n ==> index[i] == n - i;
    var keys := seq(n, i requires 0 <= i < n => NatToString(index[i]));
    t := seq(n, i requires 0 <= i < n => Keyed(keys[i], att[i]));
  }

  /** The key given to row i of n by `Attributes`. */
  function AlignedKey(n: nat, i: nat): string
    requires i < n
  {
    NatToString(n - i)
  }

  /** The set of keys `Attributes` gives a table of n rows. */
  function AlignedKeys(n: nat): set<string> {
    set i: nat | i < n :: AlignedKey(n, i)
  }

  /** The decimal texts of 1..n. */
  function DecimalRange(n: nat): set<string> {
    set k: nat | 1 <= k <= n :: NatToString(k)
  }

  /** The aligned keys are pairwise distinct. */
  lemma AlignedKeysDistinct(n: nat)
    ensures forall i, j :: 0 <= i < j < n ==> AlignedKey(n, i) != AlignedKey(n, j)
  {
    forall i, j | 0 <= i < j < n
      ensures AlignedKey(n, i) != AlignedKey(n, j)
    {
      NatToStringInjective(n - i, n - j);
    }
  }

  /**
   * The aligned keys are exactly "1".."n": the first row gets "n", the last
   * gets "1", and every key reads back as the row's position counted from
   * the end.
   */
  lemma {:induction false} AlignedKeysCover(n: nat)
    ensures AlignedKeys(n) == DecimalRange(n)
    ensures n > 0 ==> AlignedKey(n, 0) == NatToString(n) && AlignedKey(n, n - 1) == "1"
    ensures forall i :: 0 <= i < n ==> ParseDigits(AlignedKey(n, i)) == n - i
  {
    var lhs := AlignedKeys(n);
    var rhs := DecimalRange(n);
    forall x | x in rhs ensures x in lhs {
      var k :| 1 <= k <= n && x == NatToString(k);
      assert x == AlignedKey(n, n - k);
    }
    forall x | x in lhs ensures x in rhs {
      var i :| 0 <= i < n && x == AlignedKey(n, i);
      assert 1 <= n - i <= n && x == NatToString(n - i);
    }
    assert lhs == rhs;
    forall i | 0 <= i < n ensures ParseDigits(AlignedKey(n, i)) == n - i {
      ParseNatToString(n - i);
    }
  }
}
