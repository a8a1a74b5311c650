/**
 * The few Python string operations the camera-record parser and the
 * attribute aligner rely on: str.strip, str.split(':')[1] and str(int).
 */
module PyText {
  import opened Wrappers

  /** Python's str.isspace(): the characters str.strip() removes by default. */
  predicate IsSpace(c: char) {
    c == ' ' || ('\t' <= c <= '\r') || ('\U{1C}' <= c <= '\U{1F}') ||
    c == '\U{85}' || c == '\U{A0}' || c == '\U{1680}' || ('\U{2000}' <= c <= '\U{200A}') ||
    c == '\U{2028}' || c == '\U{2029}' || c == '\U{202F}' || c == '\U{205F}' || c == '\U{3000}'
  }

  /** The character sets the model strips: strip('.\n'), strip('\n') and strip(). */
  datatype StripSet = KeyPadding | Newline | Whitespace

  /** Whether strip with the given set removes c. */
  predicate Drops(cs: StripSet, c: char) {
    match cs
    case KeyPadding => c == '.' || c == '\n'
    case Newline => c == '\n'
    case Whitespace => IsSpace(c)
  }

  /** The first position at or after i holding a character strip keeps (|s| if there is none). */
  function KeptFrom(s: string, cs: StripSet, i: nat): nat
    requires i <= |s|
    decreases |s| - i
  {
    if i < |s| && Drops(cs, s[i]) then KeptFrom(s, cs, i + 1) else i
  }

  /** KeptFrom skips dropped characters only, and stops at the first kept one. */
  lemma {:induction false} KeptFromSpec(s: string, cs: StripSet, i: nat)
    requires i <= |s|
    ensures i <= KeptFrom(s, cs, i) <= |s|
    ensures forall k :: i <= k < KeptFrom(s, cs, i) ==> Drops(cs, s[k])
    ensures KeptFrom(s, cs, i) < |s| ==> !Drops(cs, s[KeptFrom(s, cs, i)])
    decreases |s| - i
  {
    if i < |s| && Drops(cs, s[i]) {
      KeptFromSpec(s, cs, i + 1);
    }
  }

  /** The end of the text before j, no lower than lo, once trailing dropped characters are cut. */
  function KeptUntil(s: string, cs: StripSet, lo: nat, j: nat): nat
    requires lo <= j <= |s|
    decreases j
  {
    if lo < j && Drops(cs, s[j - 1]) then KeptUntil(s, cs, lo, j - 1) else j
  }

  /** KeptUntil cuts dropped characters only, and stops after the last kept one. */
  lemma {:induction false} KeptUntilSpec(s: string, cs: StripSet, lo: nat, j: nat)
    requires lo <= j <= |s|
    ensures lo <= KeptUntil(s, cs, lo, j) <= j
    ensures forall k :: KeptUntil(s, cs, lo, j) <= k < j ==> Drops(cs, s[k])
    ensures KeptUntil(s, cs, lo, j) > lo ==> !Drops(cs, s[KeptUntil(s, cs, lo, j) - 1])
    decreases j
  {
    if lo < j && Drops(cs, s[j - 1]) {
      KeptUntilSpec(s, cs, lo, j - 1);
    }
  }

  /** Where the text kept by Strip(s, cs) starts in s. */
  function StripStart(s: string, cs: StripSet): nat {
    KeptFrom(s, cs, 0)
  }

  /**
   * Python's s.strip(chars): the middle of s left once every leading and
   * every trailing character in the set is removed.
   */
  function Strip(s: string, cs: StripSet): string {
    var lo := KeptFrom(s, cs, 0);
    KeptFromSpec(s, cs, 0);
    var hi := KeptUntil(s, cs, lo, |s|);
    KeptUntilSpec(s, cs, lo, |s|);
    s[lo..hi]
  }

  /**
   * What Strip keeps: a slice of s that neither starts nor ends with a
   * dropped character, everything before and after it being dropped ones.
   */
  lemma StripSpec(s: string, cs: StripSet)
    ensures Strip(s, cs) != [] ==> !Drops(cs, Strip(s, cs)[0]) && !Drops(cs, Strip(s, cs)[|Strip(s, cs)| - 1])
    ensures StripStart(s, cs) + |Strip(s, cs)| <= |s|
    ensures Strip(s, cs) == s[StripStart(s, cs)..StripStart(s, cs) + |Strip(s, cs)|]
    ensures forall k :: 0 <= k < StripStart(s, cs) ==> Drops(cs, s[k])
    ensures forall k :: StripStart(s, cs) + |Strip(s, cs)| <= k < |s| ==> Drops(cs, s[k])
  {
    var lo := KeptFrom(s, cs, 0);
    KeptFromSpec(s, cs, 0);
    KeptUntilSpec(s, cs, lo, |s|);
  }

  /** A character that strip does not remove occurs in the stripped text exactly when it occurs in s. */
  lemma StripKeeps(s: string, cs: StripSet, c: char)
    requires !Drops(cs, c)
    ensures c in Strip(s, cs) <==> c in s
  {
    StripSpec(s, cs);
    var r, i := Strip(s, cs), StripStart(s, cs);
    if c in s {
      var k :| 0 <= k < |s| && s[k] == c;
      assert r[k - i] == c;
    }
  }

  /** Dropped characters from i to the end leave nothing kept from i on. */
  lemma {:induction false} KeptFromDropped(s: string, cs: StripSet, i: nat)
    requires i <= |s|
    requires forall k :: i <= k < |s| ==> Drops(cs, s[k])
    ensures KeptFrom(s, cs, i) == |s|
    decreases |s| - i
  {
    if i < |s| {
      KeptFromDropped(s, cs, i + 1);
    }
  }

  /** Appending dropped characters moves the start of the kept text only when s itself keeps nothing. */
  lemma {:induction false} KeptFromAppend(s: string, t: string, cs: StripSet, i: nat)
    requires i <= |s|
    requires forall k :: 0 <= k < |t| ==> Drops(cs, t[k])
    ensures KeptFrom(s + t, cs, i) == if KeptFrom(s, cs, i) < |s| then KeptFrom(s, cs, i) else |s + t|
    decreases |s| - i
  {
    if i < |s| && Drops(cs, s[i]) {
      KeptFromAppend(s, t, cs, i + 1);
    } else if i == |s| {
      KeptFromDropped(s + t, cs, i);
    }
  }

  /** KeptUntil below |s| does not look at what follows s. */
  lemma {:induction false} KeptUntilAppend(s: string, t: string, cs: StripSet, lo: nat, j: nat)
    requires lo <= j <= |s|
    ensures KeptUntil(s + t, cs, lo, j) == KeptUntil(s, cs, lo, j)
    decreases j
  {
    if lo < j && Drops(cs, s[j - 1]) {
      KeptUntilAppend(s, t, cs, lo, j - 1);
    }
  }

  /** KeptUntil passes over a run of dropped characters ending at j. */
  lemma {:induction false} KeptUntilDropped(s: string, cs: StripSet, lo: nat, n: nat, j: nat)
    requires lo <= n <= j <= |s|
    requires forall k :: n <= k < j ==> Drops(cs, s[k])
    ensures KeptUntil(s, cs, lo, j) == KeptUntil(s, cs, lo, n)
    decreases j
  {
    if n < j {
      KeptUntilDropped(s, cs, lo, n, j - 1);
    }
  }

  /** Stripping ignores a tail of characters it drops. */
  lemma StripDropTail(s: string, t: string, cs: StripSet)
    requires forall k :: 0 <= k < |t| ==> Drops(cs, t[k])
    ensures Strip(s + t, cs) == Strip(s, cs)
  {
    var u, lo := s + t, KeptFrom(s, cs, 0);
    KeptFromSpec(s, cs, 0);
    KeptFromAppend(s, t, cs, 0);
    if lo < |s| {
      forall k | |s| <= k < |u| ensures Drops(cs, u[k]) {
        assert u[k] == t[k - |s|];
      }
      KeptUntilDropped(u, cs, lo, |s|, |u|);
      KeptUntilAppend(s, t, cs, lo, |s|);
      KeptUntilSpec(s, cs, lo, |s|);
      var hi := KeptUntil(s, cs, lo, |s|);
      assert Strip(u, cs) == u[lo..hi] == s[lo..hi];
    } else {
      assert Strip(u, cs) == [] == Strip(s, cs);
    }
  }

  /** t holds only line ends. */
  predicate Newlines(t: string) {
    forall k :: 0 <= k < |t| ==> t[k] == '\n'
  }

  /** A text followed only by newlines strips of whitespace as the text alone does. */
  lemma StripNewlineTail(f: string, t: string)
    requires Newlines(t)
    ensures Strip(f + t, Whitespace) == Strip(f, Whitespace)
  {
    StripDropTail(f, t, Whitespace);
  }

  /** Stripping twice removes nothing more. */
  lemma StripIdempotent(s: string, cs: StripSet)
    ensures Strip(Strip(s, cs), cs) == Strip(s, cs)
  {
    var r := Strip(s, cs);
    StripSpec(s, cs);
    assert KeptFrom(r, cs, 0) == 0;
    assert KeptUntil(r, cs, 0, |r|) == |r|;
  }

  /** The first position at or after i holding c (|s| if there is none). */
  function IndexOf(s: string, c: char, i: nat): (k: nat)
    requires i <= |s|
    ensures i <= k <= |s|
    decreases |s| - i
  {
    if i == |s| || s[i] == c then i else IndexOf(s, c, i + 1)
  }

  /** IndexOf finds the first c at or after i. */
  lemma {:induction false} IndexOfSpec(s: string, c: char, i: nat)
    requires i <= |s|
    ensures i <= IndexOf(s, c, i) <= |s|
    ensures c !in s[i..IndexOf(s, c, i)]
    ensures IndexOf(s, c, i) < |s| ==> s[IndexOf(s, c, i)] == c
    decreases |s| - i
  {
    if i < |s| && s[i] != c {
      IndexOfSpec(s, c, i + 1);
      assert s[i..IndexOf(s, c, i)] == [s[i]] + s[i + 1..IndexOf(s, c, i + 1)];
    }
  }

  /** The first c at or after i is at p when p is c (or the end) and nothing in between is c. */
  lemma {:induction false} IndexOfAt(s: string, c: char, i: nat, p: nat)
    requires i <= p <= |s|
    requires forall k :: i <= k < p ==> s[k] != c
    requires p == |s| || s[p] == c
    ensures IndexOf(s, c, i) == p
    decreases p - i
  {
    if i < p {
      IndexOfAt(s, c, i + 1, p);
    }
  }

  /**
   * Searching s from lo + a finds c where the search in its slice
   * u = s[lo..lo + |u|] from a finds it, when no character before lo
   * (from start on) is c.
   */
  lemma IndexOfSlice(s: string, u: string, c: char, lo: nat, start: nat, a: nat)
    requires lo + |u| <= |s| && u == s[lo..lo + |u|] && start <= lo && a <= |u|
    requires forall k :: start <= k < lo ==> s[k] != c
    requires IndexOf(u, c, a) < |u|
    ensures IndexOf(s, c, start) == lo + IndexOf(u, c, a) || a > 0
    ensures a > 0 ==> IndexOf(s, c, lo + a) == lo + IndexOf(u, c, a)
  {
    var p := IndexOf(u, c, a);
    IndexOfSpec(u, c, a);
    assert forall k :: lo + a <= k < lo + p ==> s[k] != c by {
      forall k | lo + a <= k < lo + p ensures s[k] != c {
        assert s[k] == u[a..p][k - lo - a];
      }
    }
    assert s[lo + p] == u[p];
    if a == 0 {
      IndexOfAt(s, c, start, lo + p);
    } else {
      IndexOfAt(s, c, lo + a, lo + p);
    }
  }

  /**
   * A field that runs to the end of the slice u = s[lo..lo + |u|] runs, in
   * s, over the rest of s as well: the field of u followed by the
   * characters of s after u.
   */
  lemma FieldToEnd(s: string, u: string, lo: nat, a: nat)
    requires lo + |u| <= |s| && u == s[lo..lo + |u|] && a <= |u|
    requires forall k :: lo + |u| <= k < |s| ==> s[k] != ':'
    requires IndexOf(u, ':', a) == |u|
    ensures s[lo + a..IndexOf(s, ':', lo + a)] == u[a..IndexOf(u, ':', a)] + s[lo + |u|..]
  {
    IndexOfSpec(u, ':', a);
    assert forall k :: lo + a <= k < |s| ==> s[k] != ':' by {
      forall k | lo + a <= k < |s| ensures s[k] != ':' {
        if k < lo + |u| {
          assert s[k] == u[a..][k - lo - a];
        }
      }
    }
    IndexOfAt(s, ':', lo + a, |s|);
    assert u[a..IndexOf(u, ':', a)] == u[a..];
  }

  /** A field that ends inside the slice u = s[lo..lo + |u|] is the same text in s. */
  lemma FieldInside(s: string, u: string, lo: nat, a: nat)
    requires lo + |u| <= |s| && u == s[lo..lo + |u|] && 0 < a <= |u|
    requires IndexOf(u, ':', a) < |u|
    ensures s[lo + a..IndexOf(s, ':', lo + a)] == u[a..IndexOf(u, ':', a)]
  {
    IndexOfSlice(s, u, ':', lo, lo, a);
    SliceOfSlice(s, u, lo, a, IndexOf(u, ':', a));
  }

  /** A slice of the slice u = s[lo..lo + |u|] is the shifted slice of s. */
  lemma SliceOfSlice<X>(s: seq<X>, u: seq<X>, lo: nat, a: nat, b: nat)
    requires lo + |u| <= |s| && u == s[lo..lo + |u|] && a <= b <= |u|
    ensures s[lo + a..lo + b] == u[a..b]
  {
    forall k | 0 <= k < b - a
      ensures s[lo + a..lo + b][k] == u[a..b][k]
    {
      assert s[lo + a + k] == u[a + k];
    }
  }

  /**
   * The field of s from lo + a to the next ':' is the field of u from a,
   * followed by the newlines after u when u has no further ':'.
   */
  lemma FieldInLine(s: string, u: string, lo: nat, a: nat)
    requires lo + |u| <= |s| && u == s[lo..lo + |u|] && 0 < a <= |u|
    requires forall k :: lo + |u| <= k < |s| ==> s[k] == '\n'
    ensures var f, g := u[a..IndexOf(u, ':', a)], s[lo + a..IndexOf(s, ':', lo + a)];
      |f| <= |g| && g == f + g[|f|..] && Newlines(g[|f|..])
  {
    var f, g := u[a..IndexOf(u, ':', a)], s[lo + a..IndexOf(s, ':', lo + a)];
    if IndexOf(u, ':', a) < |u| {
      FieldInside(s, u, lo, a);
      assert g[|f|..] == [];
    } else {
      FieldToEnd(s, u, lo, a);
      var t := s[lo + |u|..];
      assert g[|f|..] == t;
      assert Newlines(t) by {
        forall k | 0 <= k < |t| ensures t[k] == '\n' {
          assert t[k] == s[lo + |u| + k];
        }
      }
    }
  }

  /**
   * The second ':'-field of s, when s has no ':' before lo and nothing but
   * newlines after u = s[lo..lo + |u|], is the second field of u followed
   * by some of those newlines.
   */
  lemma SecondFieldInLine(s: string, u: string, lo: nat)
    requires lo + |u| <= |s| && u == s[lo..lo + |u|]
    requires forall k :: 0 <= k < lo ==> s[k] != ':'
    requires forall k :: lo + |u| <= k < |s| ==> s[k] == '\n'
    requires ':' in u
    ensures IndexOf(s, ':', 0) < |s| && SecondField(u).Some?
    ensures var f := SecondField(u).value;
      var g := s[IndexOf(s, ':', 0) + 1..IndexOf(s, ':', IndexOf(s, ':', 0) + 1)];
      |f| <= |g| && g == f + g[|f|..] && Newlines(g[|f|..])
  {
    IndexOfSpec(u, ':', 0);
    var iu := IndexOf(u, ':', 0);
    IndexOfSlice(s, u, ':', lo, 0, 0);
    IndexOfSpec(u, ':', iu + 1);
    var a := iu + 1;
    var f := u[a..IndexOf(u, ':', a)];
    assert SecondField(u) == Some(f);
    var start := IndexOf(s, ':', 0) + 1;
    assert start == lo + a;
    FieldInLine(s, u, lo, a);
  }

  /**
   * The second ':'-field of line.strip('\n') is the second field of line
   * itself, less the newlines that end it when it runs to the end of line.
   */
  lemma UnterminatedSecondField(line: string)
    requires ':' in line
    ensures IndexOf(line, ':', 0) < |line| && SecondField(Strip(line, Newline)).Some?
    ensures var f := SecondField(Strip(line, Newline)).value;
      var g := line[IndexOf(line, ':', 0) + 1..IndexOf(line, ':', IndexOf(line, ':', 0) + 1)];
      |f| <= |g| && g == f + g[|f|..] && Newlines(g[|f|..])
  {
    var u, lo := Strip(line, Newline), StripStart(line, Newline);
    StripSpec(line, Newline);
    StripKeeps(line, Newline, ':');
    assert forall k :: 0 <= k < lo ==> line[k] != ':' by {
      forall k | 0 <= k < lo ensures line[k] != ':' {
        assert Drops(Newline, line[k]);
      }
    }
    assert forall k :: lo + |u| <= k < |line| ==> line[k] == '\n' by {
      forall k | lo + |u| <= k < |line| ensures line[k] == '\n' {
        assert Drops(Newline, line[k]);
      }
    }
    SecondFieldInLine(line, u, lo);
  }

  /**
   * Python's s.split(':')[1]: the field between the first ':' and the next
   * one (or the end of s); None where split gives a single field, so that
   * indexing [1] raises IndexError.
   */
  function SecondField(s: string): Option<string> {
    var i := IndexOf(s, ':', 0);
    IndexOfSpec(s, ':', 0);
    if i == |s| then None
    else
      IndexOfSpec(s, ':', i + 1);
      Some(s[i + 1..IndexOf(s, ':', i + 1)])
  }

  /**
   * SecondField is None exactly when s has no ':'; otherwise it is the
   * colon-free text that follows the first ':' and runs to the next ':' or
   * to the end of s.
   */
  lemma SecondFieldSpec(s: string)
    ensures SecondField(s).None? <==> ':' !in s
    ensures SecondField(s).Some? ==>
      var i, f := IndexOf(s, ':', 0), SecondField(s).value;
      && i + 1 + |f| <= |s| && s[i] == ':' && ':' !in s[..i]
      && ':' !in f && s[i + 1..i + 1 + |f|] == f
      && (i + 1 + |f| == |s| || s[i + 1 + |f|] == ':')
  {
    var i := IndexOf(s, ':', 0);
    IndexOfSpec(s, ':', 0);
    if i < |s| {
      IndexOfSpec(s, ':', i + 1);
    } else {
      assert s[0..i] == s;
    }
  }

  /** The decimal digit d as a character. */
  function DigitChar(d: nat): (c: char)
    requires d < 10
    ensures '0' <= c <= '9'
  {
    ('0' as int + d) as char
  }

  /** The value of a decimal digit character (0 for any other character). */
  function DigitValue(c: char): nat {
    if '0' <= c <= '9' then c as int - '0' as int else 0
  }

  /** Python's str(n) for a non-negative integer: its decimal digits, no leading zero. */
  function NatToString(n: nat): (s: string)
    ensures |s| >= 1
    ensures forall i :: 0 <= i < |s| ==> '0' <= s[i] <= '9'
    ensures |s| > 1 ==> s[0] != '0'
    decreases n
  {
    if n < 10 then [DigitChar(n)] else NatToString(n / 10) + [DigitChar(n % 10)]
  }

  /** Python's int(s) on a string of decimal digits. */
  function ParseDigits(s: string): nat {
    if s == [] then 0 else ParseDigits(s[..|s| - 1]) * 10 + DigitValue(s[|s| - 1])
  }

  /** int(str(n)) == n. */
  lemma {:induction false} ParseNatToString(n: nat)
    ensures ParseDigits(NatToString(n)) == n
    decreases n
  {
    var s := NatToString(n);
    if n < 10 {
      assert s[..|s| - 1] == [];
    } else {
      ParseNatToString(n / 10);
      assert s[..|s| - 1] == NatToString(n / 10);
    }
  }

  /** Distinct integers have distinct decimal texts. */
  lemma NatToStringInjective(m: nat, n: nat)
    ensures NatToString(m) == NatToString(n) ==> m == n
  {
    ParseNatToString(m);
    ParseNatToString(n);
  }
}
