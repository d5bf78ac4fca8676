/**
 Hirschberg's longest common subsequence algorithms, examples/maxcommonsubseq/hirschberg.py:
 the full table (A), the two-row table (B) and the divide-and-conquer reconstruction (C).
 */
module Hirschberg {

  import opened Sequences

  /** `s` is a subsequence of `a`. */
  predicate Subseq(s: string, a: string)
    decreases |a|
  {
    || s == []
    || (a != [] && (Subseq(s, Front(a)) || (Last(s) == Last(a) && Subseq(Front(s), Front(a)))))
  }

  predicate Common(s: string, a: string, b: string) {
    Subseq(s, a) && Subseq(s, b)
  }

  function Max(x: nat, y: nat): nat { if x >= y then x else y }

  /** The recurrence of the table: entry L[i][j] is `LcsLen(A[..i], B[..j])`. */
  function LcsLen(a: string, b: string): nat
    decreases |a| + |b|
  {
    if a == [] || b == [] then 0
    else if Last(a) == Last(b) then LcsLen(Front(a), Front(b)) + 1
    else Max(LcsLen(a, Front(b)), LcsLen(Front(a), b))
  }

  // ----- Subsequences -----

  lemma {:induction false} SubseqEmpty(s: string)
    requires Subseq(s, [])
    ensures s == []
  {
  }

  lemma {:induction false} SubseqFront(s: string, a: string)
    requires s != [] && Subseq(s, a)
    ensures Subseq(Front(s), a)
    decreases |a|
  {
    if Subseq(s, Front(a)) {
      SubseqFront(s, Front(a));
    } else if Front(s) != [] {
      assert Subseq(Front(s), Front(a));
    }
  }

  lemma {:induction false} SubseqConcat(s: string, a: string, t: string, b: string)
    requires Subseq(s, a) && Subseq(t, b)
    ensures Subseq(s + t, a + b)
    decreases |b|
  {
    if b == [] {
      assert t == [] && s + t == s && a + b == a;
    } else {
      assert Front(a + b) == a + Front(b);
      if t == [] {
        SubseqConcat(s, a, t, Front(b));
      } else if Subseq(t, Front(b)) {
        SubseqConcat(s, a, t, Front(b));
      } else {
        SubseqConcat(s, a, Front(t), Front(b));
        assert Front(s + t) == s + Front(t);
      }
    }
  }

  /** A subsequence of a concatenation is cut in two by it. */
  lemma {:induction false} SubseqCutSuper(s: string, a: string, b: string) returns (k: nat)
    requires Subseq(s, a + b)
    ensures k <= |s| && Subseq(s[..k], a) && Subseq(s[k..], b)
    decreases |b|
  {
    if b == [] {
      assert a + b == a && s[..|s|] == s;
      k := |s|;
    } else if s == [] {
      k := 0;
    } else {
      assert Front(a + b) == a + Front(b);
      if Subseq(s, a + Front(b)) {
        k := SubseqCutSuper(s, a, Front(b));
        if s[k..] != [] {
          assert Subseq(s[k..], Front(b));
        }
      } else {
        k := SubseqCutSuper(Front(s), a, Front(b));
        assert Front(s)[..k] == s[..k];
        assert Front(s[k..]) == Front(s)[k..];
      }
    }
  }

  /** A concatenation that is a subsequence cuts the longer string in two. */
  lemma {:induction false} SubseqCutSub(s: string, t: string, b: string) returns (j: nat)
    requires Subseq(s + t, b)
    ensures j <= |b| && Subseq(s, b[..j]) && Subseq(t, b[j..])
    decreases |b|
  {
    if t == [] {
      assert s + t == s && b[..|b|] == b;
      j := |b|;
    } else {
      assert Front(s + t) == s + Front(t);
      if Subseq(s + t, Front(b)) {
        j := SubseqCutSub(s, t, Front(b));
        assert Front(b)[..j] == b[..j] && Front(b[j..]) == Front(b)[j..];
      } else {
        j := SubseqCutSub(s, Front(t), Front(b));
        assert Front(b)[..j] == b[..j] && Front(b[j..]) == Front(b)[j..];
      }
    }
  }

  // ----- The table entry is the length of a longest common subsequence -----

  lemma {:induction false} NoneLonger(s: string, a: string, b: string)
    requires Common(s, a, b)
    ensures |s| <= LcsLen(a, b)
    decreases |a| + |b|
  {
    if s != [] {
      if Last(a) == Last(b) {
        assert Subseq(Front(s), Front(a)) by {
          if Subseq(s, Front(a)) { SubseqFront(s, Front(a)); }
        }
        assert Subseq(Front(s), Front(b)) by {
          if Subseq(s, Front(b)) { SubseqFront(s, Front(b)); }
        }
        NoneLonger(Front(s), Front(a), Front(b));
      } else if Subseq(s, Front(a)) {
        NoneLonger(s, Front(a), b);
      } else {
        NoneLonger(s, a, Front(b));
      }
    }
  }

  lemma {:induction false} SomeAsLong(a: string, b: string) returns (s: string)
    ensures Common(s, a, b) && |s| == LcsLen(a, b)
    decreases |a| + |b|
  {
    if a == [] || b == [] {
      s := [];
    } else if Last(a) == Last(b) {
      var t := SomeAsLong(Front(a), Front(b));
      s := t + [Last(a)];
      assert Front(s) == t;
    } else if LcsLen(a, Front(b)) >= LcsLen(Front(a), b) {
      s := SomeAsLong(a, Front(b));
    } else {
      s := SomeAsLong(Front(a), b);
    }
  }

  /** L[m][n] is the greatest length of a common subsequence: one has it and none exceeds it. */
  lemma {:induction false} LcsLenIsMaximum(a: string, b: string)
    ensures exists s :: Common(s, a, b) && |s| == LcsLen(a, b)
    ensures forall s :: Common(s, a, b) ==> |s| <= LcsLen(a, b)
  {
    var w := SomeAsLong(a, b);
    forall s | Common(s, a, b)
      ensures |s| <= LcsLen(a, b)
    {
      NoneLonger(s, a, b);
    }
  }

  // ----- Reversal -----

  lemma {:induction false} SubseqRev(s: string, a: string)
    requires Subseq(s, a)
    ensures Subseq(Rev(s), Rev(a))
    decreases |a|
  {
    if s != [] {
      if Subseq(s, Front(a)) {
        SubseqRev(s, Front(a));
        SubseqConcat([], [Last(a)], Rev(s), Rev(Front(a)));
        assert [] + Rev(s) == Rev(s);
      } else {
        SubseqRev(Front(s), Front(a));
        assert Subseq([Last(s)], [Last(a)]);
        SubseqConcat([Last(s)], [Last(a)], Rev(Front(s)), Rev(Front(a)));
      }
    }
  }

  lemma {:induction false} RevNotShorter(a: string, b: string)
    ensures LcsLen(a, b) <= LcsLen(Rev(a), Rev(b))
  {
    var s := SomeAsLong(a, b);
    SubseqRev(s, a);
    SubseqRev(s, b);
    NoneLonger(Rev(s), Rev(a), Rev(b));
  }

  /** Reversing both strings keeps the length of a longest common subsequence. */
  lemma {:induction false} LcsLenReversed(a: string, b: string)
    ensures LcsLen(Rev(a), Rev(b)) == LcsLen(a, b)
  {
    RevNotShorter(a, b);
    RevNotShorter(Rev(a), Rev(b));
    RevRev(a);
    RevRev(b);
  }

  // ----- The split -----

  /** What algorithm C adds up for break point `j`: L1[j] + L2[n - j]. */
  function Score(a: string, b: string, i: nat, j: nat): nat
    requires i <= |a| && j <= |b|
  {
    LcsLen(a[..i], b[..j]) + LcsLen(Rev(a[i..]), Rev(b)[..|b| - j])
  }

  lemma {:induction false} ScoreIsTwoHalves(a: string, b: string, i: nat, j: nat)
    requires i <= |a| && j <= |b|
    ensures Score(a, b, i, j) == LcsLen(a[..i], b[..j]) + LcsLen(a[i..], b[j..])
  {
    RevPrefix(b, j);
    LcsLenReversed(a[i..], b[j..]);
  }

  lemma {:induction false} HalvesNotLonger(a: string, b: string, i: nat, j: nat)
    requires i <= |a| && j <= |b|
    ensures LcsLen(a[..i], b[..j]) + LcsLen(a[i..], b[j..]) <= LcsLen(a, b)
  {
    var s := SomeAsLong(a[..i], b[..j]);
    var t := SomeAsLong(a[i..], b[j..]);
    SubseqConcat(s, a[..i], t, a[i..]);
    SubseqConcat(s, b[..j], t, b[j..]);
    assert a[..i] + a[i..] == a && b[..j] + b[j..] == b;
    NoneLonger(s + t, a, b);
  }

  lemma {:induction false} SomeSplitAsLong(a: string, b: string, i: nat) returns (j: nat)
    requires i <= |a|
    ensures j <= |b|
    ensures LcsLen(a, b) <= LcsLen(a[..i], b[..j]) + LcsLen(a[i..], b[j..])
  {
    var s := SomeAsLong(a, b);
    assert a[..i] + a[i..] == a;
    var k := SubseqCutSuper(s, a[..i], a[i..]);
    assert s[..k] + s[k..] == s;
    j := SubseqCutSub(s[..k], s[k..], b);
    NoneLonger(s[..k], a[..i], b[..j]);
    NoneLonger(s[k..], a[i..], b[j..]);
  }

  /** For every split `i` of A the best L1[j] + L2[n - j] is the length for the whole strings. */
  lemma {:induction false} SplitTheorem(a: string, b: string, i: nat)
    requires i <= |a|
    ensures forall j :: 0 <= j <= |b| ==> Score(a, b, i, j) <= LcsLen(a, b)
    ensures exists j :: 0 <= j <= |b| && Score(a, b, i, j) == LcsLen(a, b)
  {
    forall j | 0 <= j <= |b|
      ensures Score(a, b, i, j) <= LcsLen(a, b)
    {
      ScoreIsTwoHalves(a, b, i, j);
      HalvesNotLonger(a, b, i, j);
    }
    var j := SomeSplitAsLong(a, b, i);
    ScoreIsTwoHalves(a, b, i, j);
  }

  // ----- Algorithms A and B: the tables -----

  /** hirschbergalga: every entry of the full table is the length for its two prefixes. */
  method AlgA(a: string, b: string) returns (table: array2<nat>)
    ensures table.Length0 == |a| + 1 && table.Length1 == |b| + 1
    ensures forall i, j :: 0 <= i <= |a| && 0 <= j <= |b| ==> table[i, j] == LcsLen(a[..i], b[..j])
  {
    var m, n := |a|, |b|;
    table := new nat[m + 1, n + 1]((i, j) => 0);
    for i := 1 to m + 1
      invariant forall i', j :: 0 <= i' < i && 0 <= j <= n ==> table[i', j] == LcsLen(a[..i'], b[..j])
      invariant forall i' :: i <= i' <= m ==> table[i', 0] == 0
    {
      for j := 1 to n + 1
        invariant forall i', j' :: 0 <= i' < i && 0 <= j' <= n ==> table[i', j'] == LcsLen(a[..i'], b[..j'])
        invariant forall j' :: 0 <= j' < j ==> table[i, j'] == LcsLen(a[..i], b[..j'])
        invariant forall i' :: i < i' <= m ==> table[i', 0] == 0
      {
        assert Front(a[..i]) == a[..i - 1] && Front(b[..j]) == b[..j - 1];
        if a[i - 1] == b[j - 1] {
          table[i, j] := table[i - 1, j - 1] + 1;
        } else {
          table[i, j] := Max(table[i, j - 1], table[i - 1, j]);
        }
      }
    }
  }

  /** The row of the table for all of `a`. */
  ghost function LcsRow(a: string, b: string): (row: seq<nat>)
    ensures |row| == |b| + 1 && row[0] == 0
  {
    seq(|b| + 1, j requires 0 <= j <= |b| => LcsLen(a, b[..j]))
  }

  lemma {:induction false} RowStep(a: string, b: string, j: nat)
    requires a != [] && 1 <= j <= |b|
    ensures LcsRow(a, b)[j] == if Last(a) == b[j - 1] then LcsRow(Front(a), b)[j - 1] + 1
                               else Max(LcsRow(a, b)[j - 1], LcsRow(Front(a), b)[j])
  {
    assert Front(b[..j]) == b[..j - 1];
  }

  /** hirschbergalgb: two rows suffice for the last row of the table. */
  method AlgB(a: string, b: string) returns (row: seq<nat>)
    ensures |row| == |b| + 1
    ensures forall j :: 0 <= j <= |b| ==> row[j] == LcsLen(a, b[..j])
  {
    var m, n := |a|, |b|;
    var k := new nat[2, n + 1]((i, j) => 0);
    for i := 1 to m + 1
      invariant k[0, 0] == 0
      invariant forall j :: 0 <= j <= n ==> k[1, j] == LcsRow(a[..i - 1], b)[j]
    {
      ghost var above, here := LcsRow(a[..i - 1], b), LcsRow(a[..i], b);
      assert Front(a[..i]) == a[..i - 1];
      for j := 1 to n + 1
        invariant forall j' :: 0 <= j' < j ==> k[0, j'] == above[j']
        invariant forall j' :: 0 <= j' <= n ==> k[1, j'] == above[j']
      {
        k[0, j] := k[1, j];
      }
      for j := 1 to n + 1
        invariant forall j' :: 0 <= j' <= n ==> k[0, j'] == above[j']
        invariant forall j' :: 0 <= j' < j ==> k[1, j'] == here[j']
      {
        RowStep(a[..i], b, j);
        if a[i - 1] == b[j - 1] {
          k[1, j] := k[0, j - 1] + 1;
        } else {
          k[1, j] := Max(k[1, j - 1], k[0, j]);
        }
      }
    }
    assert a[..m] == a;
    row := seq(n + 1, j requires 0 <= j <= n reads k => k[1, j]);
  }

  // ----- Algorithm C: reconstruction -----

  /** The loop that looks for the break point: best score and first index among the first `n`. */
  function Scan(a: string, b: string, i: nat, n: nat): (r: (int, nat))
    requires i <= |a| && n <= |b| + 1
    ensures r.1 <= |b|
  {
    if n == 0 then (-1, 0)
    else
      var (m, k) := Scan(a, b, i, n - 1);
      if Score(a, b, i, n - 1) > m then (Score(a, b, i, n - 1), n - 1) else (m, k)
  }

  lemma {:induction false} ScanFindsFirstMaximum(a: string, b: string, i: nat, n: nat)
    requires i <= |a| && n <= |b| + 1
    ensures var (m, k) := Scan(a, b, i, n);
            && (n > 0 ==> k < n && m == Score(a, b, i, k))
            && (n == 0 ==> m == -1)
            && (forall j :: 0 <= j < n ==> Score(a, b, i, j) <= m)
            && (forall j :: 0 <= j < k ==> Score(a, b, i, j) < m)
  {
    if n > 0 {
      ScanFindsFirstMaximum(a, b, i, n - 1);
    }
  }

  function BreakPoint(a: string, b: string, i: nat): (k: nat)
    requires i <= |a|
    ensures k <= |b|
  {
    Scan(a, b, i, |b| + 1).1
  }

  lemma {:induction false} BreakPointOptimal(a: string, b: string, i: nat)
    requires i <= |a|
    ensures var k := BreakPoint(a, b, i); LcsLen(a[..i], b[..k]) + LcsLen(a[i..], b[k..]) == LcsLen(a, b)
  {
    ScanFindsFirstMaximum(a, b, i, |b| + 1);
    SplitTheorem(a, b, i);
    ScoreIsTwoHalves(a, b, i, BreakPoint(a, b, i));
  }

  /** hirschbergalgc terminates on these arguments. */
  predicate Terminates(a: string, b: string) {
    |a| >= 1 || |b| == 0
  }

  function AlgC(a: string, b: string): string
    requires Terminates(a, b)
    decreases |a|
  {
    if |b| == 0 then ""
    else if |a| == 1 then (if a[0] in b then a else "")
    else
      var i := |a| / 2;
      var k := BreakPoint(a, b, i);
      AlgC(a[..i], b[..k]) + AlgC(a[i..], b[k..])
  }

  lemma {:induction false} SingleSubseq(c: char, b: string)
    ensures Subseq([c], b) <==> c in b
    decreases |b|
  {
    if b != [] {
      SingleSubseq(c, Front(b));
      assert b == Front(b) + [Last(b)];
    }
  }

  lemma {:induction false} SingleIsLongest(a: string, b: string)
    requires |a| == 1
    ensures var c := if a[0] in b then a else ""; Common(c, a, b) && |c| == LcsLen(a, b)
  {
    SingleSubseq(a[0], b);
    SingleSubseq(a[0], a);
    assert a == [a[0]] && Front(a) == [];
    if a[0] in b {
      NoneLonger(a, a, b);
    }
    var s := SomeAsLong(a, b);
    if s != [] {
      assert !Subseq(s, Front(a));
      SubseqEmpty(Front(s));
      assert |s| == 1 && s[0] == a[0];
      assert s == [a[0]];
    }
  }

  lemma {:induction false} JoinCommon(s: string, t: string, a: string, b: string, i: nat, k: nat)
    requires i <= |a| && k <= |b|
    requires Common(s, a[..i], b[..k]) && Common(t, a[i..], b[k..])
    ensures Common(s + t, a, b)
  {
    SubseqConcat(s, a[..i], t, a[i..]);
    SubseqConcat(s, b[..k], t, b[k..]);
    assert a[..i] + a[i..] == a && b[..k] + b[k..] == b;
  }

  /** Algorithm C returns a common subsequence of A and B that none exceeds in length. */
  lemma {:induction false} AlgCIsLongest(a: string, b: string)
    requires Terminates(a, b)
    ensures Common(AlgC(a, b), a, b)
    ensures |AlgC(a, b)| == LcsLen(a, b)
    ensures forall s :: Common(s, a, b) ==> |s| <= |AlgC(a, b)|
    decreases |a|
  {
    LcsLenIsMaximum(a, b);
    if |b| == 0 {
    } else if |a| == 1 {
      SingleIsLongest(a, b);
    } else {
      var i := |a| / 2;
      var k := BreakPoint(a, b, i);
      AlgCIsLongest(a[..i], b[..k]);
      AlgCIsLongest(a[i..], b[k..]);
      JoinCommon(AlgC(a[..i], b[..k]), AlgC(a[i..], b[k..]), a, b, i, k);
      BreakPointOptimal(a, b, i);
    }
  }

  /** Outside that domain the second recursive call has the very arguments of the call itself. */
  lemma {:induction false} EmptyFirstStringLoops(b: string)
    requires |b| > 0
    ensures !Terminates("", b)
    ensures var i := |""| / 2; var k := BreakPoint("", b, i); ""[i..] == "" && b[k..] == b
  {
    assert Score("", b, 0, 0) == 0;
    ScanFindsFirstMaximum("", b, 0, |b| + 1);
    SplitTheorem("", b, 0);
  }

  /** The break point search and the two row computations, as hirschbergalgc does them. */
  method FindBreak(a: string, b: string, i: nat) returns (k: nat)
    requires i <= |a|
    ensures k == BreakPoint(a, b, i)
  {
    var n := |b|;
    var l1 := AlgB(a[..i], b);
    var l2 := AlgB(Rev(a[i..]), Rev(b));
    var m: int := -1;
    k := 0;
    for j := 0 to n + 1
      invariant (m, k) == Scan(a, b, i, j)
    {
      var t := l1[j] + l2[n - j];
      assert t == Score(a, b, i, j);
      if t > m {
        m := t;
        k := j;
      }
    }
  }

  method HirschbergC(a: string, b: string) returns (c: string)
    requires Terminates(a, b)
    ensures c == AlgC(a, b)
    ensures Common(c, a, b) && |c| == LcsLen(a, b)
    decreases |a|
  {
    AlgCIsLongest(a, b);
    if |b| == 0 {
      return "";
    }
    if |a| == 1 {
      if a[0] in b {
        return a;
      } else {
        return "";
      }
    }
    var i := |a| / 2;
    var k := FindBreak(a, b, i);
    var c1 := HirschbergC(a[..i], b[..k]);
    var c2 := HirschbergC(a[i..], b[k..]);
    return c1 + c2;
  }

  // ----- Cost -----

  /** Table entries that one call of algorithm B fills. */
  function Filled(a: string, b: string): nat {
    |a| * |b|
  }

  /** Table entries filled by all the calls of algorithm B that a call of algorithm C makes. */
  function Cells(a: string, b: string): nat
    requires Terminates(a, b)
    decreases |a|
  {
    if |b| == 0 || |a| == 1 then 0
    else
      var i := |a| / 2;
      var k := BreakPoint(a, b, i);
      Filled(a[..i], b) + Filled(Rev(a[i..]), Rev(b)) + Cells(a[..i], b[..k]) + Cells(a[i..], b[k..])
  }

  /** Nesting depth of the recursive calls. */
  function Depth(a: string, b: string): nat
    requires Terminates(a, b)
    decreases |a|
  {
    if |b| == 0 || |a| == 1 then 0
    else
      var i := |a| / 2;
      var k := BreakPoint(a, b, i);
      1 + Max(Depth(a[..i], b[..k]), Depth(a[i..], b[k..]))
  }

  lemma {:induction false} SplitArithmetic(m: nat, n: nat, i: nat, k: nat)
    requires m >= 2 && i == m / 2 && k <= n
    ensures i * n + (m - i) * n + 3 * (i * k) + 3 * ((m - i) * (n - k)) <= 3 * (m * n)
  {
    var p := m - i;
    assert 3 * p <= 2 * m;
    assert i * k <= p * k;
    assert p * k + p * (n - k) == p * n;
    assert i * n + p * n == m * n;
    assert (3 * p) * n <= (2 * m) * n;
  }

  /** All the recursion together fills at most three times the entries of one full table. */
  lemma {:induction false} QuadraticCells(a: string, b: string)
    requires Terminates(a, b)
    ensures Cells(a, b) <= 3 * (|a| * |b|)
    decreases |a|
  {
    if |b| != 0 && |a| != 1 {
      var i := |a| / 2;
      var k := BreakPoint(a, b, i);
      QuadraticCells(a[..i], b[..k]);
      QuadraticCells(a[i..], b[k..]);
      SplitArithmetic(|a|, |b|, i, k);
    }
  }

  function Pow2(d: nat): nat { if d == 0 then 1 else 2 * Pow2(d - 1) }

  /** The recursion is no deeper than the base-two logarithm of |A|, rounded up. */
  lemma {:induction false} LogarithmicDepth(a: string, b: string, d: nat)
    requires Terminates(a, b)
    requires |a| <= Pow2(d)
    ensures Depth(a, b) <= d
    decreases |a|
  {
    if |b| != 0 && |a| != 1 {
      var i := |a| / 2;
      var k := BreakPoint(a, b, i);
      LogarithmicDepth(a[..i], b[..k], d - 1);
      LogarithmicDepth(a[i..], b[k..], d - 1);
    }
  }

  /** For every B that is not empty it is at least that logarithm rounded down, since some half of each problem keeps a
      part of B. */
  lemma {:induction false} DepthAtLeast(a: string, b: string, d: nat)
    requires |b| > 0 && |a| >= Pow2(d)
    ensures Terminates(a, b) && Depth(a, b) >= d
    decreases d
  {
    PowPositive(d);
    if d > 0 {
      var i := |a| / 2;
      var k := BreakPoint(a, b, i);
      PowPositive(d - 1);
      if k > 0 {
        DepthAtLeast(a[..i], b[..k], d - 1);
      } else {
        DepthAtLeast(a[i..], b[k..], d - 1);
      }
    }
  }

  lemma {:induction false} PowPositive(d: nat)
    ensures Pow2(d) >= 1
  {
    if d > 0 {
      PowPositive(d - 1);
    }
  }

  /** So the depth has no bound in the length of B: it is `d` for every A of length 2^d, even for a B of one symbol. */
  lemma {:induction false} DepthIgnoresB(a: string, b: string, d: nat)
    requires |a| == Pow2(d) && |b| > 0
    ensures Terminates(a, b) && Depth(a, b) == d
  {
    DepthAtLeast(a, b, d);
    LogarithmicDepth(a, b, d);
  }

  // ----- The tracing variant, hirschbergalgc2 -----

  /** Offset `at` locates the slice `s` in the whole string. */
  predicate Located(at: nat, s: string, whole: string) {
    at + |s| <= |whole| && forall x :: 0 <= x < |s| ==> s[x] == whole[at + x]
  }

  /** The arguments of a call of hirschbergalgc2. */
  datatype Args = Args(sa: nat, sb: nat, a: string, b: string)

  /** A call and all the calls it leads to. */
  function CallsMade(sa: nat, sb: nat, a: string, b: string): seq<Args>
    requires Terminates(a, b)
    decreases |a|
  {
    if |b| == 0 || |a| == 1 then [Args(sa, sb, a, b)]
    else
      var i := |a| / 2;
      var k := BreakPoint(a, b, i);
      [Args(sa, sb, a, b)] + CallsMade(sa, sb, a[..i], b[..k]) + CallsMade(sa + i, sb + k, a[i..], b[k..])
  }

  predicate AllLocated(calls: seq<Args>, wholeA: string, wholeB: string) {
    forall x :: 0 <= x < |calls| ==>
      Located(calls[x].sa, calls[x].a, wholeA) && Located(calls[x].sb, calls[x].b, wholeB)
  }

  lemma {:induction false} HalvesLocated(at: nat, s: string, i: nat, whole: string)
    requires Located(at, s, whole) && i <= |s|
    ensures Located(at, s[..i], whole) && Located(at + i, s[i..], whole)
  {
  }

  lemma {:induction false} AllLocatedJoin(first: Args, left: seq<Args>, right: seq<Args>, wholeA: string,
                                          wholeB: string)
    requires Located(first.sa, first.a, wholeA) && Located(first.sb, first.b, wholeB)
    requires AllLocated(left, wholeA, wholeB) && AllLocated(right, wholeA, wholeB)
    ensures AllLocated([first] + left + right, wholeA, wholeB)
  {
  }

  /** Every call, at any depth, is given offsets that locate its slices in the original strings. */
  lemma {:induction false} OffsetsLocateSlices(sa: nat, sb: nat, a: string, b: string, wholeA: string, wholeB: string)
    requires Terminates(a, b)
    requires Located(sa, a, wholeA) && Located(sb, b, wholeB)
    ensures AllLocated(CallsMade(sa, sb, a, b), wholeA, wholeB)
    decreases |a|
  {
    if |b| != 0 && |a| != 1 {
      var i := |a| / 2;
      var k := BreakPoint(a, b, i);
      HalvesLocated(sa, a, i, wholeA);
      HalvesLocated(sb, b, k, wholeB);
      OffsetsLocateSlices(sa, sb, a[..i], b[..k], wholeA, wholeB);
      OffsetsLocateSlices(sa + i, sb + k, a[i..], b[k..], wholeA, wholeB);
      AllLocatedJoin(Args(sa, sb, a, b), CallsMade(sa, sb, a[..i], b[..k]), CallsMade(sa + i, sb + k, a[i..], b[k..]),
                     wholeA, wholeB);
    }
  }

  /** hirschbergalgc2: every recursive call meets the same requirement on its offsets. */
  method HirschbergC2(sa: nat, sb: nat, a: string, b: string, ghost wholeA: string, ghost wholeB: string)
    returns (c: string)
    requires Terminates(a, b)
    requires Located(sa, a, wholeA) && Located(sb, b, wholeB)
    ensures c == AlgC(a, b)
    decreases |a|
  {
    if |b| == 0 {
      return "";
    }
    if |a| == 1 {
      if a[0] in b {
        return a;
      } else {
        return "";
      }
    }
    var i := |a| / 2;
    var k := FindBreak(a, b, i);
    HalvesLocated(sa, a, i, wholeA);
    HalvesLocated(sb, b, k, wholeB);
    var c1 := HirschbergC2(sa, sb, a[..i], b[..k], wholeA, wholeB);
    var c2 := HirschbergC2(sa + i, sb + k, a[i..], b[k..], wholeA, wholeB);
    return c1 + c2;
  }
}
