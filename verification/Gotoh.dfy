/**
 Gotoh's affine-gap alignment, examples/smithwaterman/sw.py: the three-matrix program, its
 in-place two-vector forms, and the midpoint search of the divide-and-conquer form.
 */
module Gotoh {
  import opened Sequences

  /** A gap of k symbols costs `g + k * h`. */
  datatype Costs = Costs(g: real, h: real)

  function W(x: char, y: char): real {
    if x == y then 0.0 else 1.0
  }

  function Gap(p: Costs, k: nat): real {
    p.g + k as real * p.h
  }

  function Min(x: real, y: real): real { if x <= y then x else y }

  // ----- Alignments, the reference definition -----

  /** One column: convert a symbol of A to one of B, delete one of A, or insert one of B. */
  datatype Op = Sub | Del | Ins

  function ACount(ops: seq<Op>): nat {
    if ops == [] then 0 else ACount(Front(ops)) + if Last(ops).Ins? then 0 else 1
  }

  function BCount(ops: seq<Op>): nat {
    if ops == [] then 0 else BCount(Front(ops)) + if Last(ops).Del? then 0 else 1
  }

  /** `ops` converts all of `a` to all of `b`. */
  predicate Aligns(a: string, b: string, ops: seq<Op>) {
    ACount(ops) == |a| && BCount(ops) == |b|
  }

  /** A gap column opens a run unless the column before it has the same kind. */
  function Opens(p: Costs, before: seq<Op>, op: Op): real {
    if before != [] && Last(before) == op then 0.0 else p.g
  }

  /** Conversion costs, plus `g` for each maximal run of deletions or of insertions, plus `h` a gap symbol. */
  function Base(p: Costs, a: string, b: string, ops: seq<Op>): real
    requires Aligns(a, b, ops)
  {
    if ops == [] then 0.0
    else
      match Last(ops)
      case Sub => Base(p, Front(a), Front(b), Front(ops)) + W(Last(a), Last(b))
      case Del => Base(p, Front(a), b, Front(ops)) + Opens(p, Front(ops), Del) + p.h
      case Ins => Base(p, a, Front(b), Front(ops)) + Opens(p, Front(ops), Ins) + p.h
  }

  /** The cost when a run of deletions at the very beginning is opened at price `t`. */
  function Cost(p: Costs, t: real, a: string, b: string, ops: seq<Op>): real
    requires Aligns(a, b, ops)
  {
    Base(p, a, b, ops) + if ops != [] && ops[0].Del? then t - p.g else 0.0
  }

  /** The cost when a run of deletions at the beginning is opened at price `tb` and one at the end at price `te`. */
  function TotalCost(p: Costs, tb: real, te: real, a: string, b: string, ops: seq<Op>): real
    requires Aligns(a, b, ops)
  {
    Cost(p, tb, a, b, ops) + if ops != [] && Last(ops).Del? then te - p.g else 0.0
  }

  // ----- The recurrences -----

  /** Matrix C for the prefixes `a` and `b`, with leading deletions opened at price `t`. */
  function C(p: Costs, t: real, a: string, b: string): real
    decreases |a| + |b|, 1
  {
    if a == [] && b == [] then 0.0
    else if a == [] then Gap(p, |b|)
    else if b == [] then t + |a| as real * p.h
    else Min(Min(D(p, t, a, b), I(p, t, a, b)), C(p, t, Front(a), Front(b)) + W(Last(a), Last(b)))
  }

  /** Matrix D: the last symbol of `a` is deleted. */
  function D(p: Costs, t: real, a: string, b: string): real
    requires b != []
    decreases |a| + |b|, 0
  {
    if a == [] then Gap(p, |b|) + p.g
    else Min(D(p, t, Front(a), b), C(p, t, Front(a), b) + p.g) + p.h
  }

  /** Matrix I: the last symbol of `b` is inserted. */
  function I(p: Costs, t: real, a: string, b: string): real
    requires a != []
    decreases |a| + |b|, 0
  {
    if b == [] then t + |a| as real * p.h + p.g
    else Min(I(p, t, a, Front(b)), C(p, t, a, Front(b)) + p.g) + p.h
  }

  // ----- Facts about alignments -----

  lemma {:induction false} CountConcat(s: seq<Op>, r: seq<Op>)
    ensures ACount(s + r) == ACount(s) + ACount(r)
    ensures BCount(s + r) == BCount(s) + BCount(r)
    decreases |r|
  {
    if r == [] {
      assert s + r == s;
    } else {
      assert Front(s + r) == s + Front(r);
      CountConcat(s, Front(r));
    }
  }

  lemma {:induction false} CountRev(ops: seq<Op>)
    ensures ACount(Rev(ops)) == ACount(ops) && BCount(Rev(ops)) == BCount(ops)
    decreases |ops|
  {
    if ops != [] {
      CountRev(Front(ops));
      CountConcat([Last(ops)], Rev(Front(ops)));
      assert Front([Last(ops)]) == [];
    }
  }

  /** The cost of opening saved when two alignments are put together. */
  function Saved(p: Costs, s: seq<Op>, r: seq<Op>): real {
    if s != [] && r != [] && Last(s) == r[0] && !r[0].Sub? then p.g else 0.0
  }

  /** What the column `op`, over the symbols `x` and `y`, adds after `before`. */
  function ColumnCost(p: Costs, before: seq<Op>, op: Op, x: string, y: string): real
    requires op.Sub? ==> x != [] && y != []
  {
    if op.Sub? then W(x[0], y[0]) else Opens(p, before, op) + p.h
  }

  /** `x` and `y` are the symbols a column `op` stands over. */
  predicate Under(op: Op, x: string, y: string) {
    |x| == (if op.Ins? then 0 else 1) && |y| == (if op.Del? then 0 else 1)
  }

  lemma {:induction false} BaseSnoc(p: Costs, a: string, b: string, ops: seq<Op>, op: Op, x: string, y: string)
    requires Aligns(a, b, ops) && Under(op, x, y)
    ensures Aligns(a + x, b + y, ops + [op])
    ensures Base(p, a + x, b + y, ops + [op]) == Base(p, a, b, ops) + ColumnCost(p, ops, op, x, y)
  {
    assert Front(ops + [op]) == ops;
    if !op.Ins? { assert Front(a + x) == a && Last(a + x) == x[0]; } else { assert a + x == a; }
    if !op.Del? { assert Front(b + y) == b && Last(b + y) == y[0]; } else { assert b + y == b; }
  }

  /** The last column of a non-empty alignment and the symbols it stands over. */
  lemma {:induction false} Unsnoc(a: string, b: string, ops: seq<Op>)
    returns (a1: string, b1: string, x: string, y: string)
    requires Aligns(a, b, ops) && ops != []
    ensures a == a1 + x && b == b1 + y && Under(Last(ops), x, y)
    ensures Aligns(a1, b1, Front(ops)) && ops == Front(ops) + [Last(ops)]
  {
    a1, x := a, [];
    b1, y := b, [];
    if !Last(ops).Ins? { a1, x := Front(a), [Last(a)]; }
    if !Last(ops).Del? { b1, y := Front(b), [Last(b)]; }
  }

  lemma {:induction false} BaseConcatSnoc(p: Costs, a: string, b: string, s: seq<Op>, a': string, b': string,
                                          r: seq<Op>,
                       op: Op, x: string, y: string)
    requires Aligns(a, b, s) && Aligns(a', b', r) && Under(op, x, y)
    requires Aligns(a + a', b + b', s + r)
    requires Base(p, a + a', b + b', s + r) == Base(p, a, b, s) + Base(p, a', b', r) - Saved(p, s, r)
    ensures Aligns(a' + x, b' + y, r + [op])
    ensures Aligns(a + a' + x, b + b' + y, s + r + [op])
    ensures Base(p, a + a' + x, b + b' + y, s + r + [op])
            == Base(p, a, b, s) + Base(p, a' + x, b' + y, r + [op]) - Saved(p, s, r + [op])
  {
    BaseSnoc(p, a', b', r, op, x, y);
    BaseSnoc(p, a + a', b + b', s + r, op, x, y);
    SavedSnoc(p, s, r, op, x, y);
  }

  /** Putting two alignments together costs their sum, less one opening when a run goes across. */
  lemma {:induction false} BaseConcat(p: Costs, a: string, b: string, s: seq<Op>, a': string, b': string, r: seq<Op>)
    requires Aligns(a, b, s) && Aligns(a', b', r)
    ensures Aligns(a + a', b + b', s + r)
    ensures Base(p, a + a', b + b', s + r) == Base(p, a, b, s) + Base(p, a', b', r) - Saved(p, s, r)
    decreases |r|
  {
    if r == [] {
      assert s + r == s && a + a' == a && b + b' == b;
    } else {
      var a1, b1, x, y := Unsnoc(a', b', r);
      BaseConcat(p, a, b, s, a1, b1, Front(r));
      BaseConcatSnoc(p, a, b, s, a1, b1, Front(r), Last(r), x, y);
      ConcatAssociative(a, a1, x);
      ConcatAssociative(b, b1, y);
      ConcatAssociative(s, Front(r), [Last(r)]);
    }
  }

  lemma {:induction false} SavedSnoc(p: Costs, s: seq<Op>, r: seq<Op>, op: Op, x: string, y: string)
    requires Under(op, x, y)
    ensures ColumnCost(p, s + r, op, x, y) - Saved(p, s, r) == ColumnCost(p, r, op, x, y) - Saved(p, s, r + [op])
  {
    if r == [] {
      assert s + r == s;
    } else {
      assert Last(s + r) == Last(r);
    }
  }

  /** The cost does not depend on the direction in which an alignment is read. */
  lemma {:induction false} BaseRev(p: Costs, a: string, b: string, ops: seq<Op>)
    requires Aligns(a, b, ops)
    ensures Aligns(Rev(a), Rev(b), Rev(ops))
    ensures Base(p, Rev(a), Rev(b), Rev(ops)) == Base(p, a, b, ops)
    decreases |ops|
  {
    CountRev(ops);
    if ops != [] {
      var op, r := Last(ops), Front(ops);
      var a1, b1, x, y := Unsnoc(a, b, ops);
      BaseRev(p, a1, b1, r);
      BaseSnoc(p, a1, b1, r, op, x, y);
      RevConcat(a1, x);
      RevConcat(b1, y);
      RevShort(x);
      RevShort(y);
      BaseSnoc(p, [], [], [], op, x, y);
      assert [] + x == x && [] + y == y && [] + [op] == [op];
      BaseConcat(p, x, y, [op], Rev(a1), Rev(b1), Rev(r));
      if r != [] {
        RevEnds(r);
      }
    }
  }

  lemma {:induction false} RevShort(x: string)
    requires |x| <= 1
    ensures Rev(x) == x
  {
    if x != [] {
      assert Rev(x) == [Last(x)] + Rev(Front(x));
    }
  }

  lemma {:induction false} GapStep(p: Costs, n: nat)
    ensures (n + 1) as real * p.h == n as real * p.h + p.h
  {
  }

  lemma {:induction false} OnlyInsertions(p: Costs, b: string, ops: seq<Op>)
    requires Aligns([], b, ops) && b != []
    ensures ops != [] && ops[0].Ins? && Last(ops).Ins?
    ensures Base(p, [], b, ops) == Gap(p, |b|)
    decreases |ops|
  {
    GapStep(p, |b| - 1);
    if |b| > 1 {
      OnlyInsertions(p, Front(b), Front(ops));
    } else if Front(ops) != [] {
      assert ACount(Front(ops)) == 0 && BCount(Front(ops)) == 0;
      NoColumns(Front(ops));
    }
  }

  lemma {:induction false} OnlyDeletions(p: Costs, a: string, ops: seq<Op>)
    requires Aligns(a, [], ops) && a != []
    ensures ops != [] && ops[0].Del? && Last(ops).Del?
    ensures Base(p, a, [], ops) == Gap(p, |a|)
    decreases |ops|
  {
    GapStep(p, |a| - 1);
    if |a| > 1 {
      OnlyDeletions(p, Front(a), Front(ops));
    } else if Front(ops) != [] {
      assert ACount(Front(ops)) == 0 && BCount(Front(ops)) == 0;
      NoColumns(Front(ops));
    }
  }

  lemma {:induction false} NoColumns(ops: seq<Op>)
    requires ACount(ops) == 0 && BCount(ops) == 0
    ensures ops == []
  {
  }

  function Repeat(op: Op, n: nat): seq<Op> {
    if n == 0 then [] else Repeat(op, n - 1) + [op]
  }

  lemma {:induction false} RepeatCounts(op: Op, n: nat)
    ensures ACount(Repeat(op, n)) == if op.Ins? then 0 else n
    ensures BCount(Repeat(op, n)) == if op.Del? then 0 else n
  {
    if n > 0 {
      RepeatCounts(op, n - 1);
      assert Front(Repeat(op, n)) == Repeat(op, n - 1);
    }
  }

  // ----- The cost counted column by column -----

  /** Column `k` converts a symbol of A to a different one of B. */
  predicate DiffersAt(a: string, b: string, ops: seq<Op>, k: nat)
    requires k < |ops|
  {
    var i, j := ACount(ops[..k]), BCount(ops[..k]);
    ops[k].Sub? && i < |a| && j < |b| && a[i] != b[j]
  }

  predicate StartsRun(ops: seq<Op>, k: nat)
    requires k < |ops|
  {
    !ops[k].Sub? && (k == 0 || ops[k - 1] != ops[k])
  }

  function Differing(a: string, b: string, ops: seq<Op>): set<nat> {
    set k: nat | k < |ops| && DiffersAt(a, b, ops, k)
  }

  function RunStarts(ops: seq<Op>): set<nat> {
    set k: nat | k < |ops| && StartsRun(ops, k)
  }

  function GapColumns(ops: seq<Op>): set<nat> {
    set k: nat | k < |ops| && !ops[k].Sub?
  }

  /** One unit for each conversion to a different symbol, `g` for each run and `h` for each gap symbol. */
  function Counted(p: Costs, a: string, b: string, ops: seq<Op>): real {
    Price(p, |Differing(a, b, ops)|, |RunStarts(ops)|, |GapColumns(ops)|)
  }

  function Price(p: Costs, differing: nat, runs: nat, gaps: nat): real {
    differing as real + runs as real * p.g + gaps as real * p.h
  }

  lemma {:induction false} PrefixOfSnoc(ops: seq<Op>, op: Op, k: nat)
    requires k <= |ops|
    ensures (ops + [op])[..k] == ops[..k]
  {
  }

  lemma {:induction false} CountPrefix(ops: seq<Op>, k: nat)
    requires k < |ops|
    ensures ACount(ops[..k]) + (if ops[k].Ins? then 0 else 1) <= ACount(ops)
    ensures BCount(ops[..k]) + (if ops[k].Del? then 0 else 1) <= BCount(ops)
  {
    assert ops == ops[..k] + [ops[k]] + ops[k + 1..];
    CountConcat(ops[..k] + [ops[k]], ops[k + 1..]);
    CountConcat(ops[..k], [ops[k]]);
    assert Front([ops[k]]) == [];
  }

  /** Columns up to the last differ or not whatever is put behind them. */
  lemma {:induction false} DiffersSnoc(a: string, b: string, ops: seq<Op>, op: Op, x: string, y: string, k: nat)
    requires Aligns(a, b, ops) && Under(op, x, y) && k < |ops|
    ensures DiffersAt(a + x, b + y, ops + [op], k) <==> DiffersAt(a, b, ops, k)
  {
    PrefixOfSnoc(ops, op, k);
    CountPrefix(ops, k);
  }

  lemma {:induction false} DifferingSnoc(a: string, b: string, ops: seq<Op>, op: Op, x: string, y: string)
    requires Aligns(a, b, ops) && Under(op, x, y)
    ensures |Differing(a + x, b + y, ops + [op])|
            == |Differing(a, b, ops)| + if op.Sub? && x[0] != y[0] then 1 else 0
  {
    var n := |ops|;
    var before, after := Differing(a, b, ops), Differing(a + x, b + y, ops + [op]);
    forall k: nat
      ensures k in after <==> k in before || (k == n && op.Sub? && x[0] != y[0])
    {
      if k < n {
        DiffersSnoc(a, b, ops, op, x, y, k);
      } else if k == n {
        PrefixOfSnoc(ops, op, n);
        assert ops[..n] == ops;
      }
    }
    assert after == if op.Sub? && x[0] != y[0] then before + {n} else before;
  }

  lemma {:induction false} RunStartsSnoc(ops: seq<Op>, op: Op)
    ensures |RunStarts(ops + [op])|
            == |RunStarts(ops)| + if !op.Sub? && (ops == [] || Last(ops) != op) then 1 else 0
  {
    var n := |ops|;
    assert StartsRun(ops + [op], n) <==> !op.Sub? && (ops == [] || Last(ops) != op);
    assert RunStarts(ops + [op]) == if StartsRun(ops + [op], n) then RunStarts(ops) + {n} else RunStarts(ops);
  }

  lemma {:induction false} GapColumnsSnoc(ops: seq<Op>, op: Op)
    ensures |GapColumns(ops + [op])| == |GapColumns(ops)| + if op.Sub? then 0 else 1
  {
    assert GapColumns(ops + [op]) == if op.Sub? then GapColumns(ops) else GapColumns(ops) + {|ops|};
  }

  lemma {:induction false} PriceStep(p: Costs, d: nat, r: nat, n: nat)
    ensures Price(p, d + 1, r, n) == Price(p, d, r, n) + 1.0
    ensures Price(p, d, r + 1, n + 1) == Price(p, d, r, n) + p.g + p.h
    ensures Price(p, d, r, n + 1) == Price(p, d, r, n) + p.h
  {
  }

  lemma {:induction false} CountedSnoc(p: Costs, a: string, b: string, ops: seq<Op>, op: Op, x: string, y: string)
    requires Aligns(a, b, ops) && Under(op, x, y)
    ensures Counted(p, a + x, b + y, ops + [op]) == Counted(p, a, b, ops) + ColumnCost(p, ops, op, x, y)
  {
    DifferingSnoc(a, b, ops, op, x, y);
    RunStartsSnoc(ops, op);
    GapColumnsSnoc(ops, op);
    PriceStep(p, |Differing(a, b, ops)|, |RunStarts(ops)|, |GapColumns(ops)|);
  }

  /** The cost that the recursion over the columns gives is the counted one. */
  lemma {:induction false} BaseCounts(p: Costs, a: string, b: string, ops: seq<Op>)
    requires Aligns(a, b, ops)
    ensures Base(p, a, b, ops) == Counted(p, a, b, ops)
    decreases |ops|
  {
    if ops == [] {
      assert Differing(a, b, ops) == {} && RunStarts(ops) == {} && GapColumns(ops) == {};
    } else {
      var a1, b1, x, y := Unsnoc(a, b, ops);
      BaseCounts(p, a1, b1, Front(ops));
      BaseSnoc(p, a1, b1, Front(ops), Last(ops), x, y);
      CountedSnoc(p, a1, b1, Front(ops), Last(ops), x, y);
    }
  }

  /** The positions at which two strings differ. */
  function Mismatches(a: string, b: string): set<nat>
    requires |a| == |b|
  {
    set k: nat | k < |a| && a[k] != b[k]
  }

  lemma {:induction false} AllSub(ops: seq<Op>, k: nat)
    requires k <= |ops| && forall i :: 0 <= i < |ops| ==> ops[i].Sub?
    ensures ACount(ops[..k]) == BCount(ops[..k]) == k
    decreases k
  {
    if k > 0 {
      AllSub(ops, k - 1);
      assert Front(ops[..k]) == ops[..k - 1];
    }
  }

  /** Converting symbol by symbol costs one unit for each position at which the strings differ. */
  lemma {:induction false} SubstitutionCost(p: Costs, a: string, b: string, ops: seq<Op>)
    requires |a| == |b| == |ops| && forall i :: 0 <= i < |ops| ==> ops[i].Sub?
    ensures Aligns(a, b, ops) && Base(p, a, b, ops) == |Mismatches(a, b)| as real
  {
    AllSub(ops, |ops|);
    assert ops[..|ops|] == ops;
    BaseCounts(p, a, b, ops);
    SubstitutionSets(a, b, ops);
    assert Price(p, |Mismatches(a, b)|, 0, 0) == |Mismatches(a, b)| as real;
  }

  lemma {:induction false} SubstitutionSets(a: string, b: string, ops: seq<Op>)
    requires |a| == |b| == |ops| && forall i :: 0 <= i < |ops| ==> ops[i].Sub?
    ensures Differing(a, b, ops) == Mismatches(a, b) && RunStarts(ops) == {} && GapColumns(ops) == {}
  {
    forall k: nat | k < |ops|
      ensures DiffersAt(a, b, ops, k) <==> a[k] != b[k]
    {
      AllSub(ops, k);
    }
  }

  // ----- No alignment is cheaper than the recurrences -----

  lemma {:induction false} NoneCheaper(p: Costs, t: real, a: string, b: string, ops: seq<Op>)
    requires Aligns(a, b, ops)
    ensures Cost(p, t, a, b, ops) >= C(p, t, a, b)
    ensures ops != [] && Last(ops).Del? && b != [] ==> a != [] && Cost(p, t, a, b, ops) >= D(p, t, a, b)
    ensures ops != [] && Last(ops).Ins? && a != [] ==> b != [] && Cost(p, t, a, b, ops) >= I(p, t, a, b)
    decreases |ops|
  {
    if ops == [] {
    } else if a == [] {
      OnlyInsertions(p, b, ops);
    } else if b == [] {
      OnlyDeletions(p, a, ops);
    } else {
      match Last(ops)
      case Sub => NoneCheaper(p, t, Front(a), Front(b), Front(ops));
      case Del =>
        NoneCheaper(p, t, Front(a), b, Front(ops));
      case Ins =>
        NoneCheaper(p, t, a, Front(b), Front(ops));
    }
  }

  // ----- Some alignment is as cheap -----

  lemma {:induction false} SomeAsCheap(p: Costs, t: real, a: string, b: string) returns (ops: seq<Op>)
    requires p.g >= 0.0
    ensures Aligns(a, b, ops) && Cost(p, t, a, b, ops) <= C(p, t, a, b)
    decreases |a| + |b|, 1
  {
    if a == [] {
      ops := Repeat(Ins, |b|);
      RepeatCounts(Ins, |b|);
      if b != [] { OnlyInsertions(p, b, ops); }
    } else if b == [] {
      ops := Repeat(Del, |a|);
      RepeatCounts(Del, |a|);
      OnlyDeletions(p, a, ops);
    } else if C(p, t, a, b) == D(p, t, a, b) {
      ops := SomeDeletion(p, t, a, b);
    } else if C(p, t, a, b) == I(p, t, a, b) {
      ops := SomeInsertion(p, t, a, b);
    } else {
      var front := SomeAsCheap(p, t, Front(a), Front(b));
      ops := front + [Sub];
      assert Front(ops) == front;
    }
  }

  lemma {:induction false} SomeDeletion(p: Costs, t: real, a: string, b: string) returns (ops: seq<Op>)
    requires p.g >= 0.0 && a != [] && b != []
    ensures Aligns(a, b, ops) && Cost(p, t, a, b, ops) <= D(p, t, a, b)
    ensures ops != [] && Last(ops).Del?
    decreases |a| + |b|, 0
  {
    var front;
    if Front(a) != [] && D(p, t, Front(a), b) <= C(p, t, Front(a), b) + p.g {
      front := SomeDeletion(p, t, Front(a), b);
    } else {
      front := SomeAsCheap(p, t, Front(a), b);
    }
    ops := front + [Del];
    assert Front(ops) == front;
  }

  lemma {:induction false} SomeInsertion(p: Costs, t: real, a: string, b: string) returns (ops: seq<Op>)
    requires p.g >= 0.0 && a != [] && b != []
    ensures Aligns(a, b, ops) && Cost(p, t, a, b, ops) <= I(p, t, a, b)
    ensures ops != [] && Last(ops).Ins?
    decreases |a| + |b|, 0
  {
    var front;
    if Front(b) != [] && I(p, t, a, Front(b)) <= C(p, t, a, Front(b)) + p.g {
      front := SomeInsertion(p, t, a, Front(b));
    } else {
      front := SomeAsCheap(p, t, a, Front(b));
    }
    ops := front + [Ins];
    assert Front(ops) == front;
  }

  /** C[m][n] is the least cost of an alignment: one has it and none is cheaper. */
  lemma {:induction false} CIsMinimum(p: Costs, t: real, a: string, b: string)
    requires p.g >= 0.0
    ensures forall ops :: Aligns(a, b, ops) ==> Cost(p, t, a, b, ops) >= C(p, t, a, b)
    ensures exists ops :: Aligns(a, b, ops) && Cost(p, t, a, b, ops) == C(p, t, a, b)
  {
    forall ops | Aligns(a, b, ops)
      ensures Cost(p, t, a, b, ops) >= C(p, t, a, b)
    {
      NoneCheaper(p, t, a, b, ops);
    }
    var ops := SomeAsCheap(p, t, a, b);
  }

  // ----- The programs -----

  /** The same, in terms of what an alignment counts. */
  lemma {:induction false} CIsLeastCounted(p: Costs, a: string, b: string)
    requires p.g >= 0.0
    ensures forall ops :: Aligns(a, b, ops) ==> Counted(p, a, b, ops) >= C(p, p.g, a, b)
    ensures exists ops :: Aligns(a, b, ops) && Counted(p, a, b, ops) == C(p, p.g, a, b)
  {
    CIsMinimum(p, p.g, a, b);
    forall ops | Aligns(a, b, ops)
      ensures Counted(p, a, b, ops) >= C(p, p.g, a, b)
    {
      BaseCounts(p, a, b, ops);
      assert Cost(p, p.g, a, b, ops) >= C(p, p.g, a, b);
    }
    var best :| Aligns(a, b, best) && Cost(p, p.g, a, b, best) == C(p, p.g, a, b);
    BaseCounts(p, a, b, best);
  }

  /** Strings of equal length are never dearer than their number of mismatches. */
  lemma {:induction false} MismatchBound(p: Costs, a: string, b: string)
    requires |a| == |b|
    ensures C(p, p.g, a, b) <= |Mismatches(a, b)| as real
  {
    var ops := seq(|a|, _ => Sub);
    SubstitutionCost(p, a, b, ops);
    NoneCheaper(p, p.g, a, b, ops);
  }

  lemma {:induction false} PriceNonNegative(p: Costs, d: nat, r: nat, n: nat)
    requires p.g >= 0.0 && p.h > 0.0
    ensures Price(p, d, r, n) >= 0.0 && (Price(p, d, r, n) == 0.0 ==> d == 0 && n == 0)
  {
    assert r as real * p.g >= 0.0 && n as real * p.h >= 0.0;
    assert n >= 1 ==> n as real * p.h >= 1.0 * p.h;
  }

  /** An alignment that costs nothing has no gap and no difference. */
  lemma {:induction false} FreeMeansEqual(p: Costs, a: string, b: string, ops: seq<Op>)
    requires p.g >= 0.0 && p.h > 0.0 && Aligns(a, b, ops)
    ensures Base(p, a, b, ops) >= 0.0 && (Base(p, a, b, ops) == 0.0 ==> a == b)
  {
    BaseCounts(p, a, b, ops);
    PriceNonNegative(p, |Differing(a, b, ops)|, |RunStarts(ops)|, |GapColumns(ops)|);
    if Base(p, a, b, ops) == 0.0 {
      assert GapColumns(ops) == {} && Differing(a, b, ops) == {};
      forall i: nat | i < |ops|
        ensures ops[i].Sub?
      {
        assert i !in GapColumns(ops);
      }
      AllSub(ops, |ops|);
      assert ops[..|ops|] == ops;
      forall k | 0 <= k < |ops|
        ensures a[k] == b[k]
      {
        AllSub(ops, k);
        assert k !in Differing(a, b, ops);
      }
    }
  }

  /** The cost is zero for equal strings and for no others. */
  lemma {:induction false} ZeroIffEqual(p: Costs, a: string, b: string)
    requires p.g >= 0.0 && p.h > 0.0
    ensures C(p, p.g, a, b) >= 0.0 && (C(p, p.g, a, b) == 0.0 <==> a == b)
  {
    CIsMinimum(p, p.g, a, b);
    var best :| Aligns(a, b, best) && Cost(p, p.g, a, b, best) == C(p, p.g, a, b);
    FreeMeansEqual(p, a, b, best);
    if a == b {
      MismatchBound(p, a, b);
      assert Mismatches(a, b) == {};
    }
  }

  /** Row `|a|` of matrix C. */
  ghost function CRow(p: Costs, t: real, a: string, b: string): seq<real> {
    seq(|b| + 1, j requires 0 <= j <= |b| => C(p, t, a, b[..j]))
  }

  /** Row `|a|` of matrix D; its first entry is never assigned. */
  ghost function DRow(p: Costs, t: real, a: string, b: string): seq<real> {
    seq(|b| + 1, j requires 0 <= j <= |b| => if j == 0 then 0.0 else D(p, t, a, b[..j]))
  }

  ghost function IRow(p: Costs, t: real, a: string, b: string): seq<real>
    requires a != []
  {
    seq(|b| + 1, j requires 0 <= j <= |b| => I(p, t, a, b[..j]))
  }

  /** How an inner entry of a row follows from its neighbours: `c0`, `d0` is the row above. */
  ghost predicate Recurrence(p: Costs, x: char, b: string, c0: seq<real>, d0: seq<real>,
                             c1: seq<real>, d1: seq<real>, e1: seq<real>)
  {
    && |c0| == |d0| == |c1| == |d1| == |e1| == |b| + 1
    && d0[0] == d1[0] == 0.0
    && e1[0] == c1[0] + p.g
    && forall j :: 1 <= j <= |b| ==>
         && e1[j] == Min(e1[j - 1], c1[j - 1] + p.g) + p.h
         && d1[j] == Min(d0[j], c0[j] + p.g) + p.h
         && c1[j] == Min(Min(d1[j], e1[j]), c0[j - 1] + W(x, b[j - 1]))
  }

  lemma {:induction false} EntryFollows(p: Costs, t: real, a: string, b: string, j: nat)
    requires a != [] && 1 <= j <= |b|
    ensures I(p, t, a, b[..j]) == Min(I(p, t, a, b[..j - 1]), C(p, t, a, b[..j - 1]) + p.g) + p.h
    ensures D(p, t, a, b[..j]) == Min(D(p, t, Front(a), b[..j]), C(p, t, Front(a), b[..j]) + p.g) + p.h
    ensures C(p, t, a, b[..j])
            == Min(Min(D(p, t, a, b[..j]), I(p, t, a, b[..j])), C(p, t, Front(a), b[..j - 1]) + W(Last(a), b[j - 1]))
  {
    assert Front(b[..j]) == b[..j - 1];
  }

  lemma {:induction false} RowEntry(p: Costs, t: real, a: string, b: string, j: nat)
    requires a != [] && 1 <= j <= |b|
    ensures IRow(p, t, a, b)[j] == Min(IRow(p, t, a, b)[j - 1], CRow(p, t, a, b)[j - 1] + p.g) + p.h
    ensures DRow(p, t, a, b)[j] == Min(DRow(p, t, Front(a), b)[j], CRow(p, t, Front(a), b)[j] + p.g) + p.h
    ensures CRow(p, t, a, b)[j]
            == Min(Min(DRow(p, t, a, b)[j], IRow(p, t, a, b)[j]), CRow(p, t, Front(a), b)[j - 1] + W(Last(a), b[j - 1]))
  {
    EntryFollows(p, t, a, b, j);
  }

  lemma {:induction false} RowFollows(p: Costs, t: real, a: string, b: string)
    requires a != []
    ensures Recurrence(p, Last(a), b, CRow(p, t, Front(a), b), DRow(p, t, Front(a), b),
                       CRow(p, t, a, b), DRow(p, t, a, b), IRow(p, t, a, b))
    ensures CRow(p, t, a, b)[0] == t + |a| as real * p.h
  {
    forall j | 1 <= j <= |b|
      ensures IRow(p, t, a, b)[j] == Min(IRow(p, t, a, b)[j - 1], CRow(p, t, a, b)[j - 1] + p.g) + p.h
      ensures DRow(p, t, a, b)[j] == Min(DRow(p, t, Front(a), b)[j], CRow(p, t, Front(a), b)[j] + p.g) + p.h
      ensures CRow(p, t, a, b)[j]
              == Min(Min(DRow(p, t, a, b)[j], IRow(p, t, a, b)[j]),
                     CRow(p, t, Front(a), b)[j - 1] + W(Last(a), b[j - 1]))
    {
      RowEntry(p, t, a, b, j);
    }
  }

  lemma {:induction false} GapColumn(p: Costs, a: string, b: string, i: nat)
    requires i == |a| > 0
    ensures CRow(p, p.g, a, b)[0] == Gap(p, i)
  {
    RowFollows(p, p.g, a, b);
  }

  lemma {:induction false} FirstRow(p: Costs, t: real, b: string, j: nat)
    requires j <= |b|
    ensures CRow(p, t, [], b)[j] == if j == 0 then 0.0 else Gap(p, j)
    ensures DRow(p, t, [], b)[j] == if j == 0 then 0.0 else Gap(p, j) + p.g
  {
  }

  /** One row of gotoh: its first entries, then the inner loop. */
  method FillRow(p: Costs, x: char, b: string, i: nat, c: array2<real>, d: array2<real>, ins: array2<real>,
                 ghost c0: seq<real>, ghost d0: seq<real>, ghost c1: seq<real>, ghost d1: seq<real>,
                 ghost e1: seq<real>)
    requires c != d && c != ins && d != ins
    requires 1 <= i < c.Length0 == d.Length0 == ins.Length0
    requires c.Length1 == d.Length1 == ins.Length1 == |b| + 1
    requires Recurrence(p, x, b, c0, d0, c1, d1, e1)
    requires forall j :: 0 <= j <= |b| ==> c[i - 1, j] == c0[j] && d[i - 1, j] == d0[j]
    requires Gap(p, i) == c1[0] && d[i, 0] == 0.0
    modifies c, d, ins
    ensures forall j :: 0 <= j <= |b| ==> c[i, j] == c1[j] && d[i, j] == d1[j]
    ensures forall i', j :: 0 <= i' < c.Length0 && i' != i && 0 <= j <= |b| ==>
              c[i', j] == old(c[i', j]) && d[i', j] == old(d[i', j])
  {
    c[i, 0] := Gap(p, i);
    ins[i, 0] := c[i, 0] + p.g;
    for j := 1 to |b| + 1
      invariant forall j' :: 0 <= j' < j ==> c[i, j'] == c1[j'] && d[i, j'] == d1[j']
      invariant ins[i, j - 1] == e1[j - 1]
      invariant forall i', j' :: 0 <= i' < c.Length0 && i' != i && 0 <= j' <= |b| ==>
                  c[i', j'] == old(c[i', j']) && d[i', j'] == old(d[i', j'])
    {
      ins[i, j] := Min(ins[i, j - 1], c[i, j - 1] + p.g) + p.h;
      d[i, j] := Min(d[i - 1, j], c[i - 1, j] + p.g) + p.h;
      c[i, j] := Min(Min(d[i, j], ins[i, j]), c[i - 1, j - 1] + W(x, b[j - 1]));
    }
  }

  /** Row `i` of the matrices holds what the recurrences give for the first `i` symbols. */
  ghost predicate RowDone(p: Costs, a: string, b: string, i: nat, c: array2<real>, d: array2<real>)
    requires i <= |a|
    requires c.Length0 == d.Length0 == |a| + 1 && c.Length1 == d.Length1 == |b| + 1
    reads c, d
  {
    forall j :: 0 <= j <= |b| ==> c[i, j] == CRow(p, p.g, a[..i], b)[j] && d[i, j] == DRow(p, p.g, a[..i], b)[j]
  }

  /** Row 0 of gotoh's matrices, and zeros everywhere else. */
  method StartTables(p: Costs, m: nat, b: string) returns (c: array2<real>, d: array2<real>, ins: array2<real>)
    ensures fresh(c) && fresh(d) && fresh(ins) && c != d && c != ins && d != ins
    ensures c.Length0 == d.Length0 == ins.Length0 == m + 1 && c.Length1 == d.Length1 == ins.Length1 == |b| + 1
    ensures forall i :: 1 <= i <= m ==> d[i, 0] == 0.0
    ensures forall j :: 0 <= j <= |b| ==> c[0, j] == CRow(p, p.g, [], b)[j] && d[0, j] == DRow(p, p.g, [], b)[j]
  {
    var n := |b|;
    c := new real[m + 1, n + 1]((i, j) => 0.0);
    d := new real[m + 1, n + 1]((i, j) => 0.0);
    ins := new real[m + 1, n + 1]((i, j) => 0.0);
    FirstRow(p, p.g, b, 0);
    for j := 1 to n + 1
      invariant forall i :: 1 <= i <= m ==> d[i, 0] == 0.0
      invariant forall j' :: 0 <= j' < j ==> c[0, j'] == CRow(p, p.g, [], b)[j'] && d[0, j'] == DRow(p, p.g, [], b)[j']
    {
      FirstRow(p, p.g, b, j);
      c[0, j] := Gap(p, j);
      d[0, j] := c[0, j] + p.g;
    }
  }

  /** gotoh: the three matrices filled row by row. */
  method GotohTables(p: Costs, a: string, b: string) returns (c: array2<real>, d: array2<real>)
    ensures c.Length0 == d.Length0 == |a| + 1 && c.Length1 == d.Length1 == |b| + 1
    ensures forall i :: 0 <= i <= |a| ==> RowDone(p, a, b, i, c, d)
  {
    var m := |a|;
    var ins;
    c, d, ins := StartTables(p, m, b);
    assert a[..0] == [];
    for i := 1 to m + 1
      invariant forall i' :: i <= i' <= m ==> d[i', 0] == 0.0
      invariant forall i' :: 0 <= i' < i ==> RowDone(p, a, b, i', c, d)
    {
      ghost var above, here := a[..i - 1], a[..i];
      assert Front(here) == above && RowDone(p, a, b, i - 1, c, d);
      RowFollows(p, p.g, here, b);
      GapColumn(p, here, b, i);
      label before:
      FillRow(p, a[i - 1], b, i, c, d, ins, CRow(p, p.g, above, b), DRow(p, p.g, above, b),
              CRow(p, p.g, here, b), DRow(p, p.g, here, b), IRow(p, p.g, here, b));
      forall i' | 0 <= i' < i
        ensures RowDone(p, a, b, i', c, d)
      {
        assert old@before(RowDone(p, a, b, i', c, d));
      }
    }
  }

  /** gotoh returns the least cost over all alignments. */
  method GotohCost(p: Costs, a: string, b: string) returns (r: real)
    requires p.g >= 0.0
    ensures r == C(p, p.g, a, b)
    ensures forall ops :: Aligns(a, b, ops) ==> Counted(p, a, b, ops) >= r
    ensures exists ops :: Aligns(a, b, ops) && Counted(p, a, b, ops) == r
    ensures p.h > 0.0 ==> (r == 0.0 <==> a == b)
  {
    var c, d := GotohTables(p, a, b);
    r := c[|a|, |b|];
    assert RowDone(p, a, b, |a|, c, d);
    assert a[..|a|] == a && b[..|b|] == b;
    CIsLeastCounted(p, a, b);
    if p.h > 0.0 {
      ZeroIffEqual(p, a, b);
    }
  }

  /** The inner loop of gotohb and gotohb2: one row, in place, with the scalars s, c and e. */
  method SweepRow(p: Costs, x: char, b: string, c: real, cc: array<real>, dd: array<real>,
                  ghost c0: seq<real>, ghost d0: seq<real>, ghost c1: seq<real>, ghost d1: seq<real>,
                  ghost e1: seq<real>)
    requires cc != dd
    requires Recurrence(p, x, b, c0, d0, c1, d1, e1)
    requires cc[..] == c0 && dd[..] == d0 && c == c1[0]
    modifies cc, dd
    ensures cc[..] == c1 && dd[..] == d1
  {
    var s := cc[0];
    var c := c;
    cc[0] := c;
    var e := c + p.g;
    for j := 1 to |b| + 1
      invariant forall k :: 0 <= k < j ==> cc[k] == c1[k] && dd[k] == d1[k]
      invariant forall k :: j <= k <= |b| ==> cc[k] == c0[k] && dd[k] == d0[k]
      invariant s == c0[j - 1] && c == c1[j - 1] && e == e1[j - 1]
    {
      e := Min(e, c + p.g) + p.h;
      dd[j] := Min(dd[j], cc[j] + p.g) + p.h;
      c := Min(Min(dd[j], e), s + W(x, b[j - 1]));
      s := cc[j];
      cc[j] := c;
    }
  }

  /** The first row, before any symbol of A. */
  method SweepFirst(p: Costs, ghost t: real, b: string) returns (cc: array<real>, dd: array<real>)
    ensures fresh(cc) && fresh(dd) && cc != dd
    ensures cc[..] == CRow(p, t, [], b) && dd[..] == DRow(p, t, [], b)
  {
    var n := |b|;
    cc := new real[n + 1](j => 0.0);
    dd := new real[n + 1](j => 0.0);
    FirstRow(p, t, b, 0);
    for j := 1 to n + 1
      invariant forall k :: 0 <= k < j ==> cc[k] == CRow(p, t, [], b)[k] && dd[k] == DRow(p, t, [], b)[k]
    {
      FirstRow(p, t, b, j);
      cc[j] := Gap(p, j);
      dd[j] := cc[j] + p.g;
    }
  }

  /** gotohb: two vectors updated in place end as the last rows of the matrices C and D of gotoh. */
  method GotohB(p: Costs, a: string, b: string) returns (cc: array<real>, dd: array<real>)
    ensures fresh(cc) && fresh(dd) && cc != dd
    ensures cc[..] == CRow(p, p.g, a, b) && dd[..] == DRow(p, p.g, a, b)
  {
    cc, dd := SweepFirst(p, p.g, b);
    assert a[..0] == [];
    for i := 1 to |a| + 1
      invariant cc[..] == CRow(p, p.g, a[..i - 1], b) && dd[..] == DRow(p, p.g, a[..i - 1], b)
    {
      ghost var above, here := a[..i - 1], a[..i];
      assert Front(here) == above;
      RowFollows(p, p.g, here, b);
      SweepRow(p, a[i - 1], b, Gap(p, i), cc, dd, CRow(p, p.g, above, b), DRow(p, p.g, above, b),
               CRow(p, p.g, here, b), DRow(p, p.g, here, b), IRow(p, p.g, here, b));
    }
    assert a[..|a|] == a;
  }

  /** gotohb2: leading deletions are opened at price `t`, and DD[0] is set to CC[0]. */
  method GotohB2(p: Costs, t: real, a: string, b: string) returns (cc: array<real>, dd: array<real>)
    ensures fresh(cc) && fresh(dd) && cc != dd
    ensures cc[..] == CRow(p, t, a, b) && dd[..] == DRow(p, t, a, b)[0 := CRow(p, t, a, b)[0]]
  {
    cc, dd := SweepFirst(p, t, b);
    assert a[..0] == [];
    for i := 1 to |a| + 1
      invariant cc[..] == CRow(p, t, a[..i - 1], b) && dd[..] == DRow(p, t, a[..i - 1], b)
    {
      ghost var above, here := a[..i - 1], a[..i];
      assert Front(here) == above;
      RowFollows(p, t, here, b);
      SweepRow(p, a[i - 1], b, t + i as real * p.h, cc, dd, CRow(p, t, above, b), DRow(p, t, above, b),
               CRow(p, t, here, b), DRow(p, t, here, b), IRow(p, t, here, b));
    }
    assert a[..|a|] == a;
    dd[0] := cc[0];
  }

  // ----- The midpoint search of gotohc -----

  /** Entry `j` of the vector DD that gotohb2 returns. */
  function DEntry(p: Costs, t: real, a: string, b: string): real {
    if b == [] then C(p, t, a, b) else D(p, t, a, b)
  }

  /** `t1` of gotohc at column `j`: both halves aligned on their own. */
  function Type1(p: Costs, tb: real, te: real, a: string, b: string, i: nat, j: nat): real
    requires i <= |a| && j <= |b|
  {
    C(p, tb, a[..i], b[..j]) + C(p, te, Rev(a[i..]), Rev(b[j..]))
  }

  /** `t2` of gotohc at column `j`: a deletion run crosses the middle and is opened once. */
  function Type2(p: Costs, tb: real, te: real, a: string, b: string, i: nat, j: nat): real
    requires i <= |a| && j <= |b|
  {
    DEntry(p, tb, a[..i], b[..j]) + DEntry(p, te, Rev(a[i..]), Rev(b[j..])) - p.g
  }

  /** Joining alignments of the two halves. */
  lemma {:induction false} JoinHalves(p: Costs, tb: real, te: real, a: string, b: string, i: nat, j: nat, s: seq<Op>,
                                      r: seq<Op>)
    requires 1 <= i < |a| && j <= |b| && 1 <= |b|
    requires Aligns(a[..i], b[..j], s) && Aligns(Rev(a[i..]), Rev(b[j..]), r)
    ensures Aligns(a, b, s + Rev(r))
    ensures s != [] && r != []
    ensures TotalCost(p, tb, te, a, b, s + Rev(r))
            == Cost(p, tb, a[..i], b[..j], s) + Cost(p, te, Rev(a[i..]), Rev(b[j..]), r) - Saved(p, s, Rev(r))
  {
    RevRev(a[i..]);
    RevRev(b[j..]);
    BaseRev(p, Rev(a[i..]), Rev(b[j..]), r);
    BaseConcat(p, a[..i], b[..j], s, a[i..], b[j..], Rev(r));
    assert a[..i] + a[i..] == a && b[..j] + b[j..] == b;
    RevEnds(r);
  }

  /** No alignment of the whole is cheaper than the best midpoint. */
  lemma {:induction false} MidpointNotDearer(p: Costs, tb: real, te: real, a: string, b: string, i: nat, ops: seq<Op>)
    returns (j: nat)
    requires 1 <= i < |a| && 1 <= |b| && Aligns(a, b, ops)
    ensures j <= |b|
    ensures TotalCost(p, tb, te, a, b, ops) >= Type1(p, tb, te, a, b, i, j)
            || TotalCost(p, tb, te, a, b, ops) >= Type2(p, tb, te, a, b, i, j)
  {
    var k := CutAt(ops, i);
    var s, r := ops[..k], Rev(ops[k..]);
    assert ops == s + ops[k..];
    CountConcat(s, ops[k..]);
    CountRev(ops[k..]);
    RevRev(ops[k..]);
    j := BCount(s);
    JoinHalves(p, tb, te, a, b, i, j, s, r);
    NoneCheaper(p, tb, a[..i], b[..j], s);
    NoneCheaper(p, te, Rev(a[i..]), Rev(b[j..]), r);
    RevEnds(r);
  }

  /** The shortest prefix that uses `i` symbols of A ends in a conversion or a deletion. */
  lemma {:induction false} CutAt(ops: seq<Op>, i: nat) returns (k: nat)
    requires 1 <= i <= ACount(ops)
    ensures 1 <= k <= |ops| && ACount(ops[..k]) == i && !ops[k - 1].Ins?
    decreases |ops|
  {
    if ACount(Front(ops)) < i {
      k := |ops|;
      assert ops[..k] == ops;
    } else {
      k := CutAt(Front(ops), i);
      assert Front(ops)[..k] == ops[..k];
    }
  }

  /** Every midpoint is the cost of some alignment of the whole, or more. */
  lemma {:induction false} SomeThroughMidpoint(p: Costs, tb: real, te: real, a: string, b: string, i: nat, j: nat,
                                               two: bool)
    returns (ops: seq<Op>)
    requires p.g >= 0.0 && 1 <= i < |a| && 1 <= |b| && j <= |b|
    ensures Aligns(a, b, ops)
    ensures TotalCost(p, tb, te, a, b, ops)
            <= if two then Type2(p, tb, te, a, b, i, j) else Type1(p, tb, te, a, b, i, j)
  {
    var s, r;
    if two {
      s := SomeEndingInDeletion(p, tb, a[..i], b[..j]);
      r := SomeEndingInDeletion(p, te, Rev(a[i..]), Rev(b[j..]));
      RevEnds(r);
    } else {
      s := SomeAsCheap(p, tb, a[..i], b[..j]);
      r := SomeAsCheap(p, te, Rev(a[i..]), Rev(b[j..]));
    }
    ops := s + Rev(r);
    JoinHalves(p, tb, te, a, b, i, j, s, r);
  }

  lemma {:induction false} SomeEndingInDeletion(p: Costs, t: real, a: string, b: string) returns (ops: seq<Op>)
    requires p.g >= 0.0 && a != []
    ensures Aligns(a, b, ops) && Cost(p, t, a, b, ops) <= DEntry(p, t, a, b)
    ensures ops != [] && Last(ops).Del?
  {
    if b == [] {
      ops := SomeAsCheap(p, t, a, b);
      OnlyDeletions(p, a, ops);
    } else {
      ops := SomeDeletion(p, t, a, b);
    }
  }

  /** `v` is the least cost of an alignment of the whole, with `tb` and `te` for deletions at the ends. */
  ghost predicate IsLeastCost(p: Costs, tb: real, te: real, a: string, b: string, v: real) {
    && (forall ops :: Aligns(a, b, ops) ==> TotalCost(p, tb, te, a, b, ops) >= v)
    && (exists ops :: Aligns(a, b, ops) && TotalCost(p, tb, te, a, b, ops) == v)
  }

  /** `v` is the least of the values gotohc's loop looks at. */
  ghost predicate IsLeastMidpoint(p: Costs, tb: real, te: real, a: string, b: string, i: nat, v: real)
    requires i <= |a|
  {
    && (forall j :: 0 <= j <= |b| ==> v <= Type1(p, tb, te, a, b, i, j) && v <= Type2(p, tb, te, a, b, i, j))
    && (exists j :: 0 <= j <= |b| && (v == Type1(p, tb, te, a, b, i, j) || v == Type2(p, tb, te, a, b, i, j)))
  }

  /** The best midpoint costs exactly what the best alignment of the whole costs, for all `tb` and `te`. */
  lemma {:induction false} MidpointTheorem(p: Costs, tb: real, te: real, a: string, b: string, i: nat, v: real)
    requires p.g >= 0.0 && 1 <= i < |a| && 1 <= |b|
    requires IsLeastMidpoint(p, tb, te, a, b, i, v)
    ensures IsLeastCost(p, tb, te, a, b, v)
  {
    forall ops | Aligns(a, b, ops)
      ensures TotalCost(p, tb, te, a, b, ops) >= v
    {
      var j := MidpointNotDearer(p, tb, te, a, b, i, ops);
    }
    var j :| 0 <= j <= |b| && (v == Type1(p, tb, te, a, b, i, j) || v == Type2(p, tb, te, a, b, i, j));
    var ops := SomeThroughMidpoint(p, tb, te, a, b, i, j, v != Type1(p, tb, te, a, b, i, j));
  }

  /** With `tb == te == g`, as gotohc is first called, that is C[m][n] of the whole problem. */
  lemma {:induction false} MidpointIsC(p: Costs, a: string, b: string, i: nat, v: real)
    requires p.g >= 0.0 && 1 <= i < |a| && 1 <= |b|
    requires IsLeastMidpoint(p, p.g, p.g, a, b, i, v)
    ensures v == C(p, p.g, a, b)
  {
    MidpointTheorem(p, p.g, p.g, a, b, i, v);
    CIsMinimum(p, p.g, a, b);
    var best :| Aligns(a, b, best) && Cost(p, p.g, a, b, best) == C(p, p.g, a, b);
    var mid :| Aligns(a, b, mid) && TotalCost(p, p.g, p.g, a, b, mid) == v;
    assert TotalCost(p, p.g, p.g, a, b, best) == Cost(p, p.g, a, b, best);
  }

  // ----- The recursive calls -----

  /** `ops` is an alignment of least cost, with `tb` and `te` for deletions at the ends. */
  ghost predicate IsBest(p: Costs, tb: real, te: real, a: string, b: string, ops: seq<Op>) {
    && Aligns(a, b, ops)
    && forall ops' :: Aligns(a, b, ops') ==> TotalCost(p, tb, te, a, b, ops) <= TotalCost(p, tb, te, a, b, ops')
  }

  /** Read backwards an alignment keeps its cost, with the prices of the two ends exchanged. */
  lemma {:induction false} TotalCostRev(p: Costs, tb: real, te: real, a: string, b: string, ops: seq<Op>)
    requires Aligns(a, b, ops)
    ensures Aligns(Rev(a), Rev(b), Rev(ops))
    ensures TotalCost(p, te, tb, Rev(a), Rev(b), Rev(ops)) == TotalCost(p, tb, te, a, b, ops)
  {
    BaseRev(p, a, b, ops);
    if ops != [] {
      RevEnds(ops);
    }
  }

  lemma {:induction false} BestRev(p: Costs, tb: real, te: real, a: string, b: string, ops: seq<Op>)
    requires IsBest(p, tb, te, a, b, ops)
    ensures IsBest(p, te, tb, Rev(a), Rev(b), Rev(ops))
  {
    TotalCostRev(p, tb, te, a, b, ops);
    forall ops' | Aligns(Rev(a), Rev(b), ops')
      ensures TotalCost(p, te, tb, Rev(a), Rev(b), Rev(ops)) <= TotalCost(p, te, tb, Rev(a), Rev(b), ops')
    {
      TotalCostRev(p, te, tb, Rev(a), Rev(b), ops');
      RevRev(a);
      RevRev(b);
    }
  }

  /** A best alignment with `g` for deletions at the end costs no more than matrix C says. */
  lemma {:induction false} BestWithinC(p: Costs, t: real, a: string, b: string, ops: seq<Op>)
    requires p.g >= 0.0 && IsBest(p, t, p.g, a, b, ops)
    ensures Cost(p, t, a, b, ops) <= C(p, t, a, b)
  {
    var some := SomeAsCheap(p, t, a, b);
    assert TotalCost(p, t, p.g, a, b, some) == Cost(p, t, a, b, some);
  }

  /** A deletion put at the end joins a run that ends there, or opens one. */
  lemma {:induction false} ThenDelete(p: Costs, t: real, a: string, x: char, b: string, ops: seq<Op>)
    requires Aligns(a, b, ops)
    ensures Aligns(a + [x], b, ops + [Del])
    ensures Cost(p, t, a + [x], b, ops + [Del])
            == TotalCost(p, t, 0.0, a, b, ops) + p.h + if ops == [] then t else p.g
  {
    BaseSnoc(p, a, b, ops, Del, [x], []);
    assert b + [] == b;
    if ops != [] {
      assert (ops + [Del])[0] == ops[0];
    }
  }

  /** A best alignment with no price for deletions at the end, and one more deletion, costs no more than matrix D
      says. */
  lemma {:induction false} BestWithinD(p: Costs, t: real, a: string, x: char, b: string, ops: seq<Op>)
    requires p.g >= 0.0 && IsBest(p, t, 0.0, a, b, ops)
    ensures Aligns(a + [x], b, ops + [Del])
    ensures Cost(p, t, a + [x], b, ops + [Del]) <= DEntry(p, t, a + [x], b)
  {
    var some := SomeEndingInDeletion(p, t, a + [x], b);
    var front := Front(some);
    assert some == front + [Del] && Aligns(a, b, front) by {
      assert some == front + [Last(some)];
    }
    ThenDelete(p, t, a, x, b, ops);
    ThenDelete(p, t, a, x, b, front);
    if ops == [] || front == [] {
      EmptyAlignment(a, b, ops, front);
    }
  }

  /** Only the empty strings have the empty alignment, and no other. */
  lemma {:induction false} EmptyAlignment(a: string, b: string, ops: seq<Op>, ops': seq<Op>)
    requires Aligns(a, b, ops) && Aligns(a, b, ops') && (ops == [] || ops' == [])
    ensures ops == ops' == []
  {
    NoColumns(ops);
    NoColumns(ops');
  }

  /** An alignment no dearer than the least cost is best. */
  lemma {:induction false} AtLeastCost(p: Costs, tb: real, te: real, a: string, b: string, v: real, ops: seq<Op>)
    requires IsLeastCost(p, tb, te, a, b, v) && Aligns(a, b, ops) && TotalCost(p, tb, te, a, b, ops) <= v
    ensures IsBest(p, tb, te, a, b, ops)
  {
  }

  /** A midpoint of type 1: best alignments of the two halves, with `g` for deletions at the cut, make a best one of the
      whole. */
  lemma {:induction false} Type1Recursion(p: Costs, tb: real, te: real, a: string, b: string, i: nat, j: nat, v: real,
                                          s: seq<Op>, r: seq<Op>)
    requires p.g >= 0.0 && 1 <= i < |a| && 1 <= |b| && j <= |b|
    requires IsLeastCost(p, tb, te, a, b, v) && v == Type1(p, tb, te, a, b, i, j)
    requires IsBest(p, tb, p.g, a[..i], b[..j], s) && IsBest(p, p.g, te, a[i..], b[j..], r)
    ensures IsBest(p, tb, te, a, b, s + r)
  {
    BestRev(p, p.g, te, a[i..], b[j..], r);
    BestWithinC(p, tb, a[..i], b[..j], s);
    BestWithinC(p, te, Rev(a[i..]), Rev(b[j..]), Rev(r));
    RevRev(r);
    JoinHalves(p, tb, te, a, b, i, j, s, Rev(r));
    AtLeastCost(p, tb, te, a, b, v, s + r);
  }

  /** A midpoint of type 2: best alignments of what is left of the two halves, with nothing for deletions at the cut,
      and the two deletions between them, make a best one of the whole. */
  lemma {:induction false} Type2Recursion(p: Costs, tb: real, te: real, a: string, b: string, i: nat, j: nat, v: real,
                                          s: seq<Op>, r: seq<Op>)
    requires p.g >= 0.0 && 1 <= i < |a| && 1 <= |b| && j <= |b|
    requires IsLeastCost(p, tb, te, a, b, v) && v == Type2(p, tb, te, a, b, i, j)
    requires IsBest(p, tb, 0.0, a[..i - 1], b[..j], s) && IsBest(p, 0.0, te, a[i + 1..], b[j..], r)
    ensures IsBest(p, tb, te, a, b, s + [Del, Del] + r)
  {
    BestWithinD(p, tb, a[..i - 1], a[i - 1], b[..j], s);
    assert a[..i - 1] + [a[i - 1]] == a[..i];
    BestRev(p, 0.0, te, a[i + 1..], b[j..], r);
    BestWithinD(p, te, Rev(a[i + 1..]), a[i], Rev(b[j..]), Rev(r));
    RevCons(a[i], a[i + 1..]);
    assert [a[i]] + a[i + 1..] == a[i..];
    var s1, r1 := s + [Del], Rev(r) + [Del];
    JoinHalves(p, tb, te, a, b, i, j, s1, r1);
    TwoDeletions(s, r);
    RevEnds(r1);
    AtLeastCost(p, tb, te, a, b, v, s + [Del, Del] + r);
  }

  lemma {:induction false} TwoDeletions(s: seq<Op>, r: seq<Op>)
    ensures s + [Del] + Rev(Rev(r) + [Del]) == s + [Del, Del] + r
  {
    assert Front(Rev(r) + [Del]) == Rev(r);
    RevRev(r);
  }

  // ----- The search -----

  /** The vectors gotohb2 returns. */
  ghost predicate Swept(p: Costs, t: real, a: string, b: string, cc: seq<real>, dd: seq<real>) {
    cc == CRow(p, t, a, b) && dd == DRow(p, t, a, b)[0 := CRow(p, t, a, b)[0]]
  }

  lemma {:induction false} SweptEntry(p: Costs, t: real, a: string, b: string, j: nat, cc: seq<real>, dd: seq<real>)
    requires Swept(p, t, a, b, cc, dd) && j <= |b|
    ensures |cc| == |dd| == |b| + 1
    ensures cc[j] == C(p, t, a, b[..j]) && dd[j] == DEntry(p, t, a, b[..j])
  {
  }

  lemma {:induction false} SweptReversed(p: Costs, t: real, a: string, b: string, j: nat, rr: seq<real>, ss: seq<real>)
    requires Swept(p, t, a, Rev(b), rr, ss) && j <= |b|
    ensures |rr| == |ss| == |b| + 1
    ensures rr[|b| - j] == C(p, t, a, Rev(b[j..])) && ss[|b| - j] == DEntry(p, t, a, Rev(b[j..]))
  {
    RevPrefix(b, j);
    SweptEntry(p, t, a, Rev(b), |b| - j, rr, ss);
  }

  /** What the loop over `j` adds up. */
  lemma {:induction false} MidpointSums(p: Costs, tb: real, te: real, a: string, b: string, i: nat, j: nat,
                                        cc: seq<real>, dd: seq<real>, rr: seq<real>, ss: seq<real>)
    requires 1 <= i < |a| && j <= |b|
    requires Swept(p, tb, a[..i], b, cc, dd) && Swept(p, te, Rev(a[i..]), Rev(b), rr, ss)
    ensures |cc| == |dd| == |rr| == |ss| == |b| + 1
    ensures cc[j] + rr[|b| - j] == Type1(p, tb, te, a, b, i, j)
    ensures dd[j] + ss[|b| - j] - p.g == Type2(p, tb, te, a, b, i, j)
  {
    SweptEntry(p, tb, a[..i], b, j, cc, dd);
    SweptReversed(p, te, Rev(a[i..]), b, j, rr, ss);
  }

  /** The two vectors gotohb2 returns, as values. */
  method GotohB2Rows(p: Costs, t: real, a: string, b: string) returns (cc: seq<real>, dd: seq<real>)
    ensures Swept(p, t, a, b, cc, dd)
  {
    var c, d := GotohB2(p, t, a, b);
    cc, dd := c[..], d[..];
  }

  /** No column before `j` reaches the value `v`, and at `j` type 2 is chosen only if type 1 does not reach it. */
  ghost predicate FirstAt(p: Costs, tb: real, te: real, a: string, b: string, i: nat, v: real, j: nat, ty: int)
    requires 1 <= i < |a| && j <= |b|
  {
    && (forall k :: 0 <= k < j ==> v < Type1(p, tb, te, a, b, i, k) && v < Type2(p, tb, te, a, b, i, k))
    && (ty == 2 ==> v < Type1(p, tb, te, a, b, i, j))
  }

  /** The else-branch of gotohc up to its recursive calls. */
  method FindMidpoint(p: Costs, tb: real, te: real, a: string, b: string)
    returns (minSoFar: real, minJ: nat, minType: int)
    requires p.g >= 0.0 && 2 <= |a| && 1 <= |b|
    ensures minJ <= |b|
    ensures minType == 1 || minType == 2
    ensures minSoFar
            == if minType == 1 then Type1(p, tb, te, a, b, |a| / 2, minJ) else Type2(p, tb, te, a, b, |a| / 2, minJ)
    ensures FirstAt(p, tb, te, a, b, |a| / 2, minSoFar, minJ, minType)
    ensures IsLeastCost(p, tb, te, a, b, minSoFar)
    ensures tb == p.g && te == p.g ==> minSoFar == C(p, p.g, a, b)
  {
    var i, n := |a| / 2, |b|;
    var cc, dd := GotohB2Rows(p, tb, a[..i], b);
    var rr, ss := GotohB2Rows(p, te, Rev(a[i..]), Rev(b));
    var minFound := false;
    minSoFar, minJ, minType := 0.0, 0, 1;
    for j := 0 to n + 1
      invariant minFound <==> j > 0
      invariant minType == 1 || minType == 2
      invariant minJ <= n && (j > 0 ==> minJ < j)
      invariant forall k :: 0 <= k < j ==>
                minSoFar <= Type1(p, tb, te, a, b, i, k) && minSoFar <= Type2(p, tb, te, a, b, i, k)
      invariant j > 0 ==> FirstAt(p, tb, te, a, b, i, minSoFar, minJ, minType)
      invariant j > 0 ==>
                  minSoFar == if minType == 1 then Type1(p, tb, te, a, b, i, minJ) else Type2(p, tb, te, a, b, i, minJ)
    {
      MidpointSums(p, tb, te, a, b, i, j, cc, dd, rr, ss);
      var t1 := cc[j] + rr[n - j];
      var t2 := dd[j] + ss[n - j] - p.g;
      if !minFound || t1 < minSoFar {
        minType, minSoFar, minJ := 1, t1, j;
      }
      if t2 < minSoFar {
        minType, minSoFar, minJ := 2, t2, j;
      }
      minFound := true;
    }
    assert IsLeastMidpoint(p, tb, te, a, b, i, minSoFar);
    MidpointTheorem(p, tb, te, a, b, i, minSoFar);
    if tb == p.g && te == p.g {
      MidpointIsC(p, a, b, i, minSoFar);
    }
  }
}
