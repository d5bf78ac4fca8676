/**
 The handler undoes the proxy: running the demarshalling code of scripts/cppgen.py on the words
 written by its marshalling code restores every argument.
 */
module RoundTrip {
  import opened Bits
  import opened Sequences
  import opened Packing
  import opened Marshalling
  import opened MessageCodec

  // ----- Executing the handler -----

  /** The environment after the code of all the bins, last bin first. */
  function Demarshalled(bins: seq<seq<Piece>>, vals: seq<Bits>, env: seq<Bits>): (r: seq<Bits>)
    requires GoodBins(bins, vals) && |env| == |vals|
    ensures |r| == |env|
  {
    if bins == [] then env else ApplyAll(bins[0], vals, Demarshalled(bins[1..], vals, env))
  }

  lemma {:induction false} JoinReversedCons<T>(p: seq<T>, ps: seq<seq<T>>)
    ensures Join(Rev([p] + ps)) == Join(Rev(ps)) + p
  {
    RevCons(p, ps);
    assert Front(Rev(ps) + [p]) == Rev(ps);
  }

  /** The machine before and after the handler, with `tail` the words that follow the message. */
  lemma {:induction false} ExecReads(bins: seq<seq<Piece>>, vals: seq<Bits>, m: Machine, tail: seq<Bits>)
    requires GoodBins(bins, vals) && |m.env| == |vals|
    requires m.input == Rev(Words(bins, vals)) + tail
    ensures var r := Exec(Join(Rev(Reads(bins))), m);
            && r.Some? && r.value.env == Demarshalled(bins, vals, m.env)
            && r.value.input == tail && r.value.output == m.output
    decreases |bins|
  {
    if bins == [] {
      assert Rev(Words(bins, vals)) + tail == tail;
    } else {
      var p, w := [ReadWord] + DemarshallAssigns(bins[0]), Word(bins[0], vals);
      RevCons(w, Words(bins[1..], vals));
      assert m.input == Rev(Words(bins[1..], vals)) + ([w] + tail);
      ExecReads(bins[1..], vals, m, [w] + tail);
      JoinReversedCons(p, Reads(bins[1..]));
      ExecConcat(Join(Rev(Reads(bins[1..]))), p, m);
      var m1 := Exec(Join(Rev(Reads(bins[1..]))), m).value;
      ExecBin(bins[0], vals, m1);
    }
  }

  // ----- What the handler's assignments leave behind -----

  /** `v` without its `lo` least significant bits. */
  function From(v: Bits, lo: nat): Bits
    requires lo <= |v|
  {
    Zeros(lo) + v[lo..]
  }

  lemma {:induction false} PlacedFull(v: Bits, lo: nat, width: nat)
    requires lo <= width && width <= 64 && InRange(v, width)
    ensures Placed(v, lo, width) == From(v, lo)
  {
  }

  lemma {:induction false} OrPiece(v: Bits, lo: nat, cut: nat)
    requires lo <= cut <= |v|
    ensures BitOr(From(v, cut), Placed(v, lo, cut)) == From(v, lo)
  {
    var r := BitOr(From(v, cut), Placed(v, lo, cut));
    forall i | 0 <= i < |v|
      ensures r[i] == From(v, lo)[i]
    {
    }
  }

  /** The names of the pieces and the members are all different. */
  predicate Distinct(s: seq<Piece>, members: seq<Member>) {
    && (forall i, j :: 0 <= i < j < |s| ==> s[i].name != s[j].name)
    && (forall i, j :: 0 <= i < |s| && 0 <= j < |members| ==> s[i].name != members[j].name)
    && (forall i, j :: 0 <= i < j < |members| ==> members[i].name != members[j].name)
  }

  /** An open bin's pieces complete their arguments. */
  predicate Completing(s: seq<Piece>) {
    forall i :: 0 <= i < |s| ==> s[i].op.Set? && s[i].width == s[i].aw
  }

  predicate SettledAt(s: seq<Piece>, vals: seq<Bits>, env: seq<Bits>)
    requires PiecesOk(s, vals) && |env| == |vals|
  {
    forall i :: 0 <= i < |s| ==> env[s[i].name] == From(vals[s[i].name], s[i].shifted)
  }

  lemma {:induction false} SettledSnoc(s: seq<Piece>, vals: seq<Bits>, env: seq<Bits>)
    requires PiecesOk(s, vals) && |env| == |vals| && s != [] && Distinct(s, [])
    requires SettledAt(Front(s), vals, env)
    ensures SettledAt(s, vals, env[Last(s).name := From(vals[Last(s).name], Last(s).shifted)])
  {
    assert forall i :: 0 <= i < |s| - 1 ==> Front(s)[i] == s[i];
  }

  /** Pieces that complete arguments set them, whatever they held, and touch no others. */
  lemma {:induction false} ApplyCompleting(s: seq<Piece>, vals: seq<Bits>, env: seq<Bits>)
    requires PiecesOk(s, vals) && |env| == |vals| && Completing(s) && Distinct(s, [])
    ensures SettledAt(s, vals, ApplyAll(s, vals, env))
    ensures forall n :: 0 <= n < |vals| && (forall i :: 0 <= i < |s| ==> s[i].name != n) ==>
            ApplyAll(s, vals, env)[n] == env[n]
    decreases |s|
  {
    if s != [] {
      ApplyCompleting(Front(s), vals, env);
      var e, before := Last(s), ApplyAll(Front(s), vals, env);
      PlacedFull(vals[e.name], e.shifted, e.aw);
      assert ApplyAll(s, vals, env) == before[e.name := From(vals[e.name], e.shifted)];
      SettledSnoc(s, vals, before);
    }
  }

  /** All of the remaining members are restored, the first one from bit `pro` up, and so are the open bin's pieces. */
  predicate Restored(s: seq<Piece>, pro: nat, members: seq<Member>, vals: seq<Bits>, env: seq<Bits>)
    requires PiecesOk(s, vals) && |env| == |vals|
    requires ValidMembers(members) && ValidValues(members, vals)
    requires members != [] ==> pro < members[0].width
  {
    && SettledAt(s, vals, env)
    && (members != [] ==> env[members[0].name] == From(vals[members[0].name], pro))
    && forall i :: 1 <= i < |members| ==> env[members[i].name] == vals[members[i].name]
  }

  /** A member of which no bit is missing is restored. */
  lemma {:induction false} RestoredWhole(members: seq<Member>, vals: seq<Bits>, env: seq<Bits>)
    requires |env| == |vals| && ValidMembers(members) && ValidValues(members, vals)
    requires Restored([], 0, members, vals, env)
    ensures forall i :: 0 <= i < |members| ==> env[members[i].name] == vals[members[i].name]
  {
  }

  /** A piece that tops off its argument sets it; one that does not adds its bits to those above. */
  lemma {:induction false} AppliedRestores(e: Piece, vals: seq<Bits>, before: Bits)
    requires PieceOk(e, vals)
    requires if e.op.Set? then e.width == e.aw else e.width < e.aw && before == From(vals[e.name], e.width)
    ensures Applied(e, vals, before) == From(vals[e.name], e.shifted)
  {
    if e.op.Set? {
      PlacedFull(vals[e.name], e.shifted, e.aw);
    } else {
      OrPiece(vals[e.name], e.shifted, e.width);
    }
  }

  /** One closed bin on top of bins that restore the rest. */
  lemma {:induction false} CloseRestored(s: seq<Piece>, e: Piece, members: seq<Member>, vals: seq<Bits>, env: seq<Bits>)
    requires PiecesOk(s, vals) && PieceOk(e, vals) && |env| == |vals|
    requires ValidMembers(members) && ValidValues(members, vals) && members != []
    requires Completing(s) && Distinct(s, members)
    requires e.name == members[0].name && e.aw == members[0].width
    requires forall i :: 1 <= i < |members| ==> env[members[i].name] == vals[members[i].name]
    requires if e.op.Set? then e.width == e.aw else e.width < e.aw && env[e.name] == From(vals[e.name], e.width)
    ensures PiecesOk(s + [e], vals) && Restored(s, e.shifted, members, vals, ApplyAll(s + [e], vals, env))
  {
    var before := ApplyAll(s, vals, env);
    ApplyCompleting(s, vals, env);
    assert Front(s + [e]) == s;
    assert ApplyAll(s + [e], vals, env) == before[e.name := Applied(e, vals, before[e.name])];
    assert before[e.name] == env[e.name];
    AppliedRestores(e, vals, before[e.name]);
  }

  lemma {:induction false} DemarshalledCons(s: seq<Piece>, bins: seq<seq<Piece>>, vals: seq<Bits>, env: seq<Bits>)
    requires GoodBin(s, vals) && GoodBins([s] + bins, vals) && GoodBins(bins, vals) && |env| == |vals|
    ensures Demarshalled([s] + bins, vals, env) == ApplyAll(s, vals, Demarshalled(bins, vals, env))
  {
    assert ([s] + bins)[1..] == bins;
  }

  /** The members' suffix keeps distinct names. */
  lemma {:induction false} DistinctRest(s: seq<Piece>, members: seq<Member>)
    requires members != [] && Distinct(s, members)
    ensures Distinct([], members[1..]) && Distinct([], members)
    ensures forall e: Piece :: e.name == members[0].name ==> Distinct(s + [e], members[1..])
  {
  }

  /** The top piece of an argument comes first, assigned with `=`, and the lower pieces are or-ed in
      below it: whatever the variables held, every argument ends up whole. */
  lemma {:induction false} AccumRestores(s: seq<Piece>, pro: nat, members: seq<Member>, vals: seq<Bits>, env: seq<Bits>)
    requires ValidMembers(members) && ValidValues(members, vals) && OpenBin(s, vals) && |env| == |vals|
    requires members != [] ==> pro < members[0].width
    requires Completing(s) && Distinct(s, members)
    ensures GoodBins(AccumWords(s, pro, members), vals)
    ensures Restored(s, pro, members, vals, Demarshalled(AccumWords(s, pro, members), vals, env))
    decreases |members|, if members == [] then 0 else members[0].width - pro
  {
    AccumKeepsBits(s, pro, members, vals);
    if members == [] {
      LastRestored(s, vals, env);
    } else {
      DistinctRest(s, members);
      if members[0].width - pro + BinWidth(s) > 32 {
        SplitRestores(s, pro, members, vals, env);
      } else if members[0].width - pro + BinWidth(s) == 32 {
        FullRestores(s, pro, members, vals, env);
      } else {
        OpenRestores(s, pro, members, vals, env);
      }
    }
  }

  lemma {:induction false} LastRestored(s: seq<Piece>, vals: seq<Bits>, env: seq<Bits>)
    requires OpenBin(s, vals) && |env| == |vals| && Completing(s) && Distinct(s, [])
    requires GoodBins(AccumWords(s, 0, []), vals)
    ensures SettledAt(s, vals, Demarshalled(AccumWords(s, 0, []), vals, env))
  {
    if s != [] {
      ApplyCompleting(s, vals, env);
      assert Demarshalled([s], vals, env) == ApplyAll(s, vals, Demarshalled([], vals, env));
    }
  }

  lemma {:induction false} SplitRestores(s: seq<Piece>, pro: nat, members: seq<Member>, vals: seq<Bits>, env: seq<Bits>)
    requires ValidMembers(members) && ValidValues(members, vals) && OpenBin(s, vals) && |env| == |vals|
    requires members != [] && pro < members[0].width && members[0].width - pro + BinWidth(s) > 32
    requires Completing(s) && Distinct(s, members) && Distinct([], members)
    requires GoodBins(AccumWords(s, pro, members), vals)
    ensures Restored(s, pro, members, vals, Demarshalled(AccumWords(s, pro, members), vals, env))
    decreases |members|, members[0].width - pro, 0
  {
    var e := Piece(members[0].name, pro + (32 - BinWidth(s)), pro, members[0].width, OrSet);
    AccumRestores([], e.width, members, vals, env);
    AccumSplits(s, pro, e.width, members);
    BinSnoc(s, e, vals);
    DemarshalledCons(s + [e], AccumWords([], e.width, members), vals, env);
    CloseRestored(s, e, members, vals, Demarshalled(AccumWords([], e.width, members), vals, env));
  }

  lemma {:induction false} FullRestores(s: seq<Piece>, pro: nat, members: seq<Member>, vals: seq<Bits>, env: seq<Bits>)
    requires ValidMembers(members) && ValidValues(members, vals) && OpenBin(s, vals) && |env| == |vals|
    requires members != [] && pro < members[0].width && members[0].width - pro + BinWidth(s) == 32
    requires Completing(s) && Distinct(s, members) && Distinct([], members[1..])
    requires GoodBins(AccumWords(s, pro, members), vals)
    ensures Restored(s, pro, members, vals, Demarshalled(AccumWords(s, pro, members), vals, env))
    decreases |members|, members[0].width - pro, 0
  {
    var e := Piece(members[0].name, members[0].width, pro, members[0].width, Set);
    var rest := AccumWords([], 0, members[1..]);
    AccumRestores([], 0, members[1..], vals, env);
    RestoredWhole(members[1..], vals, Demarshalled(rest, vals, env));
    assert AccumWords(s, pro, members) == [s + [e]] + rest;
    BinSnoc(s, e, vals);
    DemarshalledCons(s + [e], rest, vals, env);
    CloseRestored(s, e, members, vals, Demarshalled(rest, vals, env));
  }

  lemma {:induction false} OpenRestores(s: seq<Piece>, pro: nat, members: seq<Member>, vals: seq<Bits>, env: seq<Bits>)
    requires ValidMembers(members) && ValidValues(members, vals) && OpenBin(s, vals) && |env| == |vals|
    requires members != [] && pro < members[0].width && members[0].width - pro + BinWidth(s) < 32
    requires Completing(s) && Distinct(s, members)
    requires GoodBins(AccumWords(s, pro, members), vals)
    ensures Restored(s, pro, members, vals, Demarshalled(AccumWords(s, pro, members), vals, env))
    decreases |members|, members[0].width - pro, 0
  {
    var e := Piece(members[0].name, members[0].width, pro, members[0].width, Set);
    BinSnoc(s, e, vals);
    DistinctRest(s, members);
    AccumRestores(s + [e], 0, members[1..], vals, env);
    AccumStaysOpen(s, pro, members);
    OpenRestored(s, e, members, vals, Demarshalled(AccumWords(s, pro, members), vals, env));
  }

  lemma {:induction false} OpenRestored(s: seq<Piece>, e: Piece, members: seq<Member>, vals: seq<Bits>, env: seq<Bits>)
    requires PiecesOk(s, vals) && PieceOk(e, vals) && PiecesOk(s + [e], vals) && |env| == |vals|
    requires ValidMembers(members) && ValidValues(members, vals) && members != []
    requires e.name == members[0].name && e.aw == members[0].width
    requires Restored(s + [e], 0, members[1..], vals, env)
    ensures Restored(s, e.shifted, members, vals, env)
  {
    assert (s + [e])[|s|] == e;
    forall i | 0 <= i < |s|
      ensures env[s[i].name] == From(vals[s[i].name], s[i].shifted)
    {
      assert (s + [e])[i] == s[i];
    }
    forall i | 1 <= i < |members|
      ensures env[members[i].name] == vals[members[i].name]
    {
      assert members[1..][i - 1] == members[i];
    }
  }

  lemma {:induction false} SomeRoundTrip(ws: seq<nat>, vals: seq<Bits>, proxy: Machine, handler: Machine,
                                         tail: seq<Bits>)
    requires ValidWidths(ws) && ValidArgs(ws, vals) && ws != []
    requires proxy.env == vals && proxy.output == [] && |handler.env| == |ws|
    requires Exec(MarshallProgram(ws), proxy).Some?
    requires handler.input == Exec(MarshallProgram(ws), proxy).value.output + tail
    ensures var r := Exec(DemarshallProgram(ws), handler); r.Some? && r.value.env == vals && r.value.input == tail
  {
    var bins, members := ArgWords(ws), Rev(Atoms(ws));
    ExecMarshall(ws, vals, proxy);
    AtomsValid(ws);
    ArgWordsHoldArgs(ws, vals);
    ValidReversed(Atoms(ws), vals);
    assert bins != [] by { assert TotalBits(ws) >= Last(ws) >= 1; }
    ExecReads(bins, vals, handler, tail);
    AccumRestores([], 0, members, vals, handler.env);
    RestoredWhole(members, vals, Demarshalled(bins, vals, handler.env));
    var env := Demarshalled(bins, vals, handler.env);
    forall i | 0 <= i < |ws|
      ensures env[i] == vals[i]
    {
      assert members[|ws| - 1 - i].name == i;
    }
  }

  lemma {:induction false} NothingRoundTrips(proxy: Machine, handler: Machine, tail: seq<Bits>)
    requires proxy.output == [] && Exec(MarshallProgram([]), proxy).Some?
    requires handler.input == Exec(MarshallProgram([]), proxy).value.output + tail
    ensures var r := Exec(DemarshallProgram([]), handler);
            r.Some? && r.value.env == handler.env && r.value.input == tail
  {
    MarshallNothing(proxy);
    assert handler.input == [Zeros(32)] + tail;
    ExecOne(ReadWord, handler);
  }

  /** For every list of argument widths from 1 to 64 and all values in range: the proxy's code is defined, and the
      handler's code, run on the words that it writes, is defined, reads exactly those words and restores every
      argument, whatever its variables held before. */
  lemma {:induction false} ArgumentsRoundTrip(ws: seq<nat>, vals: seq<Bits>, proxy: Machine, handler: Machine,
                                              tail: seq<Bits>)
    requires ValidWidths(ws) && ValidArgs(ws, vals)
    requires proxy.env == vals && proxy.output == [] && |handler.env| == |ws|
    ensures var w := Exec(MarshallProgram(ws), proxy);
            && w.Some?
            && var r := Exec(DemarshallProgram(ws), handler.(input := w.value.output + tail));
               r.Some? && r.value.env == vals && r.value.input == tail
  {
    if ws == [] {
      MarshallNothing(proxy);
      NothingRoundTrips(proxy, handler.(input := Exec(MarshallProgram(ws), proxy).value.output + tail), tail);
    } else {
      ExecMarshall(ws, vals, proxy);
      SomeRoundTrip(ws, vals, proxy, handler.(input := Exec(MarshallProgram(ws), proxy).value.output + tail), tail);
    }
  }
}
