/**
 The bin packing of the message compiler, scripts/cppgen.py: accumWords splits the flattened
 arguments of a method into 32-bit bins.
 */
module Packing {
  import opened Bits
  import opened Sequences

  // ----- Packing into bins -----

  datatype AssignOp = Set | OrSet

  /** paramInfo: the bits `shifted..width` of argument `name`, whose type has `aw` bits. */
  datatype Piece = Piece(name: nat, width: nat, shifted: nat, aw: nat, op: AssignOp)

  /** A flattened argument: its name and its bit width. */
  datatype Member = Member(name: nat, width: nat)

  function BinWidth(s: seq<Piece>): int {
    if s == [] then 0 else BinWidth(Front(s)) + Last(s).width - Last(s).shifted
  }

  predicate ValidMembers(members: seq<Member>) {
    forall i :: 0 <= i < |members| ==> 1 <= members[i].width <= 64
  }

  /** accumWords: `pro` bits of the first member are already in earlier bins. */
  function AccumWords(s: seq<Piece>, pro: nat, members: seq<Member>): seq<seq<Piece>>
    requires ValidMembers(members) && BinWidth(s) < 32
    requires members != [] ==> pro < members[0].width
    decreases |members|, if members == [] then 0 else members[0].width - pro
  {
    if members == [] then (if s == [] then [] else [s])
    else
      var w := BinWidth(s);
      var Member(name, aw) := members[0];
      if aw - pro + w == 32 then
        [s + [Piece(name, aw, pro, aw, Set)]] + AccumWords([], 0, members[1..])
      else if aw - pro + w < 32 then
        BinWidthSnoc(s, Piece(name, aw, pro, aw, Set));
        AccumWords(s + [Piece(name, aw, pro, aw, Set)], 0, members[1..])
      else
        [s + [Piece(name, pro + (32 - w), pro, aw, OrSet)]] + AccumWords([], pro + (32 - w), members)
  }

  lemma {:induction false} BinWidthSnoc(s: seq<Piece>, e: Piece)
    ensures BinWidth(s + [e]) == BinWidth(s) + e.width - e.shifted
  {
    assert Front(s + [e]) == s;
  }

  // ----- What a bin holds -----

  /** The C type of an argument: uint32_t up to 32 bits, uint64_t up to 64. */
  function TypeBits(width: nat): nat {
    if width <= 32 then 32 else 64
  }

  /** `v` is the value of a variable of a `width`-bit type. */
  predicate InRange(v: Bits, width: nat) {
    |v| == TypeBits(width) && forall i :: width <= i < |v| ==> !v[i]
  }

  predicate ValidValues(members: seq<Member>, vals: seq<Bits>) {
    forall i :: 0 <= i < |members| ==> members[i].name < |vals| && InRange(vals[members[i].name], members[i].width)
  }

  predicate PieceOk(e: Piece, vals: seq<Bits>) {
    && e.name < |vals| && 1 <= e.aw <= 64 && InRange(vals[e.name], e.aw)
    && e.shifted < e.width <= e.aw
  }

  function PieceBits(e: Piece, vals: seq<Bits>): Bits
    requires PieceOk(e, vals)
  {
    vals[e.name][e.shifted..e.width]
  }

  predicate PiecesOk(s: seq<Piece>, vals: seq<Bits>) {
    forall i :: 0 <= i < |s| ==> PieceOk(s[i], vals)
  }

  function BinBits(s: seq<Piece>, vals: seq<Bits>): (r: Bits)
    requires PiecesOk(s, vals)
    ensures |r| == BinWidth(s)
  {
    if s == [] then [] else BinBits(Front(s), vals) + PieceBits(Last(s), vals)
  }

  /** Every argument but the last ends in this bin, and the last ends here or fills it. */
  predicate GoodBin(s: seq<Piece>, vals: seq<Bits>) {
    && s != [] && PiecesOk(s, vals) && 1 <= BinWidth(s) <= 32
    && (forall i :: 0 <= i < |s| - 1 ==> s[i].width == s[i].aw)
    && (Last(s).width == Last(s).aw || BinWidth(s) == 32)
  }

  predicate OpenBin(s: seq<Piece>, vals: seq<Bits>) {
    && PiecesOk(s, vals) && BinWidth(s) < 32
    && forall i :: 0 <= i < |s| ==> s[i].width == s[i].aw
  }

  /** The bits of a list of arguments, one after the other. */
  function MemberBits(members: seq<Member>, vals: seq<Bits>): Bits
    requires ValidMembers(members) && ValidValues(members, vals)
  {
    if members == [] then []
    else vals[members[0].name][..members[0].width] + MemberBits(members[1..], vals)
  }

  /** All bins are good, all but the last are full. */
  predicate GoodBins(bins: seq<seq<Piece>>, vals: seq<Bits>) {
    && (forall i :: 0 <= i < |bins| ==> GoodBin(bins[i], vals))
    && forall i :: 0 <= i < |bins| - 1 ==> BinWidth(bins[i]) == 32
  }

  function AllBits(bins: seq<seq<Piece>>, vals: seq<Bits>): Bits
    requires GoodBins(bins, vals)
  {
    if bins == [] then [] else BinBits(bins[0], vals) + AllBits(bins[1..], vals)
  }

  lemma {:induction false} GoodBinsCons(s: seq<Piece>, bins: seq<seq<Piece>>, vals: seq<Bits>)
    requires GoodBin(s, vals) && BinWidth(s) == 32 && GoodBins(bins, vals)
    ensures GoodBins([s] + bins, vals) && AllBits([s] + bins, vals) == BinBits(s, vals) + AllBits(bins, vals)
  {
    assert ([s] + bins)[1..] == bins;
  }

  lemma {:induction false} BinSnoc(s: seq<Piece>, e: Piece, vals: seq<Bits>)
    requires OpenBin(s, vals) && PieceOk(e, vals)
    requires BinWidth(s) + e.width - e.shifted <= 32
    requires e.width == e.aw || BinWidth(s) + e.width - e.shifted == 32
    ensures BinWidth(s + [e]) == BinWidth(s) + e.width - e.shifted
    ensures GoodBin(s + [e], vals)
    ensures BinBits(s + [e], vals) == BinBits(s, vals) + PieceBits(e, vals)
    ensures BinWidth(s + [e]) < 32 ==> OpenBin(s + [e], vals)
  {
    assert Front(s + [e]) == s;
    WidthNonNegative(s, vals);
  }

  lemma {:induction false} WidthNonNegative(s: seq<Piece>, vals: seq<Bits>)
    requires PiecesOk(s, vals)
    ensures BinWidth(s) >= |s|
  {
    if s != [] {
      WidthNonNegative(Front(s), vals);
    }
  }

  /** What AccumWords still has to place. */
  function Remaining(pro: nat, members: seq<Member>, vals: seq<Bits>): Bits
    requires ValidMembers(members) && ValidValues(members, vals)
    requires members != [] ==> pro < members[0].width
  {
    if members == [] then []
    else vals[members[0].name][pro..members[0].width] + MemberBits(members[1..], vals)
  }

  lemma {:induction false} RemainingWhole(members: seq<Member>, vals: seq<Bits>)
    requires ValidMembers(members) && ValidValues(members, vals)
    ensures Remaining(0, members, vals) == MemberBits(members, vals)
  {
  }

  lemma {:induction false} CloseBin(s: seq<Piece>, e: Piece, bins: seq<seq<Piece>>, vals: seq<Bits>)
    requires OpenBin(s, vals) && PieceOk(e, vals) && BinWidth(s) + e.width - e.shifted == 32
    requires GoodBins(bins, vals)
    ensures GoodBins([s + [e]] + bins, vals)
    ensures AllBits([s + [e]] + bins, vals) == BinBits(s, vals) + (PieceBits(e, vals) + AllBits(bins, vals))
  {
    BinSnoc(s, e, vals);
    GoodBinsCons(s + [e], bins, vals);
    ConcatAssociative(BinBits(s, vals), PieceBits(e, vals), AllBits(bins, vals));
  }

  lemma {:induction false} LastBin(s: seq<Piece>, vals: seq<Bits>)
    requires OpenBin(s, vals)
    ensures var bins := if s == [] then [] else [s]; GoodBins(bins, vals) && AllBits(bins, vals) == BinBits(s, vals)
  {
    if s != [] {
      WidthNonNegative(s, vals);
      assert AllBits([s], vals) == BinBits(s, vals) + AllBits([], vals);
    }
  }

  lemma {:induction false} SplitRemaining(pro: nat, cut: nat, members: seq<Member>, vals: seq<Bits>)
    requires ValidMembers(members) && ValidValues(members, vals) && members != []
    requires pro < cut < members[0].width
    ensures Remaining(pro, members, vals) == vals[members[0].name][pro..cut] + Remaining(cut, members, vals)
  {
    var v, aw := vals[members[0].name], members[0].width;
    assert v[pro..aw] == v[pro..cut] + v[cut..aw];
    ConcatAssociative(v[pro..cut], v[cut..aw], MemberBits(members[1..], vals));
  }

  /** The bins hold the open bin's bits and then what remains. */
  ghost predicate Packed(bins: seq<seq<Piece>>, s: seq<Piece>, rest: Bits, vals: seq<Bits>)
    requires OpenBin(s, vals)
  {
    GoodBins(bins, vals) && AllBits(bins, vals) == BinBits(s, vals) + rest
  }

  lemma {:induction false} AccumSplits(s: seq<Piece>, pro: nat, cut: nat, members: seq<Member>)
    requires ValidMembers(members) && BinWidth(s) < 32 && cut == pro + (32 - BinWidth(s))
    requires members != [] && pro < members[0].width && cut < members[0].width
    ensures AccumWords(s, pro, members)
            == [s + [Piece(members[0].name, cut, pro, members[0].width, OrSet)]] + AccumWords([], cut, members)
  {
  }

  lemma {:induction false} AccumFills(s: seq<Piece>, pro: nat, members: seq<Member>)
    requires ValidMembers(members) && BinWidth(s) < 32
    requires members != [] && pro < members[0].width && members[0].width - pro + BinWidth(s) == 32
    ensures AccumWords(s, pro, members)
            == [s + [Piece(members[0].name, members[0].width, pro, members[0].width, Set)]]
              + AccumWords([], 0, members[1..])
  {
  }

  lemma {:induction false} AccumStaysOpen(s: seq<Piece>, pro: nat, members: seq<Member>)
    requires ValidMembers(members) && BinWidth(s) < 32
    requires members != [] && pro < members[0].width && members[0].width - pro + BinWidth(s) < 32
    ensures var e := Piece(members[0].name, members[0].width, pro, members[0].width, Set);
            BinWidth(s + [e]) < 32 && AccumWords(s, pro, members) == AccumWords(s + [e], 0, members[1..])
  {
    assert Front(s + [Piece(members[0].name, members[0].width, pro, members[0].width, Set)]) == s;
  }

  lemma {:induction false} PackedSplit(s: seq<Piece>, e: Piece, members: seq<Member>, vals: seq<Bits>,
                                       bins: seq<seq<Piece>>, rest: Bits)
    requires ValidMembers(members) && ValidValues(members, vals) && OpenBin(s, vals) && members != []
    requires e.name == members[0].name && e.aw == members[0].width
    requires e.shifted < e.width < e.aw && e.width == e.shifted + (32 - BinWidth(s))
    requires Packed(bins, [], rest, vals) && rest == Remaining(e.width, members, vals)
    ensures Packed([s + [e]] + bins, s, Remaining(e.shifted, members, vals), vals)
  {
    assert AllBits(bins, vals) == rest;
    CloseBin(s, e, bins, vals);
    SplitRemaining(e.shifted, e.width, members, vals);
  }

  lemma {:induction false} PackedFull(s: seq<Piece>, e: Piece, members: seq<Member>, vals: seq<Bits>,
                                      bins: seq<seq<Piece>>)
    requires ValidMembers(members) && ValidValues(members, vals) && OpenBin(s, vals) && members != []
    requires e.name == members[0].name && e.width == e.aw == members[0].width
    requires e.shifted < e.width && e.width - e.shifted + BinWidth(s) == 32
    requires Packed(bins, [], MemberBits(members[1..], vals), vals)
    ensures Packed([s + [e]] + bins, s, Remaining(e.shifted, members, vals), vals)
  {
    CloseBin(s, e, bins, vals);
  }

  lemma {:induction false} AccumPacksFull(s: seq<Piece>, pro: nat, members: seq<Member>, vals: seq<Bits>)
    requires ValidMembers(members) && ValidValues(members, vals) && OpenBin(s, vals)
    requires members != [] && pro < members[0].width && members[0].width - pro + BinWidth(s) == 32
    requires Packed(AccumWords([], 0, members[1..]), [], MemberBits(members[1..], vals), vals)
    ensures Packed(AccumWords(s, pro, members), s, Remaining(pro, members, vals), vals)
  {
    AccumFills(s, pro, members);
    PackedFull(s, Piece(members[0].name, members[0].width, pro, members[0].width, Set), members, vals,
               AccumWords([], 0, members[1..]));
  }

  lemma {:induction false} AccumPacksSplit(s: seq<Piece>, pro: nat, cut: nat, members: seq<Member>, vals: seq<Bits>)
    requires ValidMembers(members) && ValidValues(members, vals) && OpenBin(s, vals) && cut == pro + (32 - BinWidth(s))
    requires members != [] && pro < members[0].width && cut < members[0].width
    requires Packed(AccumWords([], cut, members), [], Remaining(cut, members, vals), vals)
    ensures Packed(AccumWords(s, pro, members), s, Remaining(pro, members, vals), vals)
  {
    var e := Piece(members[0].name, cut, pro, members[0].width, OrSet);
    AccumSplits(s, pro, cut, members);
    PackedSplit(s, e, members, vals, AccumWords([], cut, members), Remaining(cut, members, vals));
  }

  lemma {:induction false} PackedOpen(s: seq<Piece>, pro: nat, members: seq<Member>, vals: seq<Bits>)
    requires ValidMembers(members) && ValidValues(members, vals) && OpenBin(s, vals)
    requires members != [] && pro < members[0].width && members[0].width - pro + BinWidth(s) < 32
    requires var s' := s + [Piece(members[0].name, members[0].width, pro, members[0].width, Set)];
             OpenBin(s', vals) && Packed(AccumWords(s', 0, members[1..]), s', MemberBits(members[1..], vals), vals)
    ensures Packed(AccumWords(s, pro, members), s, Remaining(pro, members, vals), vals)
  {
    var e := Piece(members[0].name, members[0].width, pro, members[0].width, Set);
    AccumStaysOpen(s, pro, members);
    BinSnoc(s, e, vals);
    ConcatAssociative(BinBits(s, vals), PieceBits(e, vals), MemberBits(members[1..], vals));
  }

  /** accumWords loses no bit, repeats none, keeps their order, and fills every bin but the last. */
  lemma {:induction false} AccumKeepsBits(s: seq<Piece>, pro: nat, members: seq<Member>, vals: seq<Bits>)
    requires ValidMembers(members) && ValidValues(members, vals) && OpenBin(s, vals)
    requires members != [] ==> pro < members[0].width
    ensures Packed(AccumWords(s, pro, members), s, Remaining(pro, members, vals), vals)
    decreases |members|, if members == [] then 0 else members[0].width - pro
  {
    if members == [] {
      LastBin(s, vals);
    } else if members[0].width - pro + BinWidth(s) > 32 {
      var cut := pro + (32 - BinWidth(s));
      AccumKeepsBits([], cut, members, vals);
      AccumPacksSplit(s, pro, cut, members, vals);
    } else {
      RemainingWhole(members[1..], vals);
      if members[0].width - pro + BinWidth(s) == 32 {
        AccumKeepsBits([], 0, members[1..], vals);
        AccumPacksFull(s, pro, members, vals);
      } else {
        var e := Piece(members[0].name, members[0].width, pro, members[0].width, Set);
        BinSnoc(s, e, vals);
        AccumKeepsBits(s + [e], 0, members[1..], vals);
        PackedOpen(s, pro, members, vals);
      }
    }
  }
}
