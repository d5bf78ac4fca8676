/**
 One real output of the message compiler, generated/cpp/MMURequest.c: the model of scripts/cppgen.py produces for
 the method `sglist` exactly the writes, reads and assignments of that file.
 */
module GeneratedCode {
  import opened Sequences
  import opened Packing
  import opened Marshalling
  import opened MessageCodec

  /** sglId, sglIndex, addr, len. */
  const SGLIST: seq<nat> := [32, 32, 64, 32]

  lemma {:induction false} WholeBin(pro: nat, members: seq<Member>)
    requires ValidMembers(members) && members != [] && members[0].width == pro + 32
    ensures AccumWords([], pro, members)
            == [[Piece(members[0].name, members[0].width, pro, members[0].width, Set)]]
              + AccumWords([], 0, members[1..])
  {
    AccumFills([], pro, members);
    var e := Piece(members[0].name, members[0].width, pro, members[0].width, Set);
    assert [] + [e] == [e];
  }

  lemma {:induction false} LowBin(members: seq<Member>)
    requires ValidMembers(members) && members != [] && members[0].width > 32
    ensures AccumWords([], 0, members)
            == [[Piece(members[0].name, 32, 0, members[0].width, OrSet)]] + AccumWords([], 32, members)
  {
    AccumSplits([], 0, 32, members);
    var e := Piece(members[0].name, 32, 0, members[0].width, OrSet);
    assert [] + [e] == [e];
  }

  lemma {:induction false} SglistBins()
    ensures ValidWidths(SGLIST)
    ensures ArgWords(SGLIST) == [[Piece(3, 32, 0, 32, Set)], [Piece(2, 32, 0, 64, OrSet)], [Piece(2, 64, 32, 64, Set)],
                                 [Piece(1, 32, 0, 32, Set)], [Piece(0, 32, 0, 32, Set)]]
  {
    AtomsValid(SGLIST);
    var m3, m2, m1, m0 := Member(3, 32), Member(2, 64), Member(1, 32), Member(0, 32);
    assert Rev(Atoms(SGLIST)) == [m3, m2, m1, m0];
    assert [m3, m2, m1, m0][1..] == [m2, m1, m0] && [m2, m1, m0][1..] == [m1, m0];
    assert [m1, m0][1..] == [m0] && [m0][1..] == [];
    WholeBin(0, [m3, m2, m1, m0]);
    LowBin([m2, m1, m0]);
    WholeBin(32, [m2, m1, m0]);
    WholeBin(0, [m1, m0]);
    WholeBin(0, [m0]);
  }

  /** The proxy: `addr` goes out as its upper and then its lower word. */
  lemma {:induction false} SglistProxy()
    ensures ValidWidths(SGLIST)
    ensures MarshallProgram(SGLIST)
            == [WriteWord(Var(0)), WriteWord(Var(1)), WriteWord(Shr(Var(2), 32)), WriteWord(Var(2)), WriteWord(Var(3))]
  {
    SglistBins();
    var bins := ArgWords(SGLIST);
    assert bins[1..][1..][1..][1..][1..] == [];
    var w := Writes(bins);
    forall i | 0 <= i < 5
      ensures Rev(w)[i] == w[4 - i]
    {
      RevAt(w, i);
    }
  }

  /** A word read, and the piece of an argument that it holds assigned. */
  function ReadPiece(e: Piece): seq<Stmt> {
    [ReadWord, DemarshallAssign(e, 0)]
  }

  lemma {:induction false} ReadsCons(e: Piece, bins: seq<seq<Piece>>)
    ensures Reads([[e]] + bins) == [ReadPiece(e)] + Reads(bins)
  {
    assert ([[e]] + bins)[1..] == bins && Front([e]) == [];
    assert [ReadWord] + DemarshallAssigns([e]) == ReadPiece(e);
  }

  lemma {:induction false} ReadsFive(bins: seq<seq<Piece>>)
    requires |bins| == 5 && forall i :: 0 <= i < 5 ==> |bins[i]| == 1
    ensures |Reads(bins)| == 5 && forall i :: 0 <= i < 5 ==> Reads(bins)[i] == ReadPiece(bins[i][0])
  {
    assert bins == [bins[0]] + ([bins[1]] + ([bins[2]] + ([bins[3]] + ([bins[4]] + []))));
    ReadsCons(bins[4][0], []);
    ReadsCons(bins[3][0], [bins[4]] + []);
    ReadsCons(bins[2][0], [bins[3]] + ([bins[4]] + []));
    ReadsCons(bins[1][0], [bins[2]] + ([bins[3]] + ([bins[4]] + [])));
    ReadsCons(bins[0][0], [bins[1]] + ([bins[2]] + ([bins[3]] + ([bins[4]] + []))));
    assert forall i :: 0 <= i < 5 ==> bins[i] == [bins[i][0]];
  }

  lemma {:induction false} HandlerOfFive(bins: seq<seq<Piece>>)
    requires |bins| == 5 && forall i :: 0 <= i < 5 ==> |bins[i]| == 1
    ensures Join(Rev(Reads(bins)))
            == ReadPiece(bins[4][0]) + ReadPiece(bins[3][0]) + ReadPiece(bins[2][0]) + ReadPiece(bins[1][0])
              + ReadPiece(bins[0][0])
  {
    ReadsFive(bins);
    var r := Rev(Reads(bins));
    forall i | 0 <= i < 5
      ensures r[i] == Reads(bins)[4 - i]
    {
      RevAt(Reads(bins), i);
    }
    JoinFive(r);
  }

  /** The handler: the upper word of `addr` is assigned, and the lower word or-ed in, under a 64-bit mask. */
  lemma {:induction false} SglistHandler()
    ensures ValidWidths(SGLIST)
    ensures DemarshallProgram(SGLIST)
            == [ReadWord, Assign(0, Set, Cast(And(Tmp, 32), 32))]
             + [ReadWord, Assign(1, Set, Cast(And(Tmp, 32), 32))]
             + [ReadWord, Assign(2, Set, Cast(Shl(Cast(And(Tmp, 32), 64), 32), 64))]
             + [ReadWord, Assign(2, OrSet, Cast(And(Tmp, 64), 64))]
             + [ReadWord, Assign(3, Set, Cast(And(Tmp, 32), 32))]
  {
    SglistBins();
    HandlerOfFive(ArgWords(SGLIST));
  }

  lemma {:induction false} JoinFive<T>(ps: seq<seq<T>>)
    requires |ps| == 5
    ensures Join(ps) == ps[0] + ps[1] + ps[2] + ps[3] + ps[4]
  {
    assert Front(ps[..1]) == [] && Join(ps[..1]) == [] + ps[0] == ps[0];
    assert Front(ps[..2]) == ps[..1] && Join(ps[..2]) == Join(ps[..1]) + ps[1];
    assert Front(ps[..3]) == ps[..2] && Join(ps[..3]) == Join(ps[..2]) + ps[2];
    assert Front(ps[..4]) == ps[..3] && Join(ps[..4]) == Join(ps[..3]) + ps[3];
    assert Front(ps) == ps[..4];
  }
}
