/**
 Whole messages, scripts/cppgen.py: gatherMethodInfo compiles a method's arguments to the code of its
 proxy and of its handler, and generate_class sizes the request buffer.
 */
module MessageCodec {
  import opened Options
  import opened Bits
  import opened Sequences
  import opened Packing
  import opened Marshalling

  /** The bit widths of a method's flattened arguments, in declaration order. */
  predicate ValidWidths(ws: seq<nat>) {
    forall i :: 0 <= i < |ws| ==> 1 <= ws[i] <= 64
  }

  predicate ValidArgs(ws: seq<nat>, vals: seq<Bits>) {
    |vals| == |ws| && forall i :: 0 <= i < |ws| ==> InRange(vals[i], ws[i])
  }

  function Atoms(ws: seq<nat>): seq<Member> {
    seq(|ws|, i requires 0 <= i < |ws| => Member(i, ws[i]))
  }

  lemma {:induction false} AtomsValid(ws: seq<nat>)
    requires ValidWidths(ws)
    ensures ValidMembers(Atoms(ws)) && ValidMembers(Rev(Atoms(ws)))
    ensures forall i :: 0 <= i < |ws| ==> Rev(Atoms(ws))[i] == Member(|ws| - 1 - i, ws[|ws| - 1 - i])
  {
    forall i | 0 <= i < |ws|
      ensures Rev(Atoms(ws))[i] == Member(|ws| - 1 - i, ws[|ws| - 1 - i])
    {
      RevAt(Atoms(ws), i);
    }
  }

  /** The bins of a method: its arguments reversed, then packed. */
  function ArgWords(ws: seq<nat>): seq<seq<Piece>>
    requires ValidWidths(ws)
  {
    AtomsValid(ws);
    AccumWords([], 0, Rev(Atoms(ws)))
  }

  function Writes(bins: seq<seq<Piece>>): seq<Stmt>
    requires [] !in bins
  {
    if bins == [] then [] else [WriteWord(MarshallExpr(bins[0]))] + Writes(bins[1..])
  }

  function Reads(bins: seq<seq<Piece>>): seq<seq<Stmt>> {
    if bins == [] then [] else [[ReadWord] + DemarshallAssigns(bins[0])] + Reads(bins[1..])
  }

  function Join<T>(ps: seq<seq<T>>): seq<T> {
    if ps == [] then [] else Join(Front(ps)) + Last(ps)
  }

  lemma {:induction false} NoEmptyBin(s: seq<Piece>, pro: nat, members: seq<Member>)
    requires ValidMembers(members) && BinWidth(s) < 32
    requires members != [] ==> pro < members[0].width
    ensures [] !in AccumWords(s, pro, members)
    decreases |members|, if members == [] then 0 else members[0].width - pro
  {
    if members != [] {
      var w := BinWidth(s);
      var Member(name, aw) := members[0];
      if aw - pro + w == 32 {
        NoEmptyBin([], 0, members[1..]);
      } else if aw - pro + w < 32 {
        BinWidthSnoc(s, Piece(name, aw, pro, aw, Set));
        NoEmptyBin(s + [Piece(name, aw, pro, aw, Set)], 0, members[1..]);
      } else {
        NoEmptyBin([], pro + (32 - w), members);
      }
    }
  }

  /** The proxy's write calls: most significant bin first. */
  function MarshallProgram(ws: seq<nat>): seq<Stmt>
    requires ValidWidths(ws)
  {
    var bins := ArgWords(ws);
    AtomsValid(ws);
    NoEmptyBin([], 0, Rev(Atoms(ws)));
    if bins == [] then [WriteWord(Zero)] else Rev(Writes(bins))
  }

  /** The handler's reads and assignments, in the same order. */
  function DemarshallProgram(ws: seq<nat>): seq<Stmt>
    requires ValidWidths(ws)
  {
    var bins := ArgWords(ws);
    if bins == [] then [ReadWord] else Join(Rev(Reads(bins)))
  }

  // ----- Marshalling is bit concatenation -----

  function Words(bins: seq<seq<Piece>>, vals: seq<Bits>): (r: seq<Bits>)
    requires GoodBins(bins, vals)
    ensures |r| == |bins|
  {
    if bins == [] then [] else [Word(bins[0], vals)] + Words(bins[1..], vals)
  }

  lemma {:induction false} ExecWrites(bins: seq<seq<Piece>>, vals: seq<Bits>, m: Machine)
    requires GoodBins(bins, vals) && [] !in bins && m.env == vals
    ensures Exec(Rev(Writes(bins)), m) == Some(m.(output := m.output + Rev(Words(bins, vals))))
    decreases |bins|
  {
    if bins != [] {
      var st, out := WriteWord(MarshallExpr(bins[0])), Rev(Words(bins[1..], vals));
      ExecWrites(bins[1..], vals, m);
      RevCons(st, Writes(bins[1..]));
      RevCons(Word(bins[0], vals), Words(bins[1..], vals));
      ExecConcat(Rev(Writes(bins[1..])), [st], m);
      ExecWrite(bins[0], vals, m.(output := m.output + out));
      ConcatAssociative(m.output, out, [Word(bins[0], vals)]);
    } else {
      assert m.output + [] == m.output;
    }
  }

  lemma {:induction false} ExecWrite(s: seq<Piece>, vals: seq<Bits>, m: Machine)
    requires GoodBin(s, vals) && m.env == vals
    ensures Exec([WriteWord(MarshallExpr(s))], m) == Some(m.(output := m.output + [Word(s, vals)]))
  {
    MarshallValue(s, vals, m.tmp);
    ExecOne(WriteWord(MarshallExpr(s)), m);
    var v := Eval(MarshallExpr(s), vals, m.tmp).value;
    assert Resize(v, 32) == v[..32];
  }

  /** Words read in order, each from its most significant bit down. */
  function MsbFirst(words: seq<Bits>): Bits {
    if words == [] then [] else MsbFirst(Front(words)) + Rev(Last(words))
  }

  /** The arguments one after the other in declaration order, each from its most significant bit down. */
  function ArgsMsbFirst(atoms: seq<Member>, vals: seq<Bits>): Bits
    requires ValidMembers(atoms) && ValidValues(atoms, vals)
  {
    if atoms == [] then []
    else ArgsMsbFirst(Front(atoms), vals) + Rev(vals[Last(atoms).name][..Last(atoms).width])
  }

  lemma {:induction false} ValidReversed(atoms: seq<Member>, vals: seq<Bits>)
    requires ValidMembers(atoms) && ValidValues(atoms, vals)
    ensures ValidMembers(Rev(atoms)) && ValidValues(Rev(atoms), vals)
  {
    forall i | 0 <= i < |atoms|
      ensures Rev(atoms)[i] == atoms[|atoms| - 1 - i]
    {
      RevAt(atoms, i);
    }
  }

  lemma {:induction false} MemberBitsReversed(atoms: seq<Member>, vals: seq<Bits>)
    requires ValidMembers(atoms) && ValidValues(atoms, vals)
    ensures ValidMembers(Rev(atoms)) && ValidValues(Rev(atoms), vals)
    ensures Rev(MemberBits(Rev(atoms), vals)) == ArgsMsbFirst(atoms, vals)
    decreases |atoms|
  {
    ValidReversed(atoms, vals);
    if atoms != [] {
      MemberBitsReversed(Front(atoms), vals);
      assert Rev(atoms)[1..] == Rev(Front(atoms));
      RevConcat(vals[Last(atoms).name][..Last(atoms).width], MemberBits(Rev(Front(atoms)), vals));
    }
  }

  /** Zero bits above the top argument. */
  function Padding(bins: seq<seq<Piece>>): int {
    if bins == [] then 0 else 32 - BinWidth(Last(bins))
  }

  lemma {:induction false} WordMsbFirst(s: seq<Piece>, vals: seq<Bits>)
    requires GoodBin(s, vals)
    ensures Rev(Word(s, vals)) == Zeros(32 - BinWidth(s)) + Rev(BinBits(s, vals))
  {
    RevConcat(BinBits(s, vals), Zeros(32 - BinWidth(s)));
    RevZeros(32 - BinWidth(s));
  }

  lemma {:induction false} MsbFirstCons(w: Bits, rest: seq<Bits>)
    ensures MsbFirst(Rev([w] + rest)) == MsbFirst(Rev(rest)) + Rev(w)
  {
    RevCons(w, rest);
    assert Front(Rev(rest) + [w]) == Rev(rest);
  }

  lemma {:induction false} WordsUnfold(s: seq<Piece>, rest: seq<seq<Piece>>, vals: seq<Bits>)
    requires GoodBins([s] + rest, vals)
    ensures GoodBins(rest, vals)
    ensures MsbFirst(Rev(Words([s] + rest, vals)))
            == MsbFirst(Rev(Words(rest, vals))) + (Zeros(32 - BinWidth(s)) + Rev(BinBits(s, vals)))
    ensures Rev(AllBits([s] + rest, vals)) == Rev(AllBits(rest, vals)) + Rev(BinBits(s, vals))
  {
    assert ([s] + rest)[1..] == rest && ([s] + rest)[0] == s;
    forall i | 0 <= i < |rest|
      ensures GoodBin(rest[i], vals) && (i < |rest| - 1 ==> BinWidth(rest[i]) == 32)
    {
      assert ([s] + rest)[i + 1] == rest[i];
    }
    WordMsbFirst(s, vals);
    MsbFirstCons(Word(s, vals), Words(rest, vals));
    RevConcat(BinBits(s, vals), AllBits(rest, vals));
  }

  /** The words, last one most significant, are the packed bits under some zeros. */
  lemma {:induction false} WordsAreBits(bins: seq<seq<Piece>>, vals: seq<Bits>)
    requires GoodBins(bins, vals)
    ensures 0 <= Padding(bins) < 32
    ensures MsbFirst(Rev(Words(bins, vals))) == Zeros(Padding(bins)) + Rev(AllBits(bins, vals))
    ensures |AllBits(bins, vals)| + Padding(bins) == 32 * |bins|
    decreases |bins|
  {
    if bins != [] {
      var s, rest := bins[0], bins[1..];
      assert bins == [s] + rest;
      WordsUnfold(s, rest, vals);
      WordsAreBits(rest, vals);
      var top, low := Rev(AllBits(rest, vals)), Rev(BinBits(s, vals));
      if rest == [] {
        assert top == [] && [] + low == low;
      } else {
        assert Last(bins) == Last(rest);
        assert Zeros(0) + low == low;
        ConcatAssociative(Zeros(Padding(bins)), top, low);
      }
    }
  }

  lemma {:induction false} RevZeros(n: nat)
    ensures Rev(Zeros(n)) == Zeros(n)
  {
    forall i | 0 <= i < n
      ensures !Rev(Zeros(n))[i]
    {
      RevAt(Zeros(n), i);
    }
  }

  /** Total bits of a method's arguments. */
  function TotalBits(ws: seq<nat>): nat {
    if ws == [] then 0 else TotalBits(Front(ws)) + Last(ws)
  }

  lemma {:induction false} ArgsLength(ws: seq<nat>, k: nat, vals: seq<Bits>)
    requires ValidWidths(ws) && ValidArgs(ws, vals) && k <= |ws|
    ensures ValidMembers(Atoms(ws)[..k]) && ValidValues(Atoms(ws)[..k], vals)
    ensures |ArgsMsbFirst(Atoms(ws)[..k], vals)| == TotalBits(ws[..k])
    decreases k
  {
    if k > 0 {
      ArgsLength(ws, k - 1, vals);
      assert Front(Atoms(ws)[..k]) == Atoms(ws)[..k - 1] && Front(ws[..k]) == ws[..k - 1];
    }
  }

  /** The bins of a method hold its arguments, read from the last one's least significant bit up. */
  lemma {:induction false} ArgWordsHoldArgs(ws: seq<nat>, vals: seq<Bits>)
    requires ValidWidths(ws) && ValidArgs(ws, vals)
    ensures GoodBins(ArgWords(ws), vals)
    ensures ValidMembers(Atoms(ws)) && ValidValues(Atoms(ws), vals)
    ensures Rev(AllBits(ArgWords(ws), vals)) == ArgsMsbFirst(Atoms(ws), vals)
    ensures |AllBits(ArgWords(ws), vals)| == TotalBits(ws)
  {
    var atoms := Atoms(ws);
    AtomsValid(ws);
    MemberBitsReversed(atoms, vals);
    AccumKeepsBits([], 0, Rev(atoms), vals);
    RemainingWhole(Rev(atoms), vals);
    assert BinBits([], vals) + MemberBits(Rev(atoms), vals) == MemberBits(Rev(atoms), vals);
    ArgsLength(ws, |ws|, vals);
    assert atoms[..|ws|] == atoms && ws[..|ws|] == ws;
  }

  /** Every bin but the last is exactly 32 bits, and their number is the total width over 32, rounded up. */
  lemma {:induction false} BinCount(ws: seq<nat>)
    requires ValidWidths(ws)
    ensures |ArgWords(ws)| == (TotalBits(ws) + 31) / 32
    ensures forall k :: 0 <= k < |ArgWords(ws)| - 1 ==> BinWidth(ArgWords(ws)[k]) == 32
  {
    var vals := seq(|ws|, i requires 0 <= i < |ws| => Zeros(TypeBits(ws[i])));
    ArgWordsHoldArgs(ws, vals);
    WordsAreBits(ArgWords(ws), vals);
  }

  lemma {:induction false} ExecMarshall(ws: seq<nat>, vals: seq<Bits>, m: Machine)
    requires ValidWidths(ws) && ValidArgs(ws, vals) && ws != []
    requires m.env == vals && m.output == []
    ensures GoodBins(ArgWords(ws), vals)
    ensures Exec(MarshallProgram(ws), m) == Some(m.(output := Rev(Words(ArgWords(ws), vals))))
  {
    var bins := ArgWords(ws);
    ArgWordsHoldArgs(ws, vals);
    assert TotalBits(ws) >= Last(ws) >= 1;
    AtomsValid(ws);
    NoEmptyBin([], 0, Rev(Atoms(ws)));
    ExecWrites(bins, vals, m);
    assert [] + Rev(Words(bins, vals)) == Rev(Words(bins, vals));
  }

  /** Running the proxy's code: it is defined, and the words it writes, read most significant bit
      first, are the arguments in declaration order, first argument most significant, under fewer
      than 32 zero bits. */
  lemma {:induction false} MarshallIsConcatenation(ws: seq<nat>, vals: seq<Bits>, m: Machine)
    requires ValidWidths(ws) && ValidArgs(ws, vals) && ws != []
    requires m.env == vals && m.output == []
    ensures Exec(MarshallProgram(ws), m).Some?
    ensures ValidMembers(Atoms(ws)) && ValidValues(Atoms(ws), vals)
    ensures var out := Exec(MarshallProgram(ws), m).value.output; var pad := 32 * |out| - TotalBits(ws);
            0 <= pad < 32 && MsbFirst(out) == Zeros(pad) + ArgsMsbFirst(Atoms(ws), vals)
  {
    ExecMarshall(ws, vals, m);
    ArgWordsHoldArgs(ws, vals);
    WordsAreBits(ArgWords(ws), vals);
  }

  /** A method without arguments still writes one zero word. */
  lemma {:induction false} MarshallNothing(m: Machine)
    ensures ArgWords([]) == []
    ensures Exec(MarshallProgram([]), m) == Some(m.(output := m.output + [Zeros(32)]))
  {
    ExecOne(WriteWord(Zero), m);
    assert Resize(Zeros(32), 32) == Zeros(32);
  }

  // ----- gatherMethodInfo and generate_class -----

  method GatherMethodInfo(ws: seq<nat>) returns (marshall: seq<Stmt>, demarshall: seq<Stmt>, wordLen: nat)
    requires ValidWidths(ws)
    ensures marshall == MarshallProgram(ws) && demarshall == DemarshallProgram(ws)
    ensures wordLen == |ArgWords(ws)| == (TotalBits(ws) + 31) / 32
  {
    var argWords := ArgWords(ws);
    BinCount(ws);
    AtomsValid(ws);
    NoEmptyBin([], 0, Rev(Atoms(ws)));
    wordLen := |argWords|;
    if argWords == [] {
      return [WriteWord(Zero)], [ReadWord], wordLen;
    }
    var encodes: seq<Stmt>, decodes: seq<seq<Stmt>> := [], [];
    assert argWords[|argWords|..] == [];
    for k := |argWords| downto 0
      invariant [] !in argWords[k..]
      invariant encodes == Writes(argWords[k..])
      invariant decodes == Reads(argWords[k..])
    {
      var w := GenerateMarshall(argWords[k]);
      var r := GenerateDemarshall(argWords[k]);
      assert argWords[k..][1..] == argWords[k + 1..];
      encodes, decodes := [w] + encodes, [r] + decodes;
    }
    assert argWords[0..] == argWords;
    return Rev(encodes), Join(Rev(decodes)), wordLen;
  }

  /** generate_class: the request size is that of the largest method, header included. */
  method RequestSize(methods: seq<seq<nat>>) returns (reqsize: nat)
    requires forall k :: 0 <= k < |methods| ==> ValidWidths(methods[k])
    ensures reqsize % 4 == 0
    ensures forall k :: 0 <= k < |methods| ==> |ArgWords(methods[k])| + 1 <= reqsize / 4
    ensures reqsize == 4 || exists k :: 0 <= k < |methods| && |ArgWords(methods[k])| + 1 == reqsize / 4
  {
    var maxSize := 0;
    for k := 0 to |methods|
      invariant forall i :: 0 <= i < k ==> |ArgWords(methods[i])| <= maxSize
      invariant maxSize == 0 || exists i :: 0 <= i < k && |ArgWords(methods[i])| == maxSize
    {
      var _, _, t := GatherMethodInfo(methods[k]);
      if t > maxSize {
        maxSize := t;
      }
    }
    reqsize := (maxSize + 1) * 4;
  }
}
