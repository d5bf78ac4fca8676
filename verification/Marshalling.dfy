/**
 The code that scripts/cppgen.py emits around the bins: generate_marshall, generate_demarshall and
 gatherMethodInfo. Emitted C is an abstract syntax tree; its evaluator works on unsigned 32- and
 64-bit integers and fails where C leaves a shift undefined.
 */
module Marshalling {
  import opened Options
  import opened Bits
  import opened Sequences
  import opened Packing

  // ----- The emitted language -----

  datatype Expr =
    | Var(name: nat)
    | Tmp
    | Zero
    | Shr(e: Expr, n: int)
    | Shl(e: Expr, n: int)
    | Or(l: Expr, r: Expr)
    | And(e: Expr, ones: int)
    | Cast(e: Expr, bits: nat)

  datatype Stmt =
    | WriteWord(e: Expr)
    | ReadWord
    | Assign(name: nat, op: AssignOp, e: Expr)

  /** Variables, the scratch word `tmp`, the words still to be read and the words written. */
  datatype Machine = Machine(env: seq<Bits>, tmp: Bits, input: seq<Bits>, output: seq<Bits>)

  function Eval(e: Expr, env: seq<Bits>, tmp: Bits): Option<Bits> {
    match e
    case Var(name) => if name < |env| then Some(env[name]) else None
    case Tmp => Some(tmp)
    case Zero => Some(Zeros(32))
    case Shr(x, n) =>
      var v := Eval(x, env, tmp);
      if v.Some? && 0 <= n < |v.value| then Some(ShiftRight(v.value, n)) else None
    case Shl(x, n) =>
      var v := Eval(x, env, tmp);
      if v.Some? && 0 <= n < |v.value| then Some(ShiftLeft(v.value, n)) else None
    case Or(l, r) =>
      var v, u := Eval(l, env, tmp), Eval(r, env, tmp);
      if v.Some? && u.Some? then Some(BitOr(v.value, u.value)) else None
    case And(x, ones) =>
      var v := Eval(x, env, tmp);
      if v.Some? && |v.value| <= 64 && 0 <= ones <= 64 then Some(MaskLow(v.value, ones)) else None
    case Cast(x, bits) =>
      var v := Eval(x, env, tmp);
      if v.Some? then Some(Resize(v.value, bits)) else None
  }

  function ExecStmt(s: Stmt, m: Machine): Option<Machine> {
    match s
    case WriteWord(e) =>
      var v := Eval(e, m.env, m.tmp);
      if v.Some? then Some(m.(output := m.output + [Resize(v.value, 32)])) else None
    case ReadWord =>
      if m.input != [] then Some(m.(tmp := m.input[0], input := m.input[1..])) else None
    case Assign(name, op, e) =>
      var v := Eval(e, m.env, m.tmp);
      if v.None? || name >= |m.env| then None
      else if op.Set? then Some(m.(env := m.env[name := v.value]))
      else Some(m.(env := m.env[name := BitOr(m.env[name], v.value)]))
  }

  function Exec(p: seq<Stmt>, m: Machine): Option<Machine> {
    if p == [] then Some(m)
    else
      var m' := ExecStmt(p[0], m);
      if m'.None? then None else Exec(p[1..], m'.value)
  }

  lemma {:induction false} ExecConcat(p: seq<Stmt>, q: seq<Stmt>, m: Machine)
    ensures Exec(p + q, m) == if Exec(p, m).None? then None else Exec(q, Exec(p, m).value)
    decreases |p|
  {
    if p == [] {
      assert p + q == q;
    } else {
      assert (p + q)[1..] == p[1..] + q;
      var m' := ExecStmt(p[0], m);
      if m'.Some? {
        ExecConcat(p[1..], q, m'.value);
      }
    }
  }

  lemma {:induction false} ExecOne(s: Stmt, m: Machine)
    ensures Exec([s], m) == ExecStmt(s, m)
  {
    assert [s][1..] == [];
  }

  // ----- generate_marshall -----

  function MarshallTerm(e: Piece, off: int): Expr {
    var f := if e.shifted != 0 then Shr(Var(e.name), e.shifted) else Var(e.name);
    if off != 0 then Shl(f, off) else f
  }

  /** The pieces of a bin, shifted into place and joined by `|`. */
  function MarshallExpr(w: seq<Piece>): Expr
    requires w != []
  {
    if |w| == 1 then MarshallTerm(w[0], 0)
    else Or(MarshallExpr(Front(w)), MarshallTerm(Last(w), BinWidth(Front(w))))
  }

  method GenerateMarshall(w: seq<Piece>) returns (s: Stmt)
    requires w != []
    ensures s == WriteWord(MarshallExpr(w))
  {
    var off: int := w[0].width - w[0].shifted;
    var word := MarshallTerm(w[0], 0);
    assert w[..1] == [w[0]] && Front([w[0]]) == [];
    for k := 1 to |w|
      invariant off == BinWidth(w[..k])
      invariant word == MarshallExpr(w[..k])
    {
      assert Front(w[..k + 1]) == w[..k];
      word := Or(word, MarshallTerm(w[k], off));
      off := off + w[k].width - w[k].shifted;
    }
    assert w[..|w|] == w;
    return WriteWord(word);
  }

  // ----- generate_demarshall -----

  /** The masked field of the word, before it is moved into place. */
  function FieldExpr(e: Piece, off: int): Expr {
    And(if off != 0 then Shr(Tmp, off) else Tmp, e.aw - e.shifted)
  }

  function DemarshallField(e: Piece, off: int): Expr {
    if e.shifted != 0 then Shl(Cast(FieldExpr(e, off), TypeBits(e.aw)), e.shifted) else FieldExpr(e, off)
  }

  function DemarshallAssign(e: Piece, off: int): Stmt {
    Assign(e.name, e.op, Cast(DemarshallField(e, off), TypeBits(e.aw)))
  }

  function DemarshallAssigns(w: seq<Piece>): seq<Stmt> {
    if w == [] then []
    else DemarshallAssigns(Front(w)) + [DemarshallAssign(Last(w), BinWidth(Front(w)))]
  }

  method GenerateDemarshall(w: seq<Piece>) returns (p: seq<Stmt>)
    ensures p == [ReadWord] + DemarshallAssigns(w)
  {
    var off := 0;
    p := [ReadWord];
    for k := 0 to |w|
      invariant off == BinWidth(w[..k])
      invariant p == [ReadWord] + DemarshallAssigns(w[..k])
    {
      assert Front(w[..k + 1]) == w[..k];
      p := p + [DemarshallAssign(w[k], off)];
      off := off + w[k].width - w[k].shifted;
    }
    assert w[..|w|] == w;
  }

  // ----- A bin's word -----

  /** The bits of a bin, zero-extended to 32. */
  function Word(s: seq<Piece>, vals: seq<Bits>): (r: Bits)
    requires GoodBin(s, vals)
    ensures |r| == 32
  {
    BinBits(s, vals) + Zeros(32 - BinWidth(s))
  }

  lemma {:induction false} TermEval(e: Piece, off: nat, vals: seq<Bits>, tmp: Bits)
    requires PieceOk(e, vals) && off < 32
    ensures var v := Eval(MarshallTerm(e, off), vals, tmp);
            && v.Some? && |v.value| == |vals[e.name]|
            && forall i :: 0 <= i < |v.value| ==> v.value[i] == (off <= i && Bit(vals[e.name], i - off + e.shifted))
  {
    var v := vals[e.name];
    var f := if e.shifted != 0 then Shr(Var(e.name), e.shifted) else Var(e.name);
    assert Eval(Var(e.name), vals, tmp) == Some(v);
    var x := if e.shifted != 0 then ShiftRight(v, e.shifted) else v;
    assert Eval(f, vals, tmp) == Some(x);
    assert off != 0 ==> Eval(Shl(f, off), vals, tmp) == Some(ShiftLeft(x, off));
  }

  lemma {:induction false} ShiftedLow(v: Bits, y: Bits, lo: nat, hi: nat, off: nat)
    requires lo < hi <= |v| && |y| >= 32 && off + hi - lo <= 32
    requires forall i :: 0 <= i < 32 ==> y[i] == (off <= i && Bit(v, i - off + lo))
    requires off + hi - lo < 32 ==> forall i :: hi <= i < |v| ==> !v[i]
    ensures y[..32] == Zeros(off) + v[lo..hi] + Zeros(32 - off - (hi - lo))
  {
    var r := Zeros(off) + v[lo..hi] + Zeros(32 - off - (hi - lo));
    forall i | 0 <= i < 32
      ensures y[i] == r[i]
    {
      if off <= i < off + hi - lo {
        assert r[i] == v[lo..hi][i - off];
      }
    }
  }

  /** A piece shifted into place, seen in the low 32 bits. */
  lemma {:induction false} TermValue(e: Piece, off: nat, vals: seq<Bits>, tmp: Bits)
    requires PieceOk(e, vals)
    requires off < 32 && off + e.width - e.shifted <= 32
    requires e.width == e.aw || off + e.width - e.shifted == 32
    ensures var v := Eval(MarshallTerm(e, off), vals, tmp);
            && v.Some? && 32 <= |v.value| <= 64
            && v.value[..32] == Zeros(off) + PieceBits(e, vals) + Zeros(32 - off - (e.width - e.shifted))
  {
    TermEval(e, off, vals, tmp);
    ShiftedLow(vals[e.name], Eval(MarshallTerm(e, off), vals, tmp).value, e.shifted, e.width, off);
  }

  lemma {:induction false} OrDisjoint(x: Bits, y: Bits, b: Bits, p: Bits)
    requires 32 <= |x| <= 64 && 32 <= |y| <= 64 && |b| + |p| <= 32
    requires x[..32] == b + Zeros(32 - |b|)
    requires y[..32] == Zeros(|b|) + p + Zeros(32 - |b| - |p|)
    ensures 32 <= |BitOr(x, y)| <= 64
    ensures BitOr(x, y)[..32] == b + p + Zeros(32 - |b| - |p|)
  {
    assert forall i :: 0 <= i < 32 ==> BitOr(x, y)[i] == (x[..32][i] || y[..32][i]);
  }

  /** The expression generate_marshall builds for a bin is defined and evaluates to the bin's word. */
  lemma {:induction false} MarshallValue(s: seq<Piece>, vals: seq<Bits>, tmp: Bits)
    requires GoodBin(s, vals)
    ensures var v := Eval(MarshallExpr(s), vals, tmp);
            v.Some? && 32 <= |v.value| <= 64 && v.value[..32] == Word(s, vals)
    decreases |s|
  {
    if |s| == 1 {
      assert Front(s) == [];
      TermValue(s[0], 0, vals, tmp);
    } else {
      GoodFront(s, vals);
      MarshallValue(Front(s), vals, tmp);
      var off := BinWidth(Front(s));
      TermValue(Last(s), off, vals, tmp);
      OrDisjoint(Eval(MarshallExpr(Front(s)), vals, tmp).value, Eval(MarshallTerm(Last(s), off), vals, tmp).value,
                 BinBits(Front(s), vals), PieceBits(Last(s), vals));
    }
  }

  lemma {:induction false} GoodFront(s: seq<Piece>, vals: seq<Bits>)
    requires GoodBin(s, vals) && |s| > 1
    ensures GoodBin(Front(s), vals) && BinWidth(Front(s)) < 32
  {
    WidthNonNegative(Front(s), vals);
    assert PieceOk(Last(s), vals);
  }

  // ----- Taking a bin apart -----

  /** The variable holds bits `lo..hi` of `v`, in place, and zeros elsewhere. */
  function Placed(v: Bits, lo: nat, hi: nat): (r: Bits)
    requires lo <= hi <= |v|
    ensures |r| == |v|
  {
    Zeros(lo) + v[lo..hi] + Zeros(|v| - hi)
  }

  /** The word in `tmp` shows the piece `e` at offset `off`; nothing lies above an unfinished piece. */
  predicate Shows(word: Bits, e: Piece, off: nat, vals: seq<Bits>)
    requires PieceOk(e, vals)
  {
    && |word| == 32 && off < 32 && off + e.width - e.shifted <= 32
    && (e.width == e.aw || off + e.width - e.shifted == 32)
    && word[off..off + e.width - e.shifted] == PieceBits(e, vals)
  }

  lemma {:induction false} FieldEval(e: Piece, off: nat, vals: seq<Bits>, env: seq<Bits>, word: Bits) returns (x: Bits)
    requires PieceOk(e, vals) && Shows(word, e, off, vals)
    ensures Eval(FieldExpr(e, off), env, word) == Some(x)
    ensures |x| == 64 && forall i :: 0 <= i < 64 ==> x[i] == (i < e.aw - e.shifted && Bit(word, i + off))
  {
    var y := if off != 0 then ShiftRight(word, off) else word;
    assert Eval(Tmp, env, word) == Some(word);
    assert Eval(if off != 0 then Shr(Tmp, off) else Tmp, env, word) == Some(y);
    x := MaskLow(y, e.aw - e.shifted);
    assert forall i :: 0 <= i < 64 ==> Bit(y, i) == Bit(word, i + off);
  }

  /** A field moved up by `n`, in a variable of `bits` bits. */
  function MovedUp(x: Bits, n: nat, bits: nat): (r: Bits)
    requires n < bits
    ensures |r| == bits
  {
    if n != 0 then Resize(ShiftLeft(Resize(x, bits), n), bits) else Resize(x, bits)
  }

  /** The conversions around the shift lose no bit. */
  lemma {:induction false} MovedUpBits(x: Bits, word: Bits, n: nat, off: nat, shifted: nat, bits: nat)
    requires shifted < bits <= |x| == 64
    requires forall i :: 0 <= i < 64 ==> x[i] == (i < n && Bit(word, i + off))
    ensures forall i :: 0 <= i < bits ==>
              MovedUp(x, shifted, bits)[i] == (shifted <= i && i - shifted < n && Bit(word, i - shifted + off))
  {
    forall i | 0 <= i < bits
      ensures MovedUp(x, shifted, bits)[i] == (shifted <= i && i - shifted < n && Bit(word, i - shifted + off))
    {
      assert MovedUp(x, shifted, bits)[i] == Bit(x, i - shifted);
    }
  }

  lemma {:induction false} AssignSteps(e: Piece, off: nat, env: seq<Bits>, word: Bits, x: Bits)
    requires 0 <= e.shifted < TypeBits(e.aw) && Eval(FieldExpr(e, off), env, word) == Some(x)
    ensures Eval(DemarshallAssign(e, off).e, env, word) == Some(MovedUp(x, e.shifted, TypeBits(e.aw)))
  {
    var field, bits := FieldExpr(e, off), TypeBits(e.aw);
    if e.shifted != 0 {
      assert Eval(Cast(field, bits), env, word) == Some(Resize(x, bits));
      assert Eval(Shl(Cast(field, bits), e.shifted), env, word) == Some(ShiftLeft(Resize(x, bits), e.shifted));
    }
  }

  /** The emitted right-hand side is defined and puts the piece back in its place, although its mask
      covers all the bits of the argument from `shifted` up. */
  lemma {:induction false} AssignValue(e: Piece, off: nat, vals: seq<Bits>, env: seq<Bits>, word: Bits)
    requires PieceOk(e, vals) && Shows(word, e, off, vals)
    ensures Eval(DemarshallAssign(e, off).e, env, word) == Some(Placed(vals[e.name], e.shifted, e.width))
  {
    var x := FieldEval(e, off, vals, env, word);
    AssignSteps(e, off, env, word, x);
    MovedUpIsPlaced(x, e, off, vals, word);
  }

  lemma {:induction false} MovedUpIsPlaced(x: Bits, e: Piece, off: nat, vals: seq<Bits>, word: Bits)
    requires PieceOk(e, vals) && Shows(word, e, off, vals) && |x| == 64
    requires forall i :: 0 <= i < 64 ==> x[i] == (i < e.aw - e.shifted && Bit(word, i + off))
    ensures MovedUp(x, e.shifted, TypeBits(e.aw)) == Placed(vals[e.name], e.shifted, e.width)
  {
    var r, v := MovedUp(x, e.shifted, TypeBits(e.aw)), vals[e.name];
    MovedUpBits(x, word, e.aw - e.shifted, off, e.shifted, TypeBits(e.aw));
    forall i | 0 <= i < |r|
      ensures r[i] == Placed(v, e.shifted, e.width)[i]
    {
      if e.shifted <= i < e.width {
        assert word[off..off + e.width - e.shifted][i - e.shifted] == v[i];
      }
    }
  }

  /** The effect of a piece's assignment on its variable. */
  function Applied(e: Piece, vals: seq<Bits>, before: Bits): Bits
    requires PieceOk(e, vals)
  {
    var x := Placed(vals[e.name], e.shifted, e.width);
    if e.op.Set? then x else BitOr(before, x)
  }

  function ApplyAll(s: seq<Piece>, vals: seq<Bits>, env: seq<Bits>): (r: seq<Bits>)
    requires PiecesOk(s, vals) && |env| == |vals|
    ensures |r| == |env|
  {
    if s == [] then env
    else
      var before := ApplyAll(Front(s), vals, env);
      var e := Last(s);
      before[e.name := Applied(e, vals, before[e.name])]
  }

  lemma {:induction false} SliceOfPrefix(x: Bits, y: Bits, off: nat, n: nat)
    requires off + n <= |x|
    ensures (x + y)[off..off + n] == x[off..off + n]
  {
  }

  lemma {:induction false} BinBitsAt(s: seq<Piece>, vals: seq<Bits>, k: nat)
    requires PiecesOk(s, vals) && k < |s|
    ensures 0 <= BinWidth(s[..k])
    ensures var off := BinWidth(s[..k]); var n := s[k].width - s[k].shifted;
            off + n <= BinWidth(s) && BinBits(s, vals)[off..off + n] == PieceBits(s[k], vals)
            && (k < |s| - 1 ==> off + n < BinWidth(s)) && (k == |s| - 1 ==> off + n == BinWidth(s))
    decreases |s|
  {
    WidthNonNegative(s[..k], vals);
    WidthNonNegative(Front(s), vals);
    if k == |s| - 1 {
      assert s[..k] == Front(s);
    } else {
      BinBitsAt(Front(s), vals, k);
      assert Front(s)[..k] == s[..k];
      SliceOfPrefix(BinBits(Front(s), vals), PieceBits(Last(s), vals), BinWidth(s[..k]), s[k].width - s[k].shifted);
    }
  }

  /** A bin's word shows each of its pieces. */
  lemma {:induction false} WordShows(s: seq<Piece>, vals: seq<Bits>, k: nat)
    requires GoodBin(s, vals) && k < |s|
    ensures 0 <= BinWidth(s[..k]) && Shows(Word(s, vals), s[k], BinWidth(s[..k]), vals)
  {
    BinBitsAt(s, vals, k);
    var off, n := BinWidth(s[..k]), s[k].width - s[k].shifted;
    assert Word(s, vals)[off..off + n] == BinBits(s, vals)[off..off + n];
  }

  lemma {:induction false} ExecAssign(e: Piece, off: nat, vals: seq<Bits>, m: Machine)
    requires PieceOk(e, vals) && Shows(m.tmp, e, off, vals) && |m.env| == |vals|
    ensures Exec([DemarshallAssign(e, off)], m) == Some(m.(env := m.env[e.name := Applied(e, vals, m.env[e.name])]))
  {
    AssignValue(e, off, vals, m.env, m.tmp);
    ExecOne(DemarshallAssign(e, off), m);
  }

  lemma {:induction false} ExecAssigns(s: seq<Piece>, k: nat, vals: seq<Bits>, m: Machine)
    requires GoodBin(s, vals) && k <= |s| && m.tmp == Word(s, vals) && |m.env| == |vals|
    ensures Exec(DemarshallAssigns(s[..k]), m) == Some(m.(env := ApplyAll(s[..k], vals, m.env)))
    decreases k
  {
    if k > 0 {
      ExecAssigns(s, k - 1, vals, m);
      assert Front(s[..k]) == s[..k - 1];
      WordShows(s, vals, k - 1);
      var off := BinWidth(s[..k - 1]);
      ExecConcat(DemarshallAssigns(s[..k - 1]), [DemarshallAssign(s[k - 1], off)], m);
      ExecAssign(s[k - 1], off, vals, m.(env := ApplyAll(s[..k - 1], vals, m.env)));
    }
  }

  /** The code for one bin, run on its word, applies the bin's pieces. */
  lemma {:induction false} ExecBin(s: seq<Piece>, vals: seq<Bits>, m: Machine)
    requires GoodBin(s, vals) && |m.env| == |vals|
    requires m.input != [] && m.input[0] == Word(s, vals)
    ensures Exec([ReadWord] + DemarshallAssigns(s), m)
            == Some(m.(env := ApplyAll(s, vals, m.env), tmp := Word(s, vals), input := m.input[1..]))
  {
    ExecConcat([ReadWord], DemarshallAssigns(s), m);
    ExecOne(ReadWord, m);
    assert s[..|s|] == s;
    ExecAssigns(s, |s|, vals, m.(tmp := m.input[0], input := m.input[1..]));
  }
}
