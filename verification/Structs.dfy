/**
 Arguments that are structs, scripts/cppgen.py: collectMembers flattens them to their leaves, and the
 packed message is the one Bluespec's own nested packing defines.
 */
module Structs {
  import opened Bits
  import opened Sequences
  import opened Packing
  import opened Marshalling
  import opened MessageCodec

  datatype Type = BitType(width: nat) | StructType(members: seq<Type>)

  datatype Value = BitValue(bits: Bits) | StructValue(values: seq<Value>)

  /** `v` is a value of type `t`, every leaf from 1 to 64 bits wide. */
  predicate HasType(t: Type, v: Value)
    decreases t, 0
  {
    match t
    case BitType(width) => v.BitValue? && 1 <= width <= 64 && InRange(v.bits, width)
    case StructType(members) => v.StructValue? && HaveTypes(members, v.values)
  }

  predicate HaveTypes(ts: seq<Type>, vs: seq<Value>)
    decreases ts
  {
    |ts| == |vs| && (ts == [] || (HasType(ts[0], vs[0]) && HaveTypes(ts[1..], vs[1..])))
  }

  /** Bluespec's pack, most significant bit first: a struct is its members, first member on top. */
  function Pack(t: Type, v: Value): Bits
    requires HasType(t, v)
    decreases t, 0
  {
    match t
    case BitType(width) => Rev(v.bits[..width])
    case StructType(members) => PackAll(members, v.values)
  }

  function PackAll(ts: seq<Type>, vs: seq<Value>): Bits
    requires HaveTypes(ts, vs)
    decreases ts
  {
    if ts == [] then [] else Pack(ts[0], vs[0]) + PackAll(ts[1..], vs[1..])
  }

  /** collectMembers: the widths of the leaves, left to right. */
  function CollectMembers(t: Type): seq<nat>
    decreases t, 0
  {
    match t
    case BitType(width) => [width]
    case StructType(members) => CollectAll(members)
  }

  function CollectAll(ts: seq<Type>): seq<nat>
    decreases ts
  {
    if ts == [] then [] else CollectMembers(ts[0]) + CollectAll(ts[1..])
  }

  function Leaves(t: Type, v: Value): seq<Bits>
    requires HasType(t, v)
    decreases t, 0
  {
    match t
    case BitType(_) => [v.bits]
    case StructType(members) => LeavesAll(members, v.values)
  }

  function LeavesAll(ts: seq<Type>, vs: seq<Value>): seq<Bits>
    requires HaveTypes(ts, vs)
    decreases ts
  {
    if ts == [] then [] else Leaves(ts[0], vs[0]) + LeavesAll(ts[1..], vs[1..])
  }

  /** Flat fields, most significant bit first. */
  function Fields(ws: seq<nat>, vals: seq<Bits>): Bits
    requires ValidArgs(ws, vals) && ValidWidths(ws)
  {
    if ws == [] then [] else Rev(vals[0][..ws[0]]) + Fields(ws[1..], vals[1..])
  }

  lemma {:induction false} FieldsConcat(ws: seq<nat>, vals: seq<Bits>, ws': seq<nat>, vals': seq<Bits>)
    requires ValidArgs(ws, vals) && ValidWidths(ws) && ValidArgs(ws', vals') && ValidWidths(ws')
    ensures ValidArgs(ws + ws', vals + vals') && ValidWidths(ws + ws')
    ensures Fields(ws + ws', vals + vals') == Fields(ws, vals) + Fields(ws', vals')
    decreases |ws|
  {
    if ws == [] {
      assert ws + ws' == ws' && vals + vals' == vals';
    } else {
      assert (ws + ws')[1..] == ws[1..] + ws' && (vals + vals')[1..] == vals[1..] + vals';
      FieldsConcat(ws[1..], vals[1..], ws', vals');
    }
  }

  lemma {:induction false} FlattenPack(t: Type, v: Value)
    requires HasType(t, v)
    ensures ValidArgs(CollectMembers(t), Leaves(t, v)) && ValidWidths(CollectMembers(t))
    ensures Fields(CollectMembers(t), Leaves(t, v)) == Pack(t, v)
    decreases t, 0
  {
    match t
    case BitType(width) =>
      assert Fields([width], [v.bits]) == Rev(v.bits[..width]) + Fields([], []);
    case StructType(members) => FlattenPackAll(members, v.values);
  }

  lemma {:induction false} FlattenPackAll(ts: seq<Type>, vs: seq<Value>)
    requires HaveTypes(ts, vs)
    ensures ValidArgs(CollectAll(ts), LeavesAll(ts, vs)) && ValidWidths(CollectAll(ts))
    ensures Fields(CollectAll(ts), LeavesAll(ts, vs)) == PackAll(ts, vs)
    decreases ts
  {
    if ts != [] {
      FlattenPack(ts[0], vs[0]);
      FlattenPackAll(ts[1..], vs[1..]);
      FieldsConcat(CollectMembers(ts[0]), Leaves(ts[0], vs[0]), CollectAll(ts[1..]), LeavesAll(ts[1..], vs[1..]));
    }
  }

  lemma {:induction false} ArgsAreFields(ws: seq<nat>, vals: seq<Bits>, k: nat)
    requires ValidArgs(ws, vals) && ValidWidths(ws) && k <= |ws|
    ensures ValidMembers(Atoms(ws)[..k]) && ValidValues(Atoms(ws)[..k], vals)
    ensures ArgsMsbFirst(Atoms(ws)[..k], vals) == Fields(ws[..k], vals[..k])
    decreases k
  {
    if k > 0 {
      ArgsAreFields(ws, vals, k - 1);
      assert Front(Atoms(ws)[..k]) == Atoms(ws)[..k - 1];
      assert ws[..k] == ws[..k - 1] + [ws[k - 1]] && vals[..k] == vals[..k - 1] + [vals[k - 1]];
      FieldsConcat(ws[..k - 1], vals[..k - 1], [ws[k - 1]], [vals[k - 1]]);
      assert Fields([ws[k - 1]], [vals[k - 1]]) == Rev(vals[k - 1][..ws[k - 1]]) + Fields([], []);
    }
  }

  /** The flattened arguments, in order, are the nested packing of the parameters. */
  lemma {:induction false} ArgsArePacking(ts: seq<Type>, vs: seq<Value>)
    requires HaveTypes(ts, vs)
    ensures var ws, vals := CollectAll(ts), LeavesAll(ts, vs);
            && ValidWidths(ws) && ValidArgs(ws, vals)
            && ValidMembers(Atoms(ws)) && ValidValues(Atoms(ws), vals)
            && ArgsMsbFirst(Atoms(ws), vals) == PackAll(ts, vs)
            && |PackAll(ts, vs)| == TotalBits(ws)
  {
    var ws, vals := CollectAll(ts), LeavesAll(ts, vs);
    FlattenPackAll(ts, vs);
    ArgsAreFields(ws, vals, |ws|);
    ArgsLength(ws, |ws|, vals);
    assert Atoms(ws)[..|ws|] == Atoms(ws) && ws[..|ws|] == ws && vals[..|ws|] == vals;
  }

  /** The words a proxy writes are Bluespec's packing of its parameters, under fewer than 32 zero bits. */
  lemma {:induction false} MessageIsBluespecPacking(ts: seq<Type>, vs: seq<Value>, m: Machine)
    requires HaveTypes(ts, vs) && CollectAll(ts) != []
    requires m.env == LeavesAll(ts, vs) && m.output == []
    ensures ValidWidths(CollectAll(ts)) && Exec(MarshallProgram(CollectAll(ts)), m).Some?
    ensures var out := Exec(MarshallProgram(CollectAll(ts)), m).value.output; var pad := 32 * |out| - |PackAll(ts, vs)|;
            0 <= pad < 32 && MsbFirst(out) == Zeros(pad) + PackAll(ts, vs)
  {
    ArgsArePacking(ts, vs);
    MarshallIsConcatenation(CollectAll(ts), LeavesAll(ts, vs), m);
  }
}
