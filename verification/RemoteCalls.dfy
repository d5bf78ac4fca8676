/**
 The whole path of a request: a generated proxy (scripts/cppgen.py) marshals the arguments of a call, the shared
 ring (cpp/portalShared.c) carries the words, and the generated handler takes them apart again.
 */
module RemoteCalls {
  import opened Options
  import opened Bits
  import opened Sequences
  import opened Packing
  import opened Marshalling
  import opened MessageCodec
  import opened RoundTrip
  import Ring = SharedRing

  // ----- Words as numbers -----

  function ToNat(x: Bits): nat {
    if x == [] then 0 else (if x[0] then 1 else 0) + 2 * ToNat(x[1..])
  }

  function FromNat(n: nat, bits: nat): (x: Bits)
    ensures |x| == bits
  {
    if bits == 0 then [] else [n % 2 == 1] + FromNat(n / 2, bits - 1)
  }

  lemma {:induction false} Halve(bit: nat, k: nat)
    requires bit <= 1
    ensures (bit + 2 * k) % 2 == bit && (bit + 2 * k) / 2 == k
  {
  }

  lemma {:induction false} WordRoundTrip(x: Bits)
    ensures FromNat(ToNat(x), |x|) == x
  {
    if x != [] {
      WordRoundTrip(x[1..]);
      Halve(if x[0] then 1 else 0, ToNat(x[1..]));
      assert x == [x[0]] + x[1..];
    }
  }

  function Numbers(words: seq<Bits>): seq<nat> {
    seq(|words|, i requires 0 <= i < |words| => ToNat(words[i]))
  }

  function WordsOf(numbers: seq<nat>): seq<Bits> {
    seq(|numbers|, i requires 0 <= i < |numbers| => FromNat(numbers[i], 32))
  }

  lemma {:induction false} WordsRoundTrip(words: seq<Bits>)
    requires forall i :: 0 <= i < |words| ==> |words[i]| == 32
    ensures WordsOf(Numbers(words)) == words
  {
    forall i | 0 <= i < |words|
      ensures WordsOf(Numbers(words))[i] == words[i]
    {
      WordRoundTrip(words[i]);
    }
  }

  // ----- Calls and messages -----

  /** The methods of an interface, each with the widths of its flattened arguments; a call of one of them. */
  type Interface = seq<seq<nat>>

  datatype Call = Call(channel: nat, args: seq<Bits>)

  predicate ValidInterface(methods: Interface) {
    |methods| <= 0xffff && forall k :: 0 <= k < |methods| ==> ValidWidths(methods[k])
  }

  predicate ValidCall(methods: Interface, call: Call)
    requires ValidInterface(methods)
  {
    call.channel < |methods| && ValidArgs(methods[call.channel], call.args)
  }

  /** The machine on which a proxy or a handler starts. */
  function Start(env: seq<Bits>, input: seq<Bits>): Machine {
    Machine(env, Zeros(32), input, [])
  }

  /** What the proxy of a method writes. */
  function ProxyWords(ws: seq<nat>, args: seq<Bits>): seq<Bits>
    requires ValidWidths(ws)
  {
    match Exec(MarshallProgram(ws), Start(args, []))
    case None => []
    case Some(m) => m.output
  }

  /** The message a call becomes: its header counts one word per bin, so the zero word of a method without
      arguments is not part of it. */
  function Encode(methods: Interface, call: Call): Ring.Msg
    requires ValidInterface(methods) && ValidCall(methods, call)
  {
    var ws := methods[call.channel];
    Ring.Msg(call.channel, if ws == [] then [] else Numbers(ProxyWords(ws, call.args)))
  }

  /** What the handler makes of the words it reads, starting with what its variables hold. */
  function DecodeWords(methods: Interface, channel: nat, env: seq<Bits>, words: seq<Bits>): Option<Call>
    requires ValidInterface(methods)
  {
    if channel >= |methods| then None
    else
      match Exec(DemarshallProgram(methods[channel]), Start(env, words))
      case None => None
      case Some(r) => Some(Call(channel, r.env))
  }

  /** What the handler makes of a message that is followed by `tail`. */
  function Decode(methods: Interface, m: Ring.Msg, env: seq<Bits>, tail: seq<Bits>): Option<Call>
    requires ValidInterface(methods)
  {
    DecodeWords(methods, m.channel, env, WordsOf(m.payload) + tail)
  }

  lemma {:induction false} ProxyWordsOf(ws: seq<nat>, args: seq<Bits>)
    requires ValidWidths(ws) && ValidArgs(ws, args) && ws != []
    ensures GoodBins(ArgWords(ws), args) && ProxyWords(ws, args) == Rev(Words(ArgWords(ws), args))
    ensures Exec(MarshallProgram(ws), Start(args, [])) == Some(Start(args, []).(output := ProxyWords(ws, args)))
  {
    ExecMarshall(ws, args, Start(args, []));
  }

  lemma {:induction false} WordsAre32(bins: seq<seq<Piece>>, vals: seq<Bits>)
    requires GoodBins(bins, vals)
    ensures forall i :: 0 <= i < |bins| ==> |Words(bins, vals)[i]| == 32
  {
    if bins != [] {
      WordsAre32(bins[1..], vals);
    }
  }

  lemma {:induction false} ProxyWordsAre32(ws: seq<nat>, args: seq<Bits>)
    requires ValidWidths(ws) && ValidArgs(ws, args) && ws != []
    ensures |ProxyWords(ws, args)| == (TotalBits(ws) + 31) / 32
    ensures forall i :: 0 <= i < |ProxyWords(ws, args)| ==> |ProxyWords(ws, args)[i]| == 32
  {
    ProxyWordsOf(ws, args);
    BinCount(ws);
    var words := Words(ArgWords(ws), args);
    WordsAre32(ArgWords(ws), args);
    forall i | 0 <= i < |words|
      ensures |Rev(words)[i]| == 32
    {
      RevAt(words, i);
    }
  }

  lemma {:induction false} ZeroWord(bits: nat)
    ensures ToNat(Zeros(bits)) == 0
    decreases bits
  {
    if bits > 0 {
      assert Zeros(bits)[1..] == Zeros(bits - 1);
      ZeroWord(bits - 1);
    }
  }

  /** What a proxy puts behind its header is what the ring's producer stores there: the words of the arguments, and
      the one zero word of a method that has none. */
  lemma {:induction false} ProxyWritesEmitted(methods: Interface, call: Call)
    requires ValidInterface(methods) && ValidCall(methods, call)
    ensures Ring.Emitted(Encode(methods, call)) == Numbers(ProxyWords(methods[call.channel], call.args))
  {
    var ws := methods[call.channel];
    if ws == [] {
      MarshallNothing(Start(call.args, []));
      ZeroWord(32);
      assert Numbers([Zeros(32)]) == [0];
      assert [] + [Zeros(32)] == [Zeros(32)];
    } else {
      ProxyWordsAre32(ws, call.args);
      assert ws[|ws| - 1] >= 1 && TotalBits(ws) >= 1;
    }
  }

  /** The handler restores every call from its message. */
  lemma {:induction false} DecodeEncode(methods: Interface, call: Call, env: seq<Bits>, tail: seq<Bits>)
    requires ValidInterface(methods) && ValidCall(methods, call)
    requires |env| == |call.args| && tail != []
    ensures Decode(methods, Encode(methods, call), env, tail) == Some(call)
  {
    var ws := methods[call.channel];
    if ws == [] {
      assert WordsOf([]) + tail == tail;
      ExecOne(ReadWord, Start(env, tail));
      assert ArgWords(ws) == [];
    } else {
      var words := ProxyWords(ws, call.args);
      ProxyWordsOf(ws, call.args);
      ProxyWordsAre32(ws, call.args);
      WordsRoundTrip(words);
      ArgumentsRoundTrip(ws, call.args, Start(call.args, []), Start(env, []), tail);
    }
  }

  /** The request size covers every method of the interface, as generate_class computes it. */
  predicate Covers(c: Ring.Config, methods: Interface)
    requires ValidInterface(methods)
  {
    forall k :: 0 <= k < |methods| ==> |ArgWords(methods[k])| + 1 <= c.reqsize / 4
  }

  lemma {:induction false} EncodeFits(c: Ring.Config, methods: Interface, call: Call)
    requires ValidInterface(methods) && ValidCall(methods, call) && Covers(c, methods)
    ensures Ring.Fits(c, Encode(methods, call)) && Encode(methods, call).channel != Ring.SKIP_CHANNEL
  {
    var ws := methods[call.channel];
    BinCount(ws);
    if ws != [] {
      ProxyWordsAre32(ws, call.args);
    }
  }

  // ----- Calls over the ring -----

  predicate Becomes(methods: Interface, call: Call, m: Ring.Msg)
    requires ValidInterface(methods)
  {
    ValidCall(methods, call) && m == Encode(methods, call)
  }

  ghost predicate IsCall(methods: Interface, m: Ring.Msg)
    requires ValidInterface(methods)
  {
    exists call :: Becomes(methods, call, m)
  }

  /** Only proxies of the interface send. */
  ghost predicate CallsOnly(methods: Interface, acts: seq<Ring.Action>)
    requires ValidInterface(methods)
  {
    forall i :: 0 <= i < |acts| && acts[i].Start? ==> IsCall(methods, acts[i].m)
  }

  lemma {:induction false} CallsAreLegal(c: Ring.Config, methods: Interface, acts: seq<Ring.Action>)
    requires ValidInterface(methods) && Covers(c, methods) && CallsOnly(methods, acts)
    ensures Ring.Legal(c, acts)
  {
    forall i | 0 <= i < |acts| && acts[i].Start?
      ensures Ring.Fits(c, acts[i].m)
    {
      assert IsCall(methods, acts[i].m);
      var call :| Becomes(methods, call, acts[i].m);
      EncodeFits(c, methods, call);
    }
  }

  predicate Sending(p: Ring.Producer) {
    !p.Idle? && !p.Terminate?
  }

  /** A step publishes nothing but the message being sent, and that is one that was started. */
  lemma {:induction false} StepSends(c: Ring.Config, s: Ring.State, a: Ring.Action)
    ensures var s' := Ring.Step(c, s, a);
            && (s'.sent == s.sent || (Sending(s.producer) && s'.sent == s.sent + [s.producer.m]))
            && (Sending(s'.producer) ==>
                  (Sending(s.producer) && s'.producer.m == s.producer.m) || (a.Start? && s'.producer.m == a.m))
  {
  }

  /** All that is being sent or has been sent are calls. */
  ghost predicate Carries(methods: Interface, s: Ring.State)
    requires ValidInterface(methods)
  {
    && (Sending(s.producer) ==> IsCall(methods, s.producer.m))
    && forall i :: 0 <= i < |s.sent| ==> IsCall(methods, s.sent[i])
  }

  lemma {:induction false} StepCarries(c: Ring.Config, methods: Interface, s: Ring.State, a: Ring.Action)
    requires ValidInterface(methods) && Carries(methods, s) && (a.Start? ==> IsCall(methods, a.m))
    ensures Carries(methods, Ring.Step(c, s, a))
  {
    StepSends(c, s, a);
  }

  lemma {:induction false} CarriesCalls(c: Ring.Config, methods: Interface, acts: seq<Ring.Action>)
    requires ValidInterface(methods) && Ring.ValidConfig(c) && CallsOnly(methods, acts)
    ensures Carries(methods, Ring.Run(c, acts))
  {
    if acts != [] {
      var n := |acts| - 1;
      assert acts[n] == acts[..][n];
      CarriesCalls(c, methods, acts[..n]);
      StepCarries(c, methods, Ring.Run(c, acts[..n]), acts[n]);
    }
  }

  /** Along every interleaving of the two processes, the handler is given the calls the proxies made: in order, none
      lost or repeated, every argument intact, whatever its variables held and whatever lies behind the message. */
  lemma {:induction false} CallsArriveInOrder(c: Ring.Config, methods: Interface, acts: seq<Ring.Action>)
    returns (calls: seq<Call>)
    requires ValidInterface(methods) && Ring.ValidConfig(c) && Covers(c, methods) && CallsOnly(methods, acts)
    ensures var s := Ring.Run(c, acts);
            && |calls| == |s.sent| && |s.handled| <= |calls|
            && (forall i :: 0 <= i < |calls| ==> Becomes(methods, calls[i], s.sent[i]))
            && (forall i, env: seq<Bits>, tail: seq<Bits> ::
                  0 <= i < |s.handled| && |env| == |calls[i].args| && tail != [] ==>
                  Decode(methods, s.handled[i], env, tail) == Some(calls[i]))
  {
    var s := Ring.Run(c, acts);
    CallsAreLegal(c, methods, acts);
    CarriesCalls(c, methods, acts);
    Ring.RingRefinesFifo(c, acts);
    calls := CallsOf(methods, s.sent);
    forall m | m in s.sent
      ensures m.channel != Ring.SKIP_CHANNEL
    {
      var call :| Becomes(methods, call, m);
      EncodeFits(c, methods, call);
    }
    Ring.VisibleAll(s.sent);
    forall i, env: seq<Bits>, tail: seq<Bits> | 0 <= i < |s.handled| && |env| == |calls[i].args| && tail != []
      ensures Decode(methods, s.handled[i], env, tail) == Some(calls[i])
    {
      DecodeEncode(methods, calls[i], env, tail);
    }
  }

  /** The words behind READ are those of the oldest unread message, and at least one more. */
  lemma {:induction false} WordsBehindRead(c: Ring.Config, s: Ring.State) returns (tail: seq<Bits>)
    requires Ring.ValidConfig(c) && Ring.Inv(c, s) && s.taken < |s.sent|
    ensures s.Read() + 1 < |s.mem| && tail != []
    ensures WordsOf(s.mem[s.Read() + 1..]) == WordsOf(s.sent[s.taken].payload) + tail
  {
    Ring.OldestUnread(c, s);
    var m := s.sent[s.taken];
    Ring.SpanBounds(c, m);
    var r := s.Read();
    assert s.mem[r + 1..][..|m.payload|] == m.payload;
    tail := WordsOf(s.mem[r + 1 + |m.payload|..]);
  }

  /** The handler makes `call` of the words, whatever its variables hold. */
  ghost predicate Yields(methods: Interface, words: seq<Bits>, call: Call)
    requires ValidInterface(methods)
  {
    forall env: seq<Bits> :: |env| == |call.args| ==> DecodeWords(methods, call.channel, env, words) == Some(call)
  }

  lemma {:induction false} MessageYields(methods: Interface, call: Call, m: Ring.Msg, words: seq<Bits>, tail: seq<Bits>)
    requires ValidInterface(methods) && Becomes(methods, call, m) && words == WordsOf(m.payload) + tail && tail != []
    ensures Yields(methods, words, call)
  {
    forall env: seq<Bits> | |env| == |call.args|
      ensures DecodeWords(methods, call.channel, env, words) == Some(call)
    {
      DecodeEncode(methods, call, env, tail);
    }
  }

  lemma {:induction false} OldestCall(c: Ring.Config, methods: Interface, s: Ring.State) returns (call: Call)
    requires ValidInterface(methods) && Ring.ValidConfig(c) && Ring.Inv(c, s) && Carries(methods, s)
             && s.taken < |s.sent|
    ensures Becomes(methods, call, s.sent[s.taken]) && s.Read() + 1 < |s.mem|
    ensures Yields(methods, WordsOf(s.mem[s.Read() + 1..]), call)
  {
    assert IsCall(methods, s.sent[s.taken]);
    call :| Becomes(methods, call, s.sent[s.taken]);
    var tail := WordsBehindRead(c, s);
    MessageYields(methods, call, s.sent[s.taken], WordsOf(s.mem[s.Read() + 1..]), tail);
  }

  /** Whenever the handler runs, the words it finds in the shared memory behind READ, however many it reads, are there
      and give the call that was made: also for a method without arguments, whose handler reads a word that is not
      part of its message. */
  lemma {:induction false} HandlerFindsItsCall(c: Ring.Config, methods: Interface, acts: seq<Ring.Action>,
                                               s: Ring.State)
    returns (call: Call)
    requires ValidInterface(methods) && Ring.ValidConfig(c) && Covers(c, methods) && CallsOnly(methods, acts)
    requires s == Ring.Run(c, acts) && s.consumer.Body?
    ensures s.taken < |s.sent| && Becomes(methods, call, s.sent[s.taken])
    ensures s.Read() + 1 < |s.mem| && Yields(methods, WordsOf(s.mem[s.Read() + 1..]), call)
  {
    CallsAreLegal(c, methods, acts);
    Ring.Reachable(c, acts);
    CarriesCalls(c, methods, acts);
    call := OldestCall(c, methods, s);
  }

  lemma {:induction false} CallsOf(methods: Interface, msgs: seq<Ring.Msg>) returns (calls: seq<Call>)
    requires ValidInterface(methods) && forall i :: 0 <= i < |msgs| ==> IsCall(methods, msgs[i])
    ensures |calls| == |msgs|
    ensures forall i :: 0 <= i < |msgs| ==> Becomes(methods, calls[i], msgs[i])
  {
    if msgs == [] {
      calls := [];
    } else {
      var front := CallsOf(methods, msgs[..|msgs| - 1]);
      assert IsCall(methods, msgs[|msgs| - 1]);
      var call :| Becomes(methods, call, msgs[|msgs| - 1]);
      calls := front + [call];
    }
  }
}
