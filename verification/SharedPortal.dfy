/**
 The functions of cpp/portalShared.c as they are written: loops and assignments on the mapped
 word array. Each is proved to do to that array exactly what the atomic steps of `SharedRing` do,
 so whatever holds of every interleaving of those steps holds of this code.
 */
module SharedPortal {
  import opened Options
  import opened SharedRing

  /** The producer's next `n` atomic steps. */
  function Produce(c: Config, s: State, n: nat): State
    decreases n
  {
    if n == 0 then s else Produce(c, ProducerNext(c, s), n - 1)
  }

  lemma {:induction false} ProduceInv(c: Config, s: State, n: nat)
    requires ValidConfig(c) && Inv(c, s)
    ensures Inv(c, Produce(c, s, n))
    decreases n
  {
    if n > 0 {
      ProducerKeepsInv(c, s);
      ProduceInv(c, ProducerNext(c, s), n - 1);
    }
  }

  lemma {:induction false} ProduceSplit(c: Config, s: State, a: nat, b: nat)
    ensures Produce(c, s, a + b) == Produce(c, Produce(c, s, a), b)
    decreases a
  {
    if a > 0 {
      ProduceSplit(c, ProducerNext(c, s), a - 1, b);
    }
  }

  /** The atomic steps of send_shared. */
  function SendCost(m: Msg): nat {
    if Len(m) % 2 == 1 then 4 else 3
  }

  /** The words send_shared stores lie inside the mapped array. */
  predicate Sendable(c: Config, mem: seq<nat>, m: Msg) {
    && |mem| >= 5 && mem[SHARED_LIMIT] == c.limit
    && SHARED_START <= mem[SHARED_WRITE] && mem[SHARED_WRITE] + Span(m) <= |mem|
    && Increment(c, mem[SHARED_WRITE] + Span(m)) < |mem|
    && Len(m) < 0xffff && HeaderWords(Header(m)) == Len(m)
  }

  /** Everything send_shared stores, in one piece. */
  function Sent(c: Config, mem: seq<nat>, m: Msg): seq<nat>
    requires Sendable(c, mem, m)
  {
    var w := mem[SHARED_WRITE];
    var w' := Increment(c, w + Span(m));
    var padded := if Len(m) % 2 == 1 then mem[w := Header(m)][w + Len(m) := PAD_WORD] else mem[w := Header(m)];
    padded[SHARED_WRITE := w'][w' := 0]
  }

  lemma {:induction false} InvSendable(c: Config, s: State, m: Msg)
    requires ValidConfig(c) && Inv(c, s) && s.producer == PutHeader(m)
    ensures Sendable(c, s.mem, m)
  {
    SpanBounds(c, m);
    RoomAhead(c, s.Read(), s.Write(), m);
  }

  lemma {:induction false} SendStepsEven(c: Config, s: State, m: Msg)
    requires Sendable(c, s.mem, m) && s.producer == PutHeader(m) && Len(m) % 2 == 0
    ensures var s' := Produce(c, s, 3); s'.mem == Sent(c, s.mem, m) && s'.sent == s.sent + [m] && s'.producer.Idle?
  {
    var s1 := s.(mem := s.mem[s.Write() := Header(m)], producer := Publish(m));
    FinishSend(c, s1, m);
    assert Produce(c, s, 3) == Produce(c, s1, 2);
  }

  lemma {:induction false} ProduceThen(c: Config, s: State, s': State, n: nat)
    requires ProducerNext(c, s) == s'
    ensures Produce(c, s, n + 1) == Produce(c, s', n)
  {
  }

  lemma {:induction false} OddSteps(c: Config, s: State, s1: State, s2: State, m: Msg)
    requires Sendable(c, s.mem, m) && s.producer == PutHeader(m) && Len(m) % 2 == 1
    requires s1 == s.(mem := s.mem[s.Write() := Header(m)], producer := PutPad(m))
    requires s2 == s.(mem := s.mem[s.Write() := Header(m)][s.Write() + Len(m) := PAD_WORD], producer := Publish(m))
    ensures Produce(c, s, 4) == Produce(c, s2, 2)
  {
    assert ProducerNext(c, s) == s1 && ProducerNext(c, s1) == s2;
    ProduceThen(c, s, s1, 3);
    ProduceThen(c, s1, s2, 2);
  }

  lemma {:induction false} SendStepsOdd(c: Config, s: State, m: Msg)
    requires Sendable(c, s.mem, m) && s.producer == PutHeader(m) && Len(m) % 2 == 1
    ensures var s' := Produce(c, s, 4); s'.mem == Sent(c, s.mem, m) && s'.sent == s.sent + [m] && s'.producer.Idle?
  {
    var w := s.Write();
    var s1 := s.(mem := s.mem[w := Header(m)], producer := PutPad(m));
    var s2 := s.(mem := s.mem[w := Header(m)][w + Len(m) := PAD_WORD], producer := Publish(m));
    FinishSend(c, s2, m);
    OddSteps(c, s, s1, s2, m);
  }

  /** The steps of send_shared, taken without interruption, store exactly `Sent`. */
  lemma {:induction false} SendSteps(c: Config, s: State, m: Msg)
    requires Sendable(c, s.mem, m) && s.producer == PutHeader(m)
    ensures Produce(c, s, SendCost(m)).mem == Sent(c, s.mem, m)
    ensures Produce(c, s, SendCost(m)).sent == s.sent + [m]
    ensures Produce(c, s, SendCost(m)).producer.Idle?
  {
    if Len(m) % 2 == 1 {
      SendStepsOdd(c, s, m);
    } else {
      SendStepsEven(c, s, m);
    }
  }

  lemma {:induction false} FinishSend(c: Config, s: State, m: Msg)
    requires s.producer == Publish(m)
    requires HeaderWords(Header(m)) == Len(m)
    requires Increment(c, s.Write() + Span(m)) < |s.mem|
    ensures var s' := Produce(c, s, 2); var w' := Increment(c, s.Write() + Span(m));
            && s'.mem == s.mem[SHARED_WRITE := w'][w' := 0]
            && s'.sent == s.sent + [m] && s'.producer.Idle?
  {
    var s1 := ProducerNext(c, s);
    assert Produce(c, s, 2) == Produce(c, s1, 1) == Produce(c, ProducerNext(c, s1), 0);
  }

  lemma {:induction false} FillSteps(c: Config, s: State, m: Msg, base: nat, k: nat)
    requires s.producer == Fill(m, base, k) && k <= |Emitted(m)|
    requires base + |Emitted(m)| <= |s.mem|
    ensures Produce(c, s, |Emitted(m)| - k + 1)
            == s.(mem := s.mem[..base + k] + Emitted(m)[k..] + s.mem[base + |Emitted(m)|..], producer := PutHeader(m))
    decreases |Emitted(m)| - k
  {
    var s' := ProducerNext(c, s);
    if k < |Emitted(m)| {
      FillSteps(c, s', m, base, k + 1);
      assert s'.mem[..base + k + 1] + Emitted(m)[k + 1..] == s.mem[..base + k] + Emitted(m)[k..];
      assert s'.mem[base + |Emitted(m)|..] == s.mem[base + |Emitted(m)|..];
    } else {
      assert Produce(c, s, 1) == Produce(c, s', 0);
      assert s.mem[..base + k] + Emitted(m)[k..] + s.mem[base + |Emitted(m)|..] == s.mem;
    }
  }

  /** The payload stores of a proxy. */
  function Filled(mem: seq<nat>, base: nat, words: seq<nat>): seq<nat>
    requires base + |words| <= |mem|
  {
    mem[..base] + words + mem[base + |words|..]
  }

  predicate Fillable(c: Config, mem: seq<nat>, m: Msg) {
    && |mem| >= 5 && SHARED_START <= mem[SHARED_WRITE]
    && mem[SHARED_WRITE] + 1 + |Emitted(m)| <= |mem|
    && Sendable(c, Filled(mem, mem[SHARED_WRITE] + 1, Emitted(m)), m)
  }

  lemma {:induction false} FillAll(c: Config, s: State, m: Msg, base: nat)
    requires s.producer == Fill(m, base, 0) && base + |Emitted(m)| <= |s.mem|
    ensures Produce(c, s, |Emitted(m)| + 1) == s.(mem := Filled(s.mem, base, Emitted(m)), producer := PutHeader(m))
  {
    FillSteps(c, s, m, base, 0);
    assert Emitted(m)[0..] == Emitted(m);
  }

  lemma {:induction false} SendableThen(c: Config, s: State, n: nat, m: Msg)
    requires ValidConfig(c) && Inv(c, s) && Produce(c, s, n).producer == PutHeader(m)
    ensures Sendable(c, Produce(c, s, n).mem, m)
  {
    ProduceInv(c, s, n);
    InvSendable(c, Produce(c, s, n), m);
  }

  /** The state once the payload is in place. */
  lemma {:induction false} FilledState(c: Config, s: State, m: Msg) returns (s': State)
    requires ValidConfig(c) && Inv(c, s) && s.producer == Fill(m, s.Write() + 1, 0)
    ensures s' == Produce(c, s, |Emitted(m)| + 1) && Fillable(c, s.mem, m) && Sendable(c, s'.mem, m)
    ensures s'.mem == Filled(s.mem, s.Write() + 1, Emitted(m)) && s'.sent == s.sent && s'.producer == PutHeader(m)
  {
    MessageRoom(c, s, m);
    FillAll(c, s, m, s.Write() + 1);
    SendableThen(c, s, |Emitted(m)| + 1, m);
    s' := Produce(c, s, |Emitted(m)| + 1);
  }

  lemma {:induction false} MessageRoom(c: Config, s: State, m: Msg)
    requires ValidConfig(c) && Inv(c, s) && s.producer == Fill(m, s.Write() + 1, 0)
    ensures SHARED_START <= s.Write() && s.Write() + 1 + |Emitted(m)| <= |s.mem|
  {
    SpanBounds(c, m);
    RoomAhead(c, s.Read(), s.Write(), m);
  }

  /** A whole send, from any reachable state in which busywait_shared has found room, stores what the
      proxy stores and puts the message in the queue. */
  lemma {:induction false} MessageSteps(c: Config, s: State, m: Msg)
    requires ValidConfig(c) && Inv(c, s) && s.producer == Fill(m, s.Write() + 1, 0)
    ensures Fillable(c, s.mem, m)
    ensures var s' := Produce(c, s, |Emitted(m)| + 1 + SendCost(m));
            && s'.mem == Sent(c, Filled(s.mem, s.Write() + 1, Emitted(m)), m)
            && s'.sent == s.sent + [m]
            && s'.producer.Idle?
  {
    var filled := FilledState(c, s, m);
    SendSteps(c, filled, m);
    ProduceSplit(c, s, |Emitted(m)| + 1, SendCost(m));
  }

  lemma {:induction false} WaitSteps(c: Config, s: State, m: Msg)
    requires s.producer.Idle? && Avail(s.mem[SHARED_LIMIT], s.Write(), s.Read()) > 2 * MaxSpan(c)
    ensures Produce(c, Step(c, s, Start(m)), 3) == s.(producer := Fill(m, s.Write() + 1, 0))
  {
    var w, r := s.Write(), s.Read();
    ProduceThen(c, s.(producer := PollWrite(m, w + 1)), s.(producer := PollRead(m, w + 1, w)), 2);
    ProduceThen(c, s.(producer := PollRead(m, w + 1, w)), s.(producer := Check(m, w + 1, w, r)), 1);
    ProduceThen(c, s.(producer := Check(m, w + 1, w, r)), s.(producer := Fill(m, w + 1, 0)), 0);
  }

  /** From every reachable state with the producer at rest and more than twice the maximum free, a send that is not
      interrupted puts its message in the queue and comes to rest again. */
  lemma {:induction false} SendCompletes(c: Config, s: State, m: Msg)
    requires ValidConfig(c) && Inv(c, s) && s.producer.Idle? && Fits(c, m)
    requires |FreeWords(c.limit, s.Read(), s.Write())| > 2 * MaxSpan(c)
    ensures var s' := Produce(c, Step(c, s, Start(m)), 3 + (|Emitted(m)| + 1 + SendCost(m)));
            s'.sent == s.sent + [m] && s'.producer.Idle?
  {
    AvailCounts(c.limit, s.Read(), s.Write());
    var s1 := Step(c, s, Start(m));
    StepKeepsInv(c, s, Start(m));
    WaitSteps(c, s, m);
    ProduceInv(c, s1, 3);
    MessageSteps(c, Produce(c, s1, 3), m);
    ProduceSplit(c, s1, 3, |Emitted(m)| + 1 + SendCost(m));
  }

  /** The words event_shared and the handler read lie inside the mapped array. */
  predicate Readable(c: Config, mem: seq<nat>) {
    && |mem| >= 5 && mem[SHARED_LIMIT] == c.limit
    && (mem[SHARED_READ] != mem[SHARED_WRITE] ==>
          && mem[SHARED_READ] + 1 < |mem|
          && 1 <= HeaderWords(mem[mem[SHARED_READ]]) <= |mem| - mem[SHARED_READ])
  }

  /** What event_shared does to the array. */
  function Taken(c: Config, mem: seq<nat>): seq<nat>
    requires Readable(c, mem)
  {
    var r := mem[SHARED_READ];
    if r == mem[SHARED_WRITE] then mem else mem[SHARED_READ := Increment(c, r + EvenUp16(HeaderWords(mem[r])))]
  }

  /** What it gives to the handler. */
  function HandedOn(c: Config, mem: seq<nat>): Option<Msg>
    requires Readable(c, mem)
  {
    var r := mem[SHARED_READ];
    if r == mem[SHARED_WRITE] || HeaderChannel(mem[r]) == SKIP_CHANNEL then None
    else Some(Msg(HeaderChannel(mem[r]), mem[r + 1..r + HeaderWords(mem[r])]))
  }

  lemma {:induction false} HandedOnOf(c: Config, mem: Memory, m: Msg)
    requires mem[SHARED_LIMIT] == c.limit && mem[SHARED_READ] != mem[SHARED_WRITE]
    requires MsgAt(mem, mem[SHARED_READ], m) && mem[SHARED_READ] + 1 < |mem|
    requires HeaderWords(Header(m)) == Len(m) && HeaderChannel(Header(m)) == m.channel
    ensures Readable(c, mem) && HandedOn(c, mem) == if m.channel == SKIP_CHANNEL then None else Some(m)
  {
    var r := mem[SHARED_READ];
    assert mem[r + 1..r + Len(m)] == m.payload;
  }

  lemma {:induction false} EventReads(c: Config, s: State)
    requires ValidConfig(c) && Inv(c, s)
    ensures Readable(c, s.mem) && (s.Read() == s.Write() <==> s.taken == |s.sent|)
    ensures s.taken < |s.sent| ==>
              var m := s.sent[s.taken];
              HandedOn(c, s.mem) == if m.channel == SKIP_CHANNEL then None else Some(m)
  {
    if s.taken < |s.sent| {
      var m := s.sent[s.taken];
      OldestUnread(c, s);
      SpanBounds(c, m);
      HandedOnOf(c, s.mem, m);
    } else {
      assert s.sent[s.taken..] == [];
    }
  }

  /** In every reachable state that is one `Event` of the machine, on the oldest unread message. */
  lemma {:induction false} EventTakes(c: Config, s: State)
    requires ValidConfig(c) && Inv(c, s)
    ensures Readable(c, s.mem) && Event(c, s).mem == Taken(c, s.mem)
    ensures Event(c, s).handled == s.handled + (if HandedOn(c, s.mem).Some? then [HandedOn(c, s.mem).value] else [])
    ensures s.taken == |s.sent| ==> HandedOn(c, s.mem) == None
    ensures s.taken < |s.sent| ==>
              HandedOn(c, s.mem) == if s.sent[s.taken].channel == SKIP_CHANNEL then None else Some(s.sent[s.taken])
  {
    EventReads(c, s);
    EventOf(c, s);
  }

  lemma {:induction false} EventOf(c: Config, s: State)
    requires Readable(c, s.mem)
    ensures Event(c, s).mem == Taken(c, s.mem)
    ensures Event(c, s).handled == s.handled + (if HandedOn(c, s.mem).Some? then [HandedOn(c, s.mem).value] else [])
  {
  }

  class Portal {
    const mapBase: array<nat>
    const config: Config

    /** The array holds the shared memory of state `s` of the two-process machine. */
    ghost predicate At(s: State)
      reads mapBase
    {
      mapBase.Length >= 5 && mapBase[..] == s.mem
    }

    /** init_shared. */
    constructor InitShared(c: Config)
      requires ValidConfig(c)
      ensures config == c && fresh(mapBase) && At(Init(c)) && mapBase[SHARED_LIMIT] == mapBase.Length == c.limit
      ensures mapBase[SHARED_READ] == mapBase[SHARED_WRITE] == SHARED_START && mapBase[SHARED_START] == 0
      ensures FreeWords(c.limit, mapBase[SHARED_READ], mapBase[SHARED_WRITE]) == Interval(SHARED_START, c.limit)
    {
      config := c;
      mapBase := new nat[c.limit](i => 0);
      new;
      mapBase[SHARED_LIMIT] := c.limit;
      mapBase[SHARED_WRITE] := SHARED_START;
      mapBase[SHARED_READ] := SHARED_START;
      mapBase[SHARED_START] := 0;
    }

    /** busywait_shared; `found` are the values of READ the spin loop finds, one per iteration. It
        leaves the loop at the first of them that leaves room for two largest messages: more than that many words of
        the area that belong to no unread message. */
    method BusywaitShared(found: seq<nat>) returns (ready: bool, polls: nat)
      requires mapBase.Length >= 5
      ensures polls <= |found|
      ensures ready ==>
                0 < polls && Avail(mapBase[SHARED_LIMIT], mapBase[SHARED_WRITE], found[polls - 1]) > 2 * MaxSpan(config)
      ensures !ready ==> polls == |found|
      ensures forall i :: 0 <= i < polls - (if ready then 1 else 0) ==>
                Avail(mapBase[SHARED_LIMIT], mapBase[SHARED_WRITE], found[i]) <= 2 * MaxSpan(config)
      ensures SHARED_START <= mapBase[SHARED_WRITE] < mapBase[SHARED_LIMIT] ==>
                forall i :: 0 <= i < polls && SHARED_START <= found[i] < mapBase[SHARED_LIMIT] ==>
                  (|FreeWords(mapBase[SHARED_LIMIT], found[i], mapBase[SHARED_WRITE])| > 2 * MaxSpan(config)
                   <==> ready && i == polls - 1)
    {
      var reqwords := config.reqsize / 4 + 1;
      reqwords := EvenUp16(reqwords);
      var limit: int := mapBase[SHARED_LIMIT];
      ready, polls := false, 0;
      while polls < |found|
        invariant polls <= |found| && !ready
        invariant forall i :: 0 <= i < polls ==>
                    Avail(mapBase[SHARED_LIMIT], mapBase[SHARED_WRITE], found[i]) <= 2 * MaxSpan(config)
      {
        var write: int, read: int := mapBase[SHARED_WRITE], found[polls];
        polls := polls + 1;
        var avail: int;
        if write >= read {
          avail := limit - (write - read) - 4;
        } else {
          avail := read - write;
        }
        if avail > 2 * reqwords {
          ready := true;
          break;
        }
      }
      if SHARED_START <= mapBase[SHARED_WRITE] < mapBase[SHARED_LIMIT] {
        forall i | 0 <= i < polls && SHARED_START <= found[i] < mapBase[SHARED_LIMIT]
          ensures |FreeWords(mapBase[SHARED_LIMIT], found[i], mapBase[SHARED_WRITE])|
                  == Avail(mapBase[SHARED_LIMIT], mapBase[SHARED_WRITE], found[i])
        {
          AvailCounts(mapBase[SHARED_LIMIT], found[i], mapBase[SHARED_WRITE]);
        }
      }
    }

    /** increment_shared: an even cursor stays even, and a largest message fits between the new one and LIMIT, unless it
        went back to START; it goes there only if none fits behind the old one. */
    method IncrementShared(newp: nat) returns (p: nat)
      requires mapBase.Length >= 5 && mapBase[SHARED_LIMIT] == config.limit
      ensures p == Increment(config, newp)
      ensures p == SHARED_START || p + MaxSpan(config) < config.limit
      ensures newp + MaxSpan(config) < config.limit ==> p == newp
      ensures newp % 2 == 0 ==> p % 2 == 0
    {
      var reqwords := config.reqsize / 4 + 1;
      reqwords := EvenUp16(reqwords);
      p := newp;
      if newp + reqwords >= mapBase[SHARED_LIMIT] {
        p := SHARED_START;
      }
    }

    /** send_shared, called by the proxy once the payload is in place. */
    method SendShared(hdr: nat, ghost m: Msg)
      requires Sendable(config, mapBase[..], m) && hdr == Header(m)
      modifies mapBase
      ensures mapBase[..] == Sent(config, old(mapBase[..]), m)
    {
      var reqwords := hdr % 0x1_0000;
      var needsPadding := reqwords % 2;
      mapBase[mapBase[SHARED_WRITE]] := hdr;
      if needsPadding == 1 {
        mapBase[mapBase[SHARED_WRITE] + reqwords] := PAD_WORD;
        reqwords := EvenUp16(reqwords);
      }
      var write := IncrementShared(mapBase[SHARED_WRITE] + reqwords);
      mapBase[SHARED_WRITE] := write;
      mapBase[mapBase[SHARED_WRITE]] := 0;
    }

    /** The write_portal_memory calls of a proxy, through its advancing address. */
    method WriteWords(base: nat, words: seq<nat>)
      requires base + |words| <= mapBase.Length
      modifies mapBase
      ensures mapBase[..] == Filled(old(mapBase[..]), base, words)
    {
      for k := 0 to |words|
        invariant mapBase[..] == old(mapBase[..base]) + words[..k] + old(mapBase[base + k..])
      {
        mapBase[base + k] := words[k];
      }
      assert words[..|words|] == words;
    }

    /** The body of a generated proxy after busywait_shared: store the words, then send. */
    method SendMessage(m: Msg)
      requires Fillable(config, mapBase[..], m)
      modifies mapBase
      ensures mapBase[..] == Sent(config, Filled(old(mapBase[..]), old(mapBase[SHARED_WRITE]) + 1, Emitted(m)), m)
    {
      WriteWords(mapBase[SHARED_WRITE] + 1, Emitted(m));
      SendShared(Header(m), m);
    }

    /** The body of event_shared, with the generated handler's reads. */
    method TakeMessage() returns (handled: Option<Msg>)
      requires Readable(config, mapBase[..])
      modifies mapBase
      ensures mapBase[..] == Taken(config, old(mapBase[..])) && handled == HandedOn(config, old(mapBase[..]))
    {
      handled := None;
      if mapBase[SHARED_READ] != mapBase[SHARED_WRITE] {
        var read := mapBase[SHARED_READ];
        var hdr := mapBase[read];
        var msgNum, msgWords := hdr / 0x1_0000, hdr % 0x1_0000;
        if msgNum != 0xffff {
          if msgWords <= 1 {
            var unused := mapBase[read + 1];  // the handler of a method without arguments reads one word
          }
          handled := Some(Msg(msgNum, mapBase[read + 1..read + msgWords]));
        }
        read := IncrementShared(read + EvenUp16(msgWords));
        mapBase[SHARED_READ] := read;
      }
    }

    /** event_shared, in any state of the machine in which it is called. */
    method EventShared(ghost s: State) returns (handled: Option<Msg>)
      requires ValidConfig(config) && Inv(config, s) && At(s) && s.consumer.Wait?
      modifies mapBase
      ensures At(Event(config, s))
      ensures Event(config, s).handled == s.handled + (if handled.Some? then [handled.value] else [])
      ensures s.taken == |s.sent| ==> handled == None
      ensures s.taken < |s.sent| ==>
                handled == if s.sent[s.taken].channel == SKIP_CHANNEL then None else Some(s.sent[s.taken])
    {
      EventTakes(config, s);
      handled := TakeMessage();
    }
  }
}
