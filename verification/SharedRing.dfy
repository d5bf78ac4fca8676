/**
 The shared-memory message ring of cpp/portalShared.c: one producer process and one
 consumer process that share a word array and coordinate only through the READ and
 WRITE cursors stored inside it.

 Every load or store of a shared word is one atomic step, and a run is an arbitrary
 interleaving of steps of the two processes (sequentially consistent memory).
 */
module SharedRing {

  // Word indices of the control block (cpp/portal.h).
  const SHARED_LIMIT := 0
  const SHARED_WRITE := 1
  const SHARED_READ := 2
  const SHARED_START := 4

  const PAD_WORD := 0xffff0001
  const SKIP_CHANNEL := 0xffff

  type Memory = m: seq<nat> | |m| >= 5 witness [0, 0, 0, 0, 0]

  /** What the two ends agree on: the byte size of the largest request, and the area's size in words. */
  datatype Config = Config(reqsize: nat, limit: nat)

  /** A request: its channel number and its marshalled payload words. */
  datatype Msg = Msg(channel: nat, payload: seq<nat>)

  /** `(x + 1) & 0xfffe`: up to the next even number, in 16 bits. */
  function EvenUp16(x: nat): nat {
    (x + 1) % 0x1_0000 / 2 * 2
  }

  /** The rounded maximum message size `reqwords` of busywait_shared and increment_shared. */
  function MaxSpan(c: Config): nat {
    EvenUp16(c.reqsize / 4 + 1)
  }

  /** The area holds the control block and the rounding of the largest request is not cut to 16 bits. */
  predicate ValidConfig(c: Config) {
    5 <= c.limit && c.reqsize / 4 + 2 < 0x1_0000
  }

  /** What the generated proxies send: at most `reqsize` bytes, header included. */
  predicate Fits(c: Config, m: Msg) {
    m.channel <= 0xffff && |m.payload| + 1 <= c.reqsize / 4
  }

  function Len(m: Msg): nat {
    |m.payload| + 1
  }

  function Span(m: Msg): nat {
    EvenUp16(Len(m))
  }

  function Header(m: Msg): nat {
    m.channel * 0x1_0000 + Len(m)
  }

  function HeaderWords(hdr: nat): nat { hdr % 0x1_0000 }

  function HeaderChannel(hdr: nat): nat { hdr / 0x1_0000 }

  /** The words a proxy stores before it sends: a method without arguments still stores one zero. */
  function Emitted(m: Msg): seq<nat> {
    if m.payload == [] then [0] else m.payload
  }

  /** The free words busywait_shared computes from a WRITE and a READ cursor. */
  function Avail(limit: int, write: int, read: int): int {
    if write >= read then limit - (write - read) - 4 else read - write
  }

  /** increment_shared. */
  function Increment(c: Config, p: nat): nat {
    if p + MaxSpan(c) >= c.limit then SHARED_START else p
  }

  // ----- The two processes -----

  datatype Producer =
    | Idle
    | PollWrite(m: Msg, base: nat)
    | PollRead(m: Msg, base: nat, w: nat)
    | Check(m: Msg, base: nat, w: nat, r: nat)
    | Fill(m: Msg, base: nat, k: nat)
    | PutHeader(m: Msg)
    | PutPad(m: Msg)
    | Publish(m: Msg)
    | Terminate

  datatype Consumer =
    | Wait
    | Fetch
    | Body(hdr: nat, got: seq<nat>)
    | Advance(hdr: nat)

  /** `sent`, `taken` and `handled` are history: the messages published so far, how many of them
      the consumer has stepped over, and the messages passed to the handler. `fault` records an
      access outside the shared area. */
  datatype State = State(mem: Memory, producer: Producer, consumer: Consumer,
                         sent: seq<Msg>, taken: nat, handled: seq<Msg>, fault: bool)
  {
    function Store(i: nat, v: nat): State {
      if i < |mem| then this.(mem := mem[i := v]) else this.(fault := true)
    }

    function Read(): nat { mem[SHARED_READ] }

    function Write(): nat { mem[SHARED_WRITE] }
  }

  /** init_shared. */
  function InitMemory(c: Config): (mem: Memory)
    requires ValidConfig(c)
    ensures |mem| == c.limit
  {
    seq(c.limit, i => 0)[SHARED_LIMIT := c.limit][SHARED_WRITE := SHARED_START]
                        [SHARED_READ := SHARED_START][SHARED_START := 0]
  }

  function Init(c: Config): State
    requires ValidConfig(c)
  {
    State(InitMemory(c), Idle, Wait, [], 0, [], false)
  }

  datatype Action = Start(m: Msg) | ProducerStep | ConsumerStep

  /** The next shared access of the proxy, busywait_shared or send_shared. */
  function ProducerNext(c: Config, s: State): State {
    match s.producer
    case Idle => s
    case PollWrite(m, base) => s.(producer := PollRead(m, base, s.Write()))
    case PollRead(m, base, w) => s.(producer := Check(m, base, w, s.Read()))
    case Check(m, base, w, r) =>
      s.(producer := if Avail(s.mem[SHARED_LIMIT], w, r) > 2 * MaxSpan(c)
         then Fill(m, base, 0) else PollWrite(m, base))
    case Fill(m, base, k) =>
      if k < |Emitted(m)| then
        s.Store(base + k, Emitted(m)[k]).(producer := Fill(m, base, k + 1))
      else
        s.(producer := PutHeader(m))
    case PutHeader(m) =>
      s.Store(s.Write(), Header(m)).(producer := if HeaderWords(Header(m)) % 2 == 1 then PutPad(m) else Publish(m))
    case PutPad(m) =>
      s.Store(s.Write() + HeaderWords(Header(m)), PAD_WORD).(producer := Publish(m))
    case Publish(m) =>
      s.Store(SHARED_WRITE, Increment(c, s.Write() + EvenUp16(HeaderWords(Header(m)))))
       .(producer := Terminate, sent := s.sent + [m])
    case Terminate =>
      s.Store(s.Write(), 0).(producer := Idle)
  }

  /** The next shared access of event_shared or of the message handler it calls. */
  function ConsumerNext(c: Config, s: State): State {
    match s.consumer
    case Wait => if s.Read() != s.Write() then s.(consumer := Fetch) else s
    case Fetch =>
      if s.Read() >= |s.mem| then s.(fault := true)
      else
        var hdr := s.mem[s.Read()];
        s.(consumer := if HeaderChannel(hdr) != SKIP_CHANNEL then Body(hdr, []) else Advance(hdr))
    case Body(hdr, got) =>
      if |got| + 1 < HeaderWords(hdr) then
        if s.Read() + 1 + |got| >= |s.mem| then s.(fault := true)
        else s.(consumer := Body(hdr, got + [s.mem[s.Read() + 1 + |got|]]))
      // The handler of a method without arguments still reads one word behind the header.
      else if HeaderWords(hdr) <= 1 && s.Read() + 1 >= |s.mem| then s.(fault := true)
      else
        s.(consumer := Advance(hdr), handled := s.handled + [Msg(HeaderChannel(hdr), got)])
    case Advance(hdr) =>
      s.Store(SHARED_READ, Increment(c, s.Read() + EvenUp16(HeaderWords(hdr))))
       .(consumer := Wait, taken := s.taken + 1)
  }

  function Step(c: Config, s: State, a: Action): State {
    match a
    case Start(m) => if s.producer.Idle? then s.(producer := PollWrite(m, s.Write() + 1)) else s
    case ProducerStep => ProducerNext(c, s)
    case ConsumerStep => ConsumerNext(c, s)
  }

  /** Only messages that fit are ever started. */
  predicate Legal(c: Config, acts: seq<Action>) {
    forall i :: 0 <= i < |acts| && acts[i].Start? ==> Fits(c, acts[i].m)
  }

  /** The state after a schedule, from power-up. */
  function Run(c: Config, acts: seq<Action>): State
    requires ValidConfig(c)
  {
    if acts == [] then Init(c)
    else Step(c, Run(c, acts[..|acts| - 1]), acts[|acts| - 1])
  }

  // ----- The abstract FIFO -----

  /** The messages event_shared passes on: channel 0xffff is skipped. */
  function Visible(msgs: seq<Msg>): seq<Msg> {
    if msgs == [] then []
    else if msgs[|msgs| - 1].channel == SKIP_CHANNEL then Visible(msgs[..|msgs| - 1])
    else Visible(msgs[..|msgs| - 1]) + [msgs[|msgs| - 1]]
  }

  /** A queue that has accepted `sent` and delivered `delivered`. */
  datatype Fifo = Fifo(sent: seq<Msg>, delivered: seq<Msg>)

  predicate FifoInit(f: Fifo) { f.sent == [] && f.delivered == [] }

  ghost predicate FifoNext(f: Fifo, f': Fifo) {
    || f' == f
    || (exists m :: f' == f.(sent := f.sent + [m]))
    || (|f.delivered| < |f.sent| && f' == f.(delivered := f.delivered + [f.sent[|f.delivered|]]))
  }

  function Abstract(s: State): Fifo {
    Fifo(Visible(s.sent), s.handled)
  }

  // ----- The invariant -----

  predicate Cursor(c: Config, p: nat) {
    SHARED_START <= p < c.limit && p % 2 == 0 && (p == SHARED_START || p + MaxSpan(c) < c.limit)
  }

  /** Word `i` belongs to a published message that has not been stepped over. */
  predicate Unread(limit: nat, r: nat, w: nat, i: nat) {
    if r <= w then r <= i < w else r <= i < limit || SHARED_START <= i < w
  }

  predicate MsgAt(mem: Memory, p: nat, m: Msg) {
    && p + Len(m) <= |mem|
    && mem[p] == Header(m)
    && forall i :: 0 <= i < |m.payload| ==> mem[p + 1 + i] == m.payload[i]
  }

  /** The messages `q` lie one after the other from cursor `r` up to cursor `w`, wrapping at most once. */
  predicate Laid(c: Config, mem: Memory, r: nat, w: nat, q: seq<Msg>)
    decreases |q|
  {
    if q == [] then r == w
    else
      var n := Increment(c, r + Span(q[0]));
      && Cursor(c, r) && Cursor(c, n)
      && Fits(c, q[0]) && MsgAt(mem, r, q[0])
      && r + MaxSpan(c) < c.limit
      && r != w
      && (if r < w then r < n <= w else n > r || n == SHARED_START)
      && Laid(c, mem, n, w, q[1..])
  }

  /** What the producer may rely on at each point of its program. */
  predicate ProducerInv(c: Config, mem: Memory, p: Producer) {
    var w := mem[SHARED_WRITE];
    var room := Avail(c.limit, w, mem[SHARED_READ]) > 2 * MaxSpan(c);
    match p
    case Idle => true
    case PollWrite(m, base) => Fits(c, m) && base == w + 1
    case PollRead(m, base, w0) => Fits(c, m) && base == w + 1 && w0 == w
    case Check(m, base, w0, r0) =>
      && Fits(c, m) && base == w + 1 && w0 == w && SHARED_START <= r0 < c.limit
      && Avail(c.limit, w, r0) <= Avail(c.limit, w, mem[SHARED_READ])
    case Fill(m, base, k) =>
      && Fits(c, m) && base == w + 1 && room && k <= |Emitted(m)|
      && base + k <= |mem|
      && forall i :: 0 <= i < k ==> mem[base + i] == Emitted(m)[i]
    case PutHeader(m) =>
      && Fits(c, m) && room
      && w + Len(m) <= |mem|
      && forall i :: 0 <= i < |m.payload| ==> mem[w + 1 + i] == m.payload[i]
    case PutPad(m) => Fits(c, m) && Len(m) % 2 == 1 && room && MsgAt(mem, w, m)
    case Publish(m) => Fits(c, m) && room && MsgAt(mem, w, m)
    case Terminate => true
  }

  /** What the consumer has read so far, and what it has handed on. */
  predicate ConsumerInv(k: Consumer, sent: seq<Msg>, taken: nat, handled: seq<Msg>) {
    && taken <= |sent|
    && match k
       case Wait => handled == Visible(sent[..taken])
       case Fetch => taken < |sent| && handled == Visible(sent[..taken])
       case Body(hdr, got) =>
         && taken < |sent| && hdr == Header(sent[taken])
         && sent[taken].channel != SKIP_CHANNEL
         && got <= sent[taken].payload
         && handled == Visible(sent[..taken])
       case Advance(hdr) =>
         && taken < |sent| && hdr == Header(sent[taken])
         && handled == Visible(sent[..taken + 1])
  }

  predicate Inv(c: Config, s: State) {
    && !s.fault
    && |s.mem| == c.limit && s.mem[SHARED_LIMIT] == c.limit
    && Cursor(c, s.Read()) && Cursor(c, s.Write())
    && ProducerInv(c, s.mem, s.producer)
    && ConsumerInv(s.consumer, s.sent, s.taken, s.handled)
    && Laid(c, s.mem, s.Read(), s.Write(), s.sent[s.taken..])
  }

  // ----- Arithmetic of message spans -----

  lemma {:induction false} SpanBounds(c: Config, m: Msg)
    requires ValidConfig(c) && Fits(c, m)
    ensures Len(m) <= Span(m) <= Len(m) + 1
    ensures Span(m) % 2 == 0 && MaxSpan(c) % 2 == 0
    ensures Span(m) <= MaxSpan(c)
    ensures Len(m) < 0x1_0000
    ensures |Emitted(m)| + 1 <= Span(m)
    ensures Len(m) % 2 == 1 ==> Span(m) == Len(m) + 1
    ensures HeaderWords(Header(m)) == Len(m)
    ensures HeaderChannel(Header(m)) == m.channel
  {
  }

  /** The maximum is the largest request and one word more, rounded up to even. */
  lemma {:induction false} MaxSpanIs(c: Config)
    requires ValidConfig(c)
    ensures MaxSpan(c) % 2 == 0 && c.reqsize / 4 + 1 <= MaxSpan(c) <= c.reqsize / 4 + 2
  {
  }

  /** What event_shared would make of the pad: a message of one word that it skips. */
  lemma {:induction false} PadIsSkipped()
    ensures HeaderChannel(PAD_WORD) == SKIP_CHANNEL && HeaderWords(PAD_WORD) == 1
  {
  }

  /** Rounding to 16 bits is safe for every message exactly when the largest request stays below 2^16 words. */
  lemma {:induction false} RoundingSafeIff(c: Config)
    requires 4 <= c.reqsize
    ensures (forall m: Msg :: Fits(c, m) ==> Len(m) <= Span(m) <= MaxSpan(c) && HeaderWords(Header(m)) == Len(m))
            <==> c.reqsize / 4 + 2 < 0x1_0000
  {
    var n := c.reqsize / 4;
    if n + 2 < 0x1_0000 {
      forall m: Msg | Fits(c, m)
        ensures Len(m) <= Span(m) <= MaxSpan(c) && HeaderWords(Header(m)) == Len(m)
      {
        SpanBounds(c.(limit := 5), m);
      }
    } else {
      var k := if n <= 0xffff then n else 0xffff;
      var m := Msg(0, seq(k - 1, i => 0));
      assert Fits(c, m) && Len(m) == k;
      if n == 0xfffe {
        assert MaxSpan(c) == 0;
      } else {
        assert Span(m) == 0;
      }
    }
  }

  // ----- Layout lemmas -----

  /** The layout depends only on the unread words. */
  lemma {:induction false} LaidFrame(c: Config, mem: Memory, mem': Memory, r: nat, w: nat, q: seq<Msg>)
    requires ValidConfig(c)
    requires |mem| == |mem'| == c.limit
    requires Laid(c, mem, r, w, q)
    requires SHARED_START <= w < c.limit
    requires forall i :: 0 <= i < c.limit && Unread(c.limit, r, w, i) ==> mem'[i] == mem[i]
    ensures Laid(c, mem', r, w, q)
    decreases |q|
  {
    if q != [] {
      SpanBounds(c, q[0]);
      var n := Increment(c, r + Span(q[0]));
      LaidFrame(c, mem, mem', n, w, q[1..]);
      assert MsgAt(mem', r, q[0]) by {
        assert forall i :: r <= i < r + Len(q[0]) ==> Unread(c.limit, r, w, i);
      }
    }
  }

  /** Where the WRITE cursor may go without meeting the READ cursor. */
  predicate Room(r: nat, w: nat, w': nat) {
    if r <= w then w < w' || (w' == SHARED_START && SHARED_START < r) else w < w' < r
  }

  /** A message written at WRITE extends the layout once WRITE moves past it. */
  lemma {:induction false} LaidAppend(c: Config, mem: Memory, r: nat, w: nat, w': nat, q: seq<Msg>, m: Msg)
    requires ValidConfig(c) && |mem| == c.limit
    requires Laid(c, mem, r, w, q)
    requires Cursor(c, r) && Cursor(c, w) && Cursor(c, w')
    requires Fits(c, m) && MsgAt(mem, w, m) && w + MaxSpan(c) < c.limit
    requires w' == Increment(c, w + Span(m))
    requires Room(r, w, w')
    ensures Laid(c, mem, r, w', q + [m])
    decreases |q|
  {
    SpanBounds(c, m);
    if q == [] {
      assert (q + [m])[1..] == [];
      assert Laid(c, mem, w', w', (q + [m])[1..]);
    } else {
      var n := Increment(c, r + Span(q[0]));
      assert (q + [m])[1..] == q[1..] + [m];
      LaidAppend(c, mem, n, w, w', q[1..], m);
    }
  }

  /** Stepping READ over a message keeps the rest laid out and never takes free words away from the producer. */
  lemma {:induction false} LaidPop(c: Config, mem: Memory, r: nat, w: nat, q: seq<Msg>)
    requires ValidConfig(c) && |mem| == c.limit
    requires q != [] && Laid(c, mem, r, w, q)
    requires Cursor(c, r) && Cursor(c, w)
    ensures var n := Increment(c, r + Span(q[0]));
            && Cursor(c, n)
            && Laid(c, mem[SHARED_READ := n], n, w, q[1..])
            && Avail(c.limit, w, n) >= Avail(c.limit, w, r)
  {
    var n := Increment(c, r + Span(q[0]));
    LaidFrame(c, mem, mem[SHARED_READ := n], n, w, q[1..]);
  }

  /** With more than `2 * MaxSpan` words free, a message fits at WRITE, WRITE may move past it, and it
      wraps to START only when READ is beyond START. */
  lemma {:induction false} RoomAhead(c: Config, r: nat, w: nat, m: Msg)
    requires ValidConfig(c) && Fits(c, m)
    requires Cursor(c, r) && Cursor(c, w)
    requires Avail(c.limit, w, r) > 2 * MaxSpan(c)
    ensures w + MaxSpan(c) < c.limit
    ensures w < r ==> w + MaxSpan(c) < r
    ensures var w' := Increment(c, w + Span(m));
            Cursor(c, w') && Room(r, w, w') && (w' == SHARED_START ==> SHARED_START < r)
  {
    SpanBounds(c, m);
    RoomBehind(c.limit, MaxSpan(c), r, w, Span(m));
  }

  /** The arithmetic: `most` is the largest span and `span` that of one message. */
  lemma {:induction false} RoomBehind(limit: nat, most: nat, r: nat, w: nat, span: nat)
    requires 0 < span <= most && span % 2 == 0
    requires SHARED_START <= r < limit && r % 2 == 0 && (r == SHARED_START || r + most < limit)
    requires SHARED_START <= w < limit && w % 2 == 0 && (w == SHARED_START || w + most < limit)
    requires Avail(limit, w, r) > 2 * most
    ensures w + most < limit && (w < r ==> w + most < r)
    ensures var w' := if w + span + most >= limit then SHARED_START else w + span;
            && w' < limit && w' % 2 == 0 && Room(r, w, w') && (w' == SHARED_START ==> SHARED_START < r)
  {
  }

  lemma {:induction false} VisiblePrefix(a: seq<Msg>, b: seq<Msg>)
    requires a <= b
    ensures Visible(a) <= Visible(b)
    decreases |b| - |a|
  {
    if |a| == |b| {
      assert a == b;
    } else {
      VisiblePrefix(a, b[..|b| - 1]);
    }
  }

  lemma {:induction false} VisibleAll(msgs: seq<Msg>)
    requires forall m :: m in msgs ==> m.channel != SKIP_CHANNEL
    ensures Visible(msgs) == msgs
  {
    if msgs != [] {
      VisibleAll(msgs[..|msgs| - 1]);
    }
  }

  // ----- Every step keeps the invariant -----

  lemma {:induction false} InitInv(c: Config)
    requires ValidConfig(c)
    ensures Inv(c, Init(c))
  {
  }

  /** A store into the words from WRITE on that busywait_shared reserved touches no unread word. */
  lemma {:induction false} ReservedStore(c: Config, s: State, i: nat, v: nat, p: Producer)
    requires ValidConfig(c) && Inv(c, s)
    requires Avail(c.limit, s.Write(), s.Read()) > 2 * MaxSpan(c)
    requires s.Write() + MaxSpan(c) < c.limit
    requires s.Write() <= i < s.Write() + MaxSpan(c)
    requires ProducerInv(c, s.mem[i := v], p)
    ensures !Unread(c.limit, s.Read(), s.Write(), i)
    ensures Inv(c, s.Store(i, v).(producer := p))
  {
    LaidFrame(c, s.mem, s.mem[i := v], s.Read(), s.Write(), s.sent[s.taken..]);
  }

  lemma {:induction false} FillStored(c: Config, mem: Memory, m: Msg, base: nat, k: nat)
    requires ProducerInv(c, mem, Fill(m, base, k)) && k < |Emitted(m)|
    requires SHARED_START <= base && base + k < |mem|
    ensures ProducerInv(c, mem[base + k := Emitted(m)[k]], Fill(m, base, k + 1))
  {
  }

  /** The store that the producer makes while it fills in its message, and where that leaves it. */
  lemma {:induction false} FillStores(c: Config, s: State) returns (i: nat, v: nat, p: Producer)
    requires ValidConfig(c) && Inv(c, s) && s.producer.Fill? && s.producer.k < |Emitted(s.producer.m)|
    ensures s.Write() <= i < s.Write() + MaxSpan(c) < c.limit && Avail(c.limit, s.Write(), s.Read()) > 2 * MaxSpan(c)
    ensures ProducerInv(c, s.mem[i := v], p) && ProducerNext(c, s) == s.Store(i, v).(producer := p)
  {
    var Fill(m, base, k) := s.producer;
    i, v, p := base + k, Emitted(m)[k], Fill(m, base, k + 1);
    SpanBounds(c, m);
    RoomAhead(c, s.Read(), s.Write(), m);
    FillStored(c, s.mem, m, base, k);
  }

  lemma {:induction false} FillInv(c: Config, s: State)
    requires ValidConfig(c) && Inv(c, s) && s.producer.Fill? && s.producer.k < |Emitted(s.producer.m)|
    ensures Inv(c, ProducerNext(c, s))
  {
    var i, v, p := FillStores(c, s);
    ReservedStore(c, s, i, v, p);
  }

  lemma {:induction false} FilledInv(c: Config, s: State)
    requires ValidConfig(c) && Inv(c, s) && s.producer.Fill? && s.producer.k == |Emitted(s.producer.m)|
    ensures Inv(c, ProducerNext(c, s))
  {
    assert ProducerInv(c, s.mem, PutHeader(s.producer.m));
  }

  lemma {:induction false} HeaderInv(c: Config, s: State)
    requires ValidConfig(c) && Inv(c, s) && s.producer.PutHeader?
    ensures Inv(c, ProducerNext(c, s))
  {
    var m := s.producer.m;
    SpanBounds(c, m);
    RoomAhead(c, s.Read(), s.Write(), m);
    ReservedStore(c, s, s.Write(), Header(m), if HeaderWords(Header(m)) % 2 == 1 then PutPad(m) else Publish(m));
  }

  /** The store of the pad, and where that leaves the producer. */
  lemma {:induction false} PadStores(c: Config, s: State) returns (i: nat, v: nat, p: Producer)
    requires ValidConfig(c) && Inv(c, s) && s.producer.PutPad?
    ensures s.Write() <= i < s.Write() + MaxSpan(c) < c.limit && Avail(c.limit, s.Write(), s.Read()) > 2 * MaxSpan(c)
    ensures ProducerInv(c, s.mem[i := v], p) && ProducerNext(c, s) == s.Store(i, v).(producer := p)
  {
    var m := s.producer.m;
    SpanBounds(c, m);
    RoomAhead(c, s.Read(), s.Write(), m);
    i, v, p := s.Write() + Len(m), PAD_WORD, Publish(m);
  }

  lemma {:induction false} PadInv(c: Config, s: State)
    requires ValidConfig(c) && Inv(c, s) && s.producer.PutPad?
    ensures Inv(c, ProducerNext(c, s))
  {
    var i, v, p := PadStores(c, s);
    ReservedStore(c, s, i, v, p);
  }

  lemma {:induction false} LaidPublish(c: Config, mem: Memory, q: seq<Msg>, m: Msg)
    requires ValidConfig(c) && |mem| == c.limit
    requires Cursor(c, mem[SHARED_READ]) && Cursor(c, mem[SHARED_WRITE])
    requires Laid(c, mem, mem[SHARED_READ], mem[SHARED_WRITE], q)
    requires ProducerInv(c, mem, Publish(m))
    ensures var w' := Increment(c, mem[SHARED_WRITE] + Span(m));
            Cursor(c, w') && Laid(c, mem[SHARED_WRITE := w'], mem[SHARED_READ], w', q + [m])
  {
    var r, w := mem[SHARED_READ], mem[SHARED_WRITE];
    var w' := Increment(c, w + Span(m));
    RoomAhead(c, r, w, m);
    LaidAppend(c, mem, r, w, w', q, m);
    LaidFrame(c, mem, mem[SHARED_WRITE := w'], r, w', q + [m]);
  }

  lemma {:induction false} PublishInv(c: Config, s: State)
    requires ValidConfig(c) && Inv(c, s) && s.producer.Publish?
    ensures Inv(c, ProducerNext(c, s))
  {
    var m := s.producer.m;
    SpanBounds(c, m);
    LaidPublish(c, s.mem, s.sent[s.taken..], m);
    var sent' := s.sent + [m];
    assert sent'[s.taken..] == s.sent[s.taken..] + [m];
    assert sent'[..s.taken] == s.sent[..s.taken];
    assert s.taken < |s.sent| ==> sent'[..s.taken + 1] == s.sent[..s.taken + 1];
  }

  lemma {:induction false} TerminateInv(c: Config, s: State)
    requires ValidConfig(c) && Inv(c, s) && s.producer.Terminate?
    ensures Inv(c, ProducerNext(c, s))
  {
    LaidFrame(c, s.mem, s.mem[s.Write() := 0], s.Read(), s.Write(), s.sent[s.taken..]);
  }

  lemma {:induction false} ProducerKeepsInv(c: Config, s: State)
    requires ValidConfig(c) && Inv(c, s)
    ensures Inv(c, ProducerNext(c, s))
  {
    match s.producer
    case Fill(m, _, k) => if k < |Emitted(m)| { FillInv(c, s); } else { FilledInv(c, s); }
    case PutHeader(_) => HeaderInv(c, s);
    case PutPad(_) => PadInv(c, s);
    case Publish(_) => PublishInv(c, s);
    case Terminate => TerminateInv(c, s);
    case _ =>
  }

  /** A smaller backlog keeps every promise busywait_shared has made to the producer. */
  lemma {:induction false} ReadKeepsProducer(c: Config, mem: Memory, p: Producer, n: nat)
    requires |mem| == c.limit && ProducerInv(c, mem, p)
    requires mem[SHARED_WRITE] >= SHARED_START
    requires Avail(c.limit, mem[SHARED_WRITE], n) >= Avail(c.limit, mem[SHARED_WRITE], mem[SHARED_READ])
    ensures ProducerInv(c, mem[SHARED_READ := n], p)
  {
  }

  lemma {:induction false} OldestUnread(c: Config, s: State)
    requires ValidConfig(c) && Inv(c, s) && s.taken < |s.sent|
    ensures var m := s.sent[s.taken..][0];
            && m == s.sent[s.taken]
            && Fits(c, m) && MsgAt(s.mem, s.Read(), m)
            && HeaderWords(Header(m)) == Len(m)
            && s.Read() != s.Write() && s.Read() + Span(m) < |s.mem| && s.Read() + 1 < |s.mem|
  {
    SpanBounds(c, s.sent[s.taken..][0]);
  }

  /** Where READ goes, and what that keeps. */
  lemma {:induction false} AdvanceStores(c: Config, s: State) returns (n: nat)
    requires ValidConfig(c) && Inv(c, s) && s.consumer.Advance?
    ensures ConsumerNext(c, s) == s.Store(SHARED_READ, n).(consumer := Wait, taken := s.taken + 1)
    ensures s.taken < |s.sent| && s.handled == Visible(s.sent[..s.taken + 1]) && Cursor(c, n)
    ensures ProducerInv(c, s.mem[SHARED_READ := n], s.producer)
    ensures Laid(c, s.mem[SHARED_READ := n], n, s.Write(), s.sent[s.taken + 1..])
  {
    var q := s.sent[s.taken..];
    n := Increment(c, s.Read() + Span(q[0]));
    OldestUnread(c, s);
    LaidPop(c, s.mem, s.Read(), s.Write(), q);
    ReadKeepsProducer(c, s.mem, s.producer, n);
    assert s.sent[s.taken + 1..] == q[1..];
  }

  lemma {:induction false} AdvancedInv(c: Config, s: State, n: nat)
    requires ValidConfig(c) && Inv(c, s) && s.taken < |s.sent| && s.handled == Visible(s.sent[..s.taken + 1])
    requires Cursor(c, n) && ProducerInv(c, s.mem[SHARED_READ := n], s.producer)
    requires Laid(c, s.mem[SHARED_READ := n], n, s.Write(), s.sent[s.taken + 1..])
    ensures Inv(c, s.Store(SHARED_READ, n).(consumer := Wait, taken := s.taken + 1))
  {
  }

  lemma {:induction false} AdvanceInv(c: Config, s: State)
    requires ValidConfig(c) && Inv(c, s) && s.consumer.Advance?
    ensures Inv(c, ConsumerNext(c, s))
  {
    var n := AdvanceStores(c, s);
    AdvancedInv(c, s, n);
  }

  /** Until READ moves, the consumer only reads, and what it reads is the oldest unread message. */
  lemma {:induction false} ReadingInv(c: Config, s: State)
    requires ValidConfig(c) && Inv(c, s) && !s.consumer.Advance?
    ensures Inv(c, ConsumerNext(c, s))
  {
    if s.taken < |s.sent| {
      var m := s.sent[s.taken];
      OldestUnread(c, s);
      SpanBounds(c, m);
      assert s.sent[..s.taken + 1][..s.taken] == s.sent[..s.taken];
      if s.consumer.Body? && |s.consumer.got| + 1 >= Len(m) {
        assert s.consumer.got == m.payload;
      }
    } else {
      assert s.sent[s.taken..] == [];
    }
  }

  lemma {:induction false} StepKeepsInv(c: Config, s: State, a: Action)
    requires ValidConfig(c) && Inv(c, s)
    requires a.Start? ==> Fits(c, a.m)
    ensures Inv(c, Step(c, s, a))
  {
    match a
    case Start(m) =>
    case ProducerStep => ProducerKeepsInv(c, s);
    case ConsumerStep =>
      if s.consumer.Advance? { AdvanceInv(c, s); } else { ReadingInv(c, s); }
  }

  /** Every reachable state of every interleaving satisfies the invariant. */
  lemma {:induction false} Reachable(c: Config, acts: seq<Action>)
    requires ValidConfig(c) && Legal(c, acts)
    ensures Inv(c, Run(c, acts))
  {
    if acts == [] {
      InitInv(c);
    } else {
      var n := |acts| - 1;
      assert acts[n] == acts[..][n];
      Reachable(c, acts[..n]);
      StepKeepsInv(c, Run(c, acts[..n]), acts[n]);
    }
  }

  // ----- The main results -----

  /** No producer store touches a word of a published message that is still unread. */
  lemma {:induction false} UnreadWordsUntouched(c: Config, acts: seq<Action>, i: nat)
    requires ValidConfig(c) && Legal(c, acts)
    requires var s := Run(c, acts); i < |s.mem| && Unread(c.limit, s.Read(), s.Write(), i)
    ensures var s := Run(c, acts); |ProducerNext(c, s).mem| == |s.mem| && ProducerNext(c, s).mem[i] == s.mem[i]
  {
    Reachable(c, acts);
    var s := Run(c, acts);
    if s.producer.Fill? || s.producer.PutHeader? || s.producer.PutPad? {
      SpanBounds(c, s.producer.m);
      RoomAhead(c, s.Read(), s.Write(), s.producer.m);
    }
  }

  /** The words of the area that belong to no unread message. */
  function FreeWords(limit: nat, r: nat, w: nat): set<nat> {
    set i: nat | SHARED_START <= i < limit && !Unread(limit, r, w, i)
  }

  predicate Within(lo: nat, hi: nat, i: nat) { lo <= i < hi }

  function Interval(lo: nat, hi: nat): set<nat> {
    set i: nat | i < hi && Within(lo, hi, i)
  }

  lemma {:induction false} IntervalSize(lo: nat, hi: nat)
    requires lo <= hi
    ensures |Interval(lo, hi)| == hi - lo
    decreases hi
  {
    if lo == hi {
      assert Interval(lo, hi) == {};
    } else {
      IntervalSize(lo, hi - 1);
      assert Interval(lo, hi) == Interval(lo, hi - 1) + {hi - 1};
    }
  }

  /** What busywait_shared computes is their number, whichever cursor is ahead. */
  lemma {:induction false} AvailCounts(limit: nat, r: nat, w: nat)
    requires SHARED_START <= r < limit && SHARED_START <= w < limit
    ensures |FreeWords(limit, r, w)| == Avail(limit, w, r)
  {
    if r <= w {
      IntervalSize(SHARED_START, r);
      IntervalSize(w, limit);
      assert FreeWords(limit, r, w) == Interval(SHARED_START, r) + Interval(w, limit);
      assert Interval(SHARED_START, r) !! Interval(w, limit);
    } else {
      IntervalSize(w, r);
      assert FreeWords(limit, r, w) == Interval(w, r);
    }
  }

  /** In every reachable state the wait is over if and only if more than twice the maximum is free, by the WRITE and
      READ that the producer has read; and what it counts is never more than what is free now. */
  lemma {:induction false} WaitCountsFreeWords(c: Config, acts: seq<Action>)
    requires ValidConfig(c) && Legal(c, acts)
    ensures var s := Run(c, acts);
            && |FreeWords(c.limit, s.Read(), s.Write())| == Avail(s.mem[SHARED_LIMIT], s.Write(), s.Read())
            && (s.producer.Check? ==>
                  var p := s.producer;
                  var free := |FreeWords(c.limit, p.r, p.w)|;
                  && free <= |FreeWords(c.limit, s.Read(), s.Write())|
                  && ProducerNext(c, s).producer == if free > 2 * MaxSpan(c) then Fill(p.m, p.base, 0)
                                                    else PollWrite(p.m, p.base))
  {
    Reachable(c, acts);
    var s := Run(c, acts);
    AvailCounts(c.limit, s.Read(), s.Write());
    if s.producer.Check? {
      AvailCounts(c.limit, s.producer.r, s.producer.w);
    }
  }

  /** Every word that event_shared or a handler loads next lies inside the area: the header, the next word of the body,
      and the word that the handler of a method without arguments reads. */
  lemma {:induction false} LoadsInside(c: Config, acts: seq<Action>)
    requires ValidConfig(c) && Legal(c, acts)
    ensures var s := Run(c, acts);
            && (s.consumer.Fetch? ==> SHARED_START <= s.Read() < c.limit == |s.mem|)
            && (s.consumer.Body? ==>
                  && s.Read() + 1 < c.limit == |s.mem|
                  && (|s.consumer.got| + 1 < HeaderWords(s.consumer.hdr) ==> s.Read() + 1 + |s.consumer.got| < c.limit))
  {
    Reachable(c, acts);
    var s := Run(c, acts);
    if s.consumer.Fetch? || s.consumer.Body? {
      OldestUnread(c, s);
    }
  }

  /** In an area of fewer than 2^31 words no `int` or `unsigned` of the code ever overflows: not the cursors, not the
      count of free words, not the bounds it is compared with, and not the sum increment_shared tests. */
  lemma {:induction false} NothingOverflows(c: Config, acts: seq<Action>)
    requires ValidConfig(c) && Legal(c, acts) && c.limit < 0x8000_0000
    ensures var s := Run(c, acts);
            && s.Read() < 0x8000_0000 && s.Write() < 0x8000_0000 && 2 * MaxSpan(c) < 0x8000_0000
            && -0x8000_0000 <= Avail(c.limit, s.Write(), s.Read()) < 0x8000_0000
            && s.Write() + 2 * MaxSpan(c) < 0x1_0000_0000 && s.Read() + 2 * MaxSpan(c) < 0x1_0000_0000
  {
    Reachable(c, acts);
  }

  /** WRITE wraps to START only when READ is beyond START, so a full ring never looks empty. */
  lemma {:induction false} PublishNeverEmpties(c: Config, acts: seq<Action>)
    requires ValidConfig(c) && Legal(c, acts)
    requires Run(c, acts).producer.Publish?
    ensures var s := Run(c, acts); var s' := ProducerNext(c, s);
            s'.Write() != s'.Read() && (s'.Write() == SHARED_START ==> s.Read() > SHARED_START)
  {
    Reachable(c, acts);
    var s := Run(c, acts);
    SpanBounds(c, s.producer.m);
    RoomAhead(c, s.Read(), s.Write(), s.producer.m);
  }

  lemma {:induction false} HandledPrefix(c: Config, s: State)
    requires Inv(c, s)
    ensures s.handled <= Visible(s.sent)
  {
    VisiblePrefix(s.sent[..s.taken], s.sent);
    if s.taken < |s.sent| {
      VisiblePrefix(s.sent[..s.taken + 1], s.sent);
    }
  }

  lemma {:induction false} PublishRefinesFifo(c: Config, s: State)
    requires ValidConfig(c) && s.producer.Publish?
    ensures FifoNext(Abstract(s), Abstract(ProducerNext(c, s)))
  {
    var m := s.producer.m;
    assert (s.sent + [m])[..|s.sent|] == s.sent;
    if m.channel != SKIP_CHANNEL {
      assert Abstract(ProducerNext(c, s)) == Abstract(s).(sent := Visible(s.sent) + [m]);
    }
  }

  lemma {:induction false} ConsumerRefinesFifo(c: Config, s: State)
    requires ValidConfig(c) && Inv(c, s)
    ensures FifoNext(Abstract(s), Abstract(ConsumerNext(c, s)))
  {
    var s' := ConsumerNext(c, s);
    StepKeepsInv(c, s, ConsumerStep);
    HandledPrefix(c, s');
    assert s'.sent == s.sent;
  }

  /** Every step of either process is a step of the abstract queue or leaves it unchanged. */
  lemma {:induction false} StepRefinesFifo(c: Config, s: State, a: Action)
    requires ValidConfig(c) && Inv(c, s)
    ensures FifoNext(Abstract(s), Abstract(Step(c, s, a)))
  {
    if a.ConsumerStep? {
      ConsumerRefinesFifo(c, s);
    } else if a.ProducerStep? && s.producer.Publish? {
      PublishRefinesFifo(c, s);
    }
  }

  /** The ring refines a FIFO: along every interleaving, the messages handed to the handler are a
      prefix of the messages sent, in order and word for word. */
  lemma {:induction false} RingRefinesFifo(c: Config, acts: seq<Action>)
    requires ValidConfig(c) && Legal(c, acts)
    ensures FifoInit(Abstract(Run(c, [])))
    ensures forall n :: 0 <= n < |acts| ==> FifoNext(Abstract(Run(c, acts[..n])), Abstract(Run(c, acts[..n + 1])))
    ensures Run(c, acts).handled <= Visible(Run(c, acts).sent)
    ensures !Run(c, acts).fault
  {
    forall n | 0 <= n < |acts|
      ensures FifoNext(Abstract(Run(c, acts[..n])), Abstract(Run(c, acts[..n + 1])))
    {
      assert acts[..n + 1][..n] == acts[..n];
      Reachable(c, acts[..n]);
      StepRefinesFifo(c, Run(c, acts[..n]), acts[n]);
    }
    Reachable(c, acts);
    HandledPrefix(c, Run(c, acts));
  }

  // ----- Draining the ring -----

  /** One whole call of event_shared, with no producer step in between. */
  function Event(c: Config, s: State): State {
    if s.Read() == s.Write() || s.Read() >= |s.mem| then s
    else
      var hdr := s.mem[s.Read()];
      var n := HeaderWords(hdr);
      if n < 1 || s.Read() + n > |s.mem| then s
      else
        s.(mem := s.mem[SHARED_READ := Increment(c, s.Read() + EvenUp16(n))],
           taken := s.taken + 1,
           handled := if HeaderChannel(hdr) == SKIP_CHANNEL then s.handled
                      else s.handled + [Msg(HeaderChannel(hdr), s.mem[s.Read() + 1..s.Read() + n])])
  }

  function Consume(c: Config, s: State, n: nat): State
    decreases n
  {
    if n == 0 then s else Consume(c, ConsumerNext(c, s), n - 1)
  }

  /** The shared accesses of one event_shared call on message `m`. */
  function EventCost(m: Msg): nat {
    if m.channel == SKIP_CHANNEL then 3 else 4 + |m.payload|
  }

  lemma {:induction false} ConsumeBody(c: Config, s: State, hdr: nat, k: nat)
    requires 1 <= HeaderWords(hdr) && s.Read() + HeaderWords(hdr) <= |s.mem| && s.Read() + 1 < |s.mem|
    requires k < HeaderWords(hdr)
    requires s.consumer == Body(hdr, s.mem[s.Read() + 1..s.Read() + 1 + k])
    ensures Consume(c, s, HeaderWords(hdr) - k)
            == s.(consumer := Advance(hdr),
                  handled := s.handled + [Msg(HeaderChannel(hdr), s.mem[s.Read() + 1..s.Read() + HeaderWords(hdr)])])
    decreases HeaderWords(hdr) - k
  {
    var s' := ConsumerNext(c, s);
    if k + 1 < HeaderWords(hdr) {
      assert s'.consumer.got == s.mem[s.Read() + 1..s.Read() + 2 + k];
      ConsumeBody(c, s', hdr, k + 1);
    } else {
      assert Consume(c, s, 1) == Consume(c, s', 0);
    }
  }

  lemma {:induction false} ConsumeSplit(c: Config, s: State, a: nat, b: nat)
    ensures Consume(c, s, a + b) == Consume(c, Consume(c, s, a), b)
    decreases a
  {
    if a > 0 {
      ConsumeSplit(c, ConsumerNext(c, s), a - 1, b);
    }
  }

  lemma {:induction false} EventOpens(c: Config, s: State, n: nat)
    requires s.Read() != s.Write() && s.Read() < |s.mem| && s.consumer.Wait?
    requires HeaderChannel(s.mem[s.Read()]) != SKIP_CHANNEL
    ensures Consume(c, s, n + 2) == Consume(c, s.(consumer := Body(s.mem[s.Read()], [])), n)
  {
    var s1 := s.(consumer := Fetch);
    assert Consume(c, s, n + 2) == Consume(c, s1, n + 1) == Consume(c, ConsumerNext(c, s1), n);
  }

  lemma {:induction false} ConsumeOne(c: Config, s: State)
    ensures Consume(c, s, 1) == ConsumerNext(c, s)
  {
    assert Consume(c, s, 1) == Consume(c, ConsumerNext(c, s), 0);
  }

  lemma {:induction false} EventCloses(c: Config, s: State, m: Msg)
    requires MsgAt(s.mem, s.Read(), m) && s.Read() != s.Write() && s.consumer.Wait?
    requires HeaderWords(Header(m)) == Len(m) && HeaderChannel(Header(m)) == m.channel
    requires m.channel != SKIP_CHANNEL
    ensures Event(c, s) == ConsumerNext(c, s.(consumer := Advance(Header(m)),
                handled := s.handled + [Msg(m.channel, s.mem[s.Read() + 1..s.Read() + Len(m)])]))
  {
  }

  lemma {:induction false} ConsumeThen(c: Config, s: State, s2: State, s3: State, n: nat)
    requires Consume(c, s, n + 1 + 2) == Consume(c, s2, n + 1) && Consume(c, s2, n) == s3
    ensures Consume(c, s, n + 3) == ConsumerNext(c, s3)
  {
    ConsumeSplit(c, s2, n, 1);
    ConsumeOne(c, s3);
  }

  lemma {:induction false} EventBody(c: Config, s: State, s': State, m: Msg)
    requires MsgAt(s.mem, s.Read(), m) && s.Read() + 1 < |s.mem| && s.consumer == Body(Header(m), [])
    requires HeaderWords(Header(m)) == Len(m) && HeaderChannel(Header(m)) == m.channel
    requires s' == s.(consumer := Advance(Header(m)),
                      handled := s.handled + [Msg(m.channel, s.mem[s.Read() + 1..s.Read() + Len(m)])])
    ensures Consume(c, s, Len(m)) == s'
  {
    assert s.mem[s.Read() + 1..s.Read() + 1] == [];
    ConsumeBody(c, s, Header(m), 0);
  }

  lemma {:induction false} EventSteps(c: Config, s: State, m: Msg)
    requires MsgAt(s.mem, s.Read(), m) && s.Read() != s.Write() && s.consumer.Wait? && s.Read() + 1 < |s.mem|
    requires HeaderWords(Header(m)) == Len(m) && HeaderChannel(Header(m)) == m.channel
    requires m.channel != SKIP_CHANNEL
    ensures Consume(c, s, EventCost(m)) == Event(c, s)
  {
    EventOpens(c, s, Len(m) + 1);
    var s2 := s.(consumer := Body(Header(m), []));
    var s3 := s.(consumer := Advance(Header(m)),
                 handled := s.handled + [Msg(m.channel, s.mem[s.Read() + 1..s.Read() + Len(m)])]);
    EventBody(c, s2, s3, m);
    ConsumeThen(c, s, s2, s3, Len(m));
    EventCloses(c, s, m);
  }

  /** Run without interruption, the consumer's atomic steps amount to one `Event`. */
  lemma {:induction false} EventIsSteps(c: Config, s: State)
    requires ValidConfig(c) && Inv(c, s) && s.consumer.Wait? && s.taken < |s.sent|
    ensures Consume(c, s, EventCost(s.sent[s.taken])) == Event(c, s)
  {
    OldestUnread(c, s);
    var m := s.sent[s.taken];
    SpanBounds(c, m);
    if m.channel == SKIP_CHANNEL {
      var s1 := s.(consumer := Fetch);
      var s2 := s.(consumer := Advance(Header(m)));
      assert Consume(c, s, 3) == Consume(c, s1, 2) == Consume(c, s2, 1) == Consume(c, ConsumerNext(c, s2), 0);
    } else {
      EventSteps(c, s, m);
    }
  }

  lemma {:induction false} EventInv(c: Config, s: State)
    requires ValidConfig(c) && Inv(c, s) && s.consumer.Wait? && s.taken < |s.sent|
    ensures s.Read() != s.Write()
    ensures var s' := Event(c, s);
            Inv(c, s') && s'.consumer.Wait? && s'.taken == s.taken + 1 && s'.sent == s.sent && s'.Write() == s.Write()
  {
    OldestUnread(c, s);
    EventIsSteps(c, s);
    ConsumeInv(c, s, EventCost(s.sent[s.taken]));
  }

  lemma {:induction false} ConsumeInv(c: Config, s: State, n: nat)
    requires ValidConfig(c) && Inv(c, s)
    ensures Inv(c, Consume(c, s, n))
    decreases n
  {
    if n > 0 {
      StepKeepsInv(c, s, ConsumerStep);
      ConsumeInv(c, ConsumerNext(c, s), n - 1);
    }
  }

  function Events(c: Config, s: State, n: nat): State {
    if n == 0 then s else Event(c, Events(c, s, n - 1))
  }

  lemma {:induction false} EventsInv(c: Config, s: State, n: nat)
    requires ValidConfig(c) && Inv(c, s) && s.consumer.Wait? && s.taken + n <= |s.sent|
    ensures var s' := Events(c, s, n);
            Inv(c, s') && s'.consumer.Wait? && s'.taken == s.taken + n && s'.sent == s.sent && s'.Write() == s.Write()
  {
    if n > 0 {
      EventsInv(c, s, n - 1);
      EventInv(c, Events(c, s, n - 1));
    }
  }

  /** The shared accesses that the event_shared call in progress, if any, has still to make. */
  function CallLeft(s: State): nat
    requires !s.consumer.Wait? ==> s.taken < |s.sent|
  {
    match s.consumer
    case Wait => 0
    case Fetch => EventCost(s.sent[s.taken]) - 1
    case Body(_, got) => if |got| <= |s.sent[s.taken].payload| then |s.sent[s.taken].payload| - |got| + 2 else 0
    case Advance(_) => 1
  }

  lemma {:induction false} OneLess(c: Config, s: State)
    requires ValidConfig(c) && Inv(c, s) && !s.consumer.Wait?
    ensures var s' := ConsumerNext(c, s);
            && s'.sent == s.sent && s'.Write() == s.Write() && s'.producer == s.producer
            && (if s'.consumer.Wait? then s'.taken == s.taken + 1 else s'.taken == s.taken)
            && CallLeft(s) == CallLeft(s') + 1
  {
    OldestUnread(c, s);
    SpanBounds(c, s.sent[s.taken]);
  }

  /** The state once the call in progress is over. */
  function Settled(c: Config, s: State): State
    requires !s.consumer.Wait? ==> s.taken < |s.sent|
  {
    Consume(c, s, CallLeft(s))
  }

  /** `s'` is at rest, and has taken the message that `s` was busy with, if any, and nothing else. */
  predicate AtRestAfter(c: Config, s: State, s': State) {
    && Inv(c, s') && s'.consumer.Wait? && s'.sent == s.sent && s'.Write() == s.Write()
    && s'.taken == s.taken + if s.consumer.Wait? then 0 else 1
  }

  lemma {:induction false} SettledStep(c: Config, s: State)
    requires ValidConfig(c) && Inv(c, s) && !s.consumer.Wait?
    ensures var s1 := ConsumerNext(c, s);
            && (!s1.consumer.Wait? ==> s1.taken < |s1.sent|) && CallLeft(s1) < CallLeft(s)
            && Settled(c, s) == Settled(c, s1)
            && forall s' :: AtRestAfter(c, s1, s') ==> AtRestAfter(c, s, s')
  {
    OneLess(c, s);
  }

  lemma {:induction false} SettledInv(c: Config, s: State)
    requires ValidConfig(c) && Inv(c, s)
    ensures AtRestAfter(c, s, Settled(c, s))
    decreases CallLeft(s)
  {
    if !s.consumer.Wait? {
      SettledStep(c, s);
      StepKeepsInv(c, s, ConsumerStep);
      SettledInv(c, ConsumerNext(c, s));
    }
  }

  /** From every reachable state, once the event_shared call in progress is over, READ meets WRITE after exactly as
      many further calls as there are unread messages, every message has then been handed on, and the producer's wait
      succeeds, wherever the cursors are, exactly when the area exceeds two largest messages. */
  lemma {:induction false} Drain(c: Config, acts: seq<Action>, n: nat)
    requires ValidConfig(c) && Legal(c, acts)
    ensures var s := Run(c, acts);
            && (!s.consumer.Wait? ==> s.taken < |s.sent|)
            && var s0 := Settled(c, s); var s' := Events(c, s0, n);
               s0.taken + n <= |s.sent| ==>
                 && (s'.Read() == s'.Write() <==> s0.taken + n == |s.sent|)
                 && (s0.taken + n == |s.sent| ==> s'.handled == Visible(s.sent))
                 && (s0.taken + n == |s.sent| ==>
                       (Avail(s'.mem[SHARED_LIMIT], s'.Write(), s'.Read()) > 2 * MaxSpan(c) <==>
                         c.limit > 2 * MaxSpan(c) + 4))
  {
    Reachable(c, acts);
    var s := Run(c, acts);
    SettledInv(c, s);
    var s0 := Settled(c, s);
    if s0.taken + n <= |s.sent| {
      DrainSettled(c, s0, n);
    }
  }

  lemma {:induction false} DrainSettled(c: Config, s: State, n: nat)
    requires ValidConfig(c) && Inv(c, s) && s.consumer.Wait? && s.taken + n <= |s.sent|
    ensures var s' := Events(c, s, n);
            && (s'.Read() == s'.Write() <==> s.taken + n == |s.sent|)
            && (s.taken + n == |s.sent| ==> s'.handled == Visible(s.sent))
            && (s.taken + n == |s.sent| ==>
                  (Avail(s'.mem[SHARED_LIMIT], s'.Write(), s'.Read()) > 2 * MaxSpan(c) <==>
                    c.limit > 2 * MaxSpan(c) + 4))
  {
    EventsInv(c, s, n);
    var s' := Events(c, s, n);
    if s'.taken < |s'.sent| {
      EventInv(c, s');
    } else {
      assert s'.sent[s'.taken..] == [];
      assert s'.sent[..s'.taken] == s'.sent;
    }
  }
}
