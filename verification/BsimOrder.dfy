/**
 What crosses the sockets of the simulator's protocol, in which order, and that it does get across: the requests
 of a client reach the hardware once each in the order of the client's calls, the interrupt levels reach every
 accepted client in the order they were set, and no read waits for ever on a server that keeps being polled.
 */
module BsimOrder {
  import opened Options
  import opened Bsim

  /** The slot is that of a connected client, and the read that is being answered is for one of its portals. */
  predicate SlotSound(s: State) {
    && (s.srv.head.valid ==> s.srv.head.sock in s.clients)
    && (s.pending.Some? ==>
          s.srv.head.valid && !s.srv.head.inflight && s.srv.respPortal != MAGIC_PORTAL_FOR_SENDING_INTERRUPT)
  }

  lemma {:induction false} SlotIsSound(acts: seq<Action>)
    requires Legal(acts)
    ensures SlotSound(Run(acts))
  {
    Reachable(acts);
    var s := Run(acts);
    if s.pending.Some? {
      assert ClientInv(s, s.srv.head.sock);
    }
  }

  // ----- Sockets -----

  /** The clients that have connected. */
  function Connected(acts: seq<Action>): set<nat> {
    if acts == [] then {}
    else Connected(acts[..|acts| - 1]) + if acts[|acts| - 1].Connect? then {acts[|acts| - 1].c} else {}
  }

  /** The clients that have been accepted, in that order: each once, and after it connected. */
  function Accepted(acts: seq<Action>): seq<nat> {
    if acts == [] then []
    else
      var n := |acts| - 1;
      var before, a := Accepted(acts[..n]), acts[n];
      if a.Accept? && a.c in Connected(acts[..n]) && a.c !in before then before + [a.c] else before
  }

  lemma {:induction false} SocketsStep(s: State, a: Action)
    requires !a.Connect? && !a.Accept?
    ensures Step(s, a).clients.Keys == s.clients.Keys && Step(s, a).srv.fds == s.srv.fds
  {
    if a.HwCheck? {
      var i := FirstOrNone(s.srv);
      CheckTakesFirst(s.srv);
    }
  }

  /** The server's array holds the sockets it has accepted, in that order. */
  lemma {:induction false} ArrayInOrder(acts: seq<Action>)
    ensures Run(acts).clients.Keys == Connected(acts) && Run(acts).srv.fds == Accepted(acts)
  {
    if acts != [] {
      var n := |acts| - 1;
      var s, a := Run(acts[..n]), acts[n];
      ArrayInOrder(acts[..n]);
      if !a.Connect? && !a.Accept? {
        SocketsStep(s, a);
      } else if a.Connect? {
        assert Step(s, a).clients.Keys == s.clients.Keys + {a.c};
      }
    }
  }

  // ----- Requests -----

  /** One call of read_portal_bsim or write_portal_bsim as the hardware gets it. */
  datatype Call = Call(write: bool, portal: nat, addr: nat, dataOrTag: nat)

  function AsCall(r: Request): Call {
    Call(r.write, r.portal, r.addr, r.dataOrTag)
  }

  function Calls(q: seq<Request>): seq<Call> {
    seq(|q|, i requires 0 <= i < |q| => AsCall(q[i]))
  }

  function ReadsAmong(calls: seq<Call>): nat {
    if calls == [] then 0
    else ReadsAmong(calls[..|calls| - 1]) + if calls[|calls| - 1].write then 0 else 1
  }

  /** The call client `c` makes in step `a`, after `n` reads: a write always, a read only when no other is under way. */
  function MadeBy(s: State, a: Action, c: nat, n: nat): seq<Call> {
    match a
    case WritePortal(k, portal, addr, v) => if k == c && c in s.clients then [Call(true, portal, addr, v)] else []
    case ReadPortal(k, portal, addr) =>
      if k == c && c in s.clients && s.clients[c].owner.Free? then [Call(false, portal, addr, n % 0x1_0000_0000)]
      else []
    case _ => []
  }

  /** The calls client `c` has made. */
  function Made(acts: seq<Action>, c: nat): seq<Call> {
    if acts == [] then []
    else
      var n := |acts| - 1;
      var before := Made(acts[..n], c);
      before + MadeBy(Run(acts[..n]), acts[n], c, ReadsAmong(before))
  }

  /** What the hardware gets of client `c` in step `a`. */
  function FetchedBy(s: State, a: Action, c: nat): seq<Call> {
    if a.HwFetch? && HasRequest(s.srv, a.rr) && s.srv.head.sock == c then
      [Call(a.rr, s.srv.head.req.portal, s.srv.head.req.addr, s.srv.head.req.dataOrTag)]
    else []
  }

  /** What the hardware has got of client `c`. */
  function Fetched(acts: seq<Action>, c: nat): seq<Call> {
    if acts == [] then []
    else Fetched(acts[..|acts| - 1], c) + FetchedBy(Run(acts[..|acts| - 1]), acts[|acts| - 1], c)
  }

  /** The request of client `c` that is in the server's slot and has not been fetched. */
  function InSlot(s: Server, c: nat): seq<Call> {
    if s.head.valid && s.head.inflight && s.head.sock == c then [AsCall(s.head.req)] else []
  }

  /** The calls made are those fetched, the one in the slot and those on their way, in that order. */
  predicate Passing(s: State, c: nat, made: seq<Call>, fetched: seq<Call>) {
    if c in s.clients then
      && c in s.srv.up && made == fetched + InSlot(s.srv, c) + Calls(s.srv.up[c])
      && s.clients[c].tagCounter == ReadsAmong(made) % 0x1_0000_0000
    else made == [] && fetched == []
  }

  lemma {:induction false} OneMore(made: seq<Call>, passed: seq<Call>, q: seq<Request>, r: Request)
    requires made == passed + Calls(q)
    ensures made + [AsCall(r)] == passed + Calls(q + [r])
    ensures ReadsAmong(made + [AsCall(r)]) == ReadsAmong(made) + if r.write then 0 else 1
  {
    assert Calls(q + [r]) == Calls(q) + [AsCall(r)];
    assert (made + [AsCall(r)])[..|made|] == made;
  }

  lemma {:induction false} PassingWrite(s: State, a: Action, c: nat, made: seq<Call>, fetched: seq<Call>)
    requires SlotSound(s) && Passing(s, c, made, fetched) && a.WritePortal? && a.c == c
    ensures Passing(Step(s, a), c, made + MadeBy(s, a, c, ReadsAmong(made)), fetched)
  {
    if c in s.clients {
      var q := s.srv.up[c];
      var r := Request(a.portal, true, a.addr, a.v, 0);
      OneMore(made, fetched + InSlot(s.srv, c), q, r);
    }
  }

  lemma {:induction false} PassingRead(s: State, a: Action, c: nat, made: seq<Call>, fetched: seq<Call>)
    requires SlotSound(s) && Passing(s, c, made, fetched) && a.ReadPortal? && a.c == c
    ensures Passing(Step(s, a), c, made + MadeBy(s, a, c, ReadsAmong(made)), fetched)
  {
    if c in s.clients && s.clients[c].owner.Free? {
      var q := s.srv.up[c];
      var r := Request(a.portal, false, a.addr, s.clients[c].tagCounter, s.next);
      OneMore(made, fetched + InSlot(s.srv, c), q, r);
    }
  }

  lemma {:induction false} PassingCheck(s: State, c: nat, made: seq<Call>, fetched: seq<Call>)
    requires SlotSound(s) && Passing(s, c, made, fetched)
    ensures Passing(Step(s, HwCheck), c, made, fetched)
  {
    var i := FirstOrNone(s.srv);
    CheckTakesFirst(s.srv);
    if !s.srv.head.valid && FirstWaiting(s.srv, i) && s.srv.fds[i] == c {
      var q := s.srv.up[c];
      assert Calls(q) == [AsCall(q[0])] + Calls(q[1..]);
    }
  }

  lemma {:induction false} PassingFetch(s: State, a: Action, c: nat, made: seq<Call>, fetched: seq<Call>)
    requires SlotSound(s) && Passing(s, c, made, fetched) && a.HwFetch?
    ensures Passing(Step(s, a), c, made, fetched + FetchedBy(s, a, c))
  {
  }

  lemma {:induction false} PassingOther(s: State, a: Action, c: nat, made: seq<Call>, fetched: seq<Call>)
    requires SlotSound(s) && Passing(s, c, made, fetched) && !a.HwFetch? && !a.HwCheck?
    requires (a.WritePortal? || a.ReadPortal?) ==> a.c != c
    ensures Passing(Step(s, a), c, made, fetched)
  {
  }

  lemma {:induction false} PassingStep(s: State, a: Action, c: nat, made: seq<Call>, fetched: seq<Call>)
    requires SlotSound(s) && Passing(s, c, made, fetched)
    ensures Passing(Step(s, a), c, made + MadeBy(s, a, c, ReadsAmong(made)), fetched + FetchedBy(s, a, c))
  {
    assert made + [] == made && fetched + [] == fetched;
    if a.HwCheck? {
      PassingCheck(s, c, made, fetched);
    } else if a.HwFetch? {
      PassingFetch(s, a, c, made, fetched);
    } else if a.WritePortal? && a.c == c {
      PassingWrite(s, a, c, made, fetched);
    } else if a.ReadPortal? && a.c == c {
      PassingRead(s, a, c, made, fetched);
    } else {
      PassingOther(s, a, c, made, fetched);
    }
  }

  /** Every write and every read of a client reaches the hardware once, in the order of the client's calls, with its
      own portal, address and data, and with the number of the read as its tag; what has not is still on its way. */
  lemma {:induction false} RequestsArriveInOrder(acts: seq<Action>, c: nat)
    requires Legal(acts)
    ensures Passing(Run(acts), c, Made(acts, c), Fetched(acts, c))
  {
    if acts != [] {
      var n := |acts| - 1;
      assert acts[n] == acts[..][n];
      RequestsArriveInOrder(acts[..n], c);
      SlotIsSound(acts[..n]);
      PassingStep(Run(acts[..n]), acts[n], c, Made(acts[..n], c), Fetched(acts[..n], c));
    }
  }

  // ----- Interrupt levels -----

  /** The levels among the messages under way to a client. */
  function Levels(q: seq<Response>): seq<nat> {
    if q == [] then []
    else if q[0].portal == MAGIC_PORTAL_FOR_SENDING_INTERRUPT then [q[0].data] + Levels(q[1..])
    else Levels(q[1..])
  }

  lemma {:induction false} LevelsAppend(q: seq<Response>, r: Response)
    ensures Levels(q + [r]) == Levels(q) + if r.portal == MAGIC_PORTAL_FOR_SENDING_INTERRUPT then [r.data] else []
    decreases |q|
  {
    if q == [] {
      assert q + [r] == [r] && [r][1..] == [];
    } else {
      assert (q + [r])[1..] == q[1..] + [r];
      LevelsAppend(q[1..], r);
    }
  }

  function Last(first: nat, xs: seq<nat>): nat {
    if xs == [] then first else xs[|xs| - 1]
  }

  /** The level the hardware last set. */
  function LevelSet(acts: seq<Action>): nat {
    if acts == [] then 0
    else if acts[|acts| - 1].HwInterrupt? then acts[|acts| - 1].ivalue
    else LevelSet(acts[..|acts| - 1])
  }

  /** The level sent to client `c` in step `a`, `level` being the one last set: a change, once `c` is accepted. */
  function SentBy(s: State, a: Action, c: nat, level: nat): seq<nat> {
    if a.HwInterrupt? && a.ivalue != level && c in s.srv.fds then [a.ivalue] else []
  }

  function Sent(acts: seq<Action>, c: nat): seq<nat> {
    if acts == [] then []
    else
      var n := |acts| - 1;
      Sent(acts[..n], c) + SentBy(Run(acts[..n]), acts[n], c, LevelSet(acts[..n]))
  }

  /** A client has seen all of `sent` but the levels still coming, which are the last ones, in order; it holds the
      last it has seen. */
  predicate Told(coming: seq<nat>, held: nat, sent: seq<nat>) {
    && |coming| <= |sent| && coming == sent[|sent| - |coming|..]
    && held == Last(0, sent[..|sent| - |coming|])
  }

  lemma {:induction false} ToldMore(coming: seq<nat>, held: nat, sent: seq<nat>, v: nat)
    requires Told(coming, held, sent)
    ensures Told(coming + [v], held, sent + [v])
  {
    var n := |sent| - |coming|;
    assert (sent + [v])[n..] == sent[n..] + [v];
    assert (sent + [v])[..n] == sent[..n];
  }

  lemma {:induction false} ToldOne(coming: seq<nat>, held: nat, sent: seq<nat>)
    requires Told(coming, held, sent) && coming != []
    ensures Told(coming[1..], coming[0], sent)
  {
    var n := |sent| - |coming|;
    assert sent[n] == sent[n..][0] && sent[n + 1..] == sent[n..][1..];
    assert sent[..n + 1] == sent[..n] + [sent[n]];
  }

  predicate LevelsInv(s: State, c: nat, sent: seq<nat>, level: nat) {
    && s.srv.level == level
    && multiset(s.srv.fds)[c] <= 1 && (c in s.srv.fds ==> c in s.clients)
    && (if c in s.clients then c in s.srv.down && Told(Levels(s.srv.down[c]), s.clients[c].interruptValue, sent)
        else sent == [])
    && (sent != [] ==> c in s.srv.fds && Last(0, sent) == level)
  }

  lemma {:induction false} LevelsPoll(s: State, c: nat, sent: seq<nat>, level: nat)
    requires LevelsInv(s, c, sent, level) && c in s.clients
    ensures LevelsInv(Poll(s, c), c, sent, level)
  {
    var k, q := s.clients[c], s.srv.down[c];
    if !k.responseValid && q != [] && q[0].portal == MAGIC_PORTAL_FOR_SENDING_INTERRUPT {
      assert Levels(q)[0] == q[0].data && Levels(q)[1..] == Levels(q[1..]);
      ToldOne(Levels(q), k.interruptValue, sent);
    }
  }

  lemma {:induction false} LevelsAnswer(s: State, data: nat, c: nat, sent: seq<nat>, level: nat)
    requires SlotSound(s) && LevelsInv(s, c, sent, level)
    ensures LevelsInv(Step(s, HwAnswer(data)), c, sent, level)
  {
    if s.pending.Some? && c == s.srv.head.sock {
      var r := s.pending.value;
      LevelsAppend(s.srv.down[c], Response(s.srv.respPortal, data, r.dataOrTag, r.uid));
    }
  }

  lemma {:induction false} LevelsInterrupt(s: State, a: Action, c: nat, sent: seq<nat>, level: nat)
    requires LevelsInv(s, c, sent, level) && a.HwInterrupt?
    ensures LevelsInv(Step(s, a), c, sent + SentBy(s, a, c, level), a.ivalue)
  {
    var r := Response(MAGIC_PORTAL_FOR_SENDING_INTERRUPT, a.ivalue, 0, 0);
    assert sent + [] == sent;
    if c in s.clients && a.ivalue != level {
      BroadcastCopies(s.srv.down, s.srv.fds, r, c);
      var q := s.srv.down[c];
      if c in s.srv.fds {
        assert Copies(r, 1) == [r];
        LevelsAppend(q, r);
        ToldMore(Levels(q), s.clients[c].interruptValue, sent, a.ivalue);
      } else {
        assert q + Copies(r, 0) == q;
      }
    }
  }

  lemma {:induction false} LevelsAccept(s: State, k: nat, c: nat, sent: seq<nat>, level: nat)
    requires LevelsInv(s, c, sent, level)
    ensures LevelsInv(Step(s, Accept(k)), c, sent, level)
  {
  }

  lemma {:induction false} LevelsStep(s: State, a: Action, c: nat, sent: seq<nat>, level: nat)
    requires SlotSound(s) && LevelsInv(s, c, sent, level)
    ensures LevelsInv(Step(s, a), c, sent + SentBy(s, a, c, level), if a.HwInterrupt? then a.ivalue else level)
  {
    assert sent + [] == sent;
    match a
    case HwInterrupt(_) => LevelsInterrupt(s, a, c, sent, level);
    case HwAnswer(data) => LevelsAnswer(s, data, c, sent, level);
    case Accept(k) => LevelsAccept(s, k, c, sent, level);
    case HwCheck =>
      var i := FirstOrNone(s.srv);
      CheckTakesFirst(s.srv);
    case PollResponse(k) => if k == c && c in s.clients { LevelsPoll(s, c, sent, level); }
    case PollInterrupt(k) => if k == c && c in s.clients { LevelsPoll(s, c, sent, level); }
    case _ =>
  }

  /** Every change of the interrupt level after a client was accepted reaches it, once and in order. */
  lemma {:induction false} LevelsArriveInOrder(acts: seq<Action>, c: nat)
    requires Legal(acts)
    ensures LevelsInv(Run(acts), c, Sent(acts, c), LevelSet(acts))
  {
    if acts != [] {
      var n := |acts| - 1;
      assert acts[n] == acts[..][n];
      LevelsArriveInOrder(acts[..n], c);
      SlotIsSound(acts[..n]);
      LevelsStep(Run(acts[..n]), acts[n], c, Sent(acts[..n], c), LevelSet(acts[..n]));
    }
  }

  /** A client with no level under way holds the level last set if and only if that is 0 or it changed since the
      client was accepted: nobody tells a client that joins late. */
  lemma {:induction false} HoldsLevelIff(acts: seq<Action>, c: nat)
    requires Legal(acts) && c in Run(acts).clients && c in Run(acts).srv.down
    requires Levels(Run(acts).srv.down[c]) == []
    ensures Run(acts).clients[c].interruptValue == LevelSet(acts) <==> Sent(acts, c) != [] || LevelSet(acts) == 0
  {
    LevelsArriveInOrder(acts, c);
    var sent := Sent(acts, c);
    assert sent[..|sent|] == sent;
  }

  // ----- No read waits for ever -----

  /** The state after `acts` from `s` on. */
  function After(s: State, acts: seq<Action>): State
    decreases |acts|
  {
    if acts == [] then s else After(Step(s, acts[0]), acts[1..])
  }

  lemma {:induction false} AfterAppend(s: State, a: seq<Action>, b: seq<Action>)
    ensures After(s, a + b) == After(After(s, a), b)
    decreases |a|
  {
    if a == [] {
      assert a + b == b;
    } else {
      assert (a + b)[1..] == a[1..] + b;
      AfterAppend(Step(s, a[0]), a[1..], b);
    }
  }

  lemma {:induction false} RunAfter(acts: seq<Action>, more: seq<Action>)
    ensures Run(acts + more) == After(Run(acts), more)
    decreases |more|
  {
    if more == [] {
      assert acts + more == acts;
    } else {
      var all := acts + [more[0]];
      assert all[..|acts|] == acts;
      assert all + more[1..] == acts + more;
      RunAfter(all, more[1..]);
    }
  }

  /** The hardware asks for a request, fetches it whatever its kind, and answers it if it is a read. */
  function Round(data: nat): seq<Action> {
    [HwCheck, HwFetch(true), HwFetch(false), HwAnswer(data)]
  }

  /** What the accepted sockets hold. */
  function Load(up: map<nat, seq<Request>>, fds: seq<nat>): nat {
    if fds == [] then 0 else (if fds[0] in up then |up[fds[0]]| else 0) + Load(up, fds[1..])
  }

  lemma {:induction false} LoadDrops(up: map<nat, seq<Request>>, fds: seq<nat>, c: nat)
    requires c in up && up[c] != []
    ensures Load(up[c := up[c][1..]], fds) <= Load(up, fds)
    ensures c in fds ==> Load(up[c := up[c][1..]], fds) < Load(up, fds)
    decreases |fds|
  {
    if fds != [] {
      LoadDrops(up, fds[1..], c);
    }
  }

  lemma {:induction false} FetchInvs(s: State, data: nat)
    requires Inv(s)
    ensures Inv(Step(Step(Step(s, HwFetch(true)), HwFetch(false)), HwAnswer(data)))
  {
    var s1 := Step(s, HwFetch(true));
    StepInv(s, HwFetch(true));
    var s2 := Step(s1, HwFetch(false));
    StepInv(s1, HwFetch(false));
    StepInv(s2, HwAnswer(data));
  }

  /** A fetched request of either kind frees the slot, a read when it has been answered. */
  lemma {:induction false} FetchFrees(s: State, data: nat)
    requires ServerInv(s)
    ensures var t := Step(Step(Step(s, HwFetch(true)), HwFetch(false)), HwAnswer(data));
            !t.srv.head.valid && t.clients == s.clients && t.srv.fds == s.srv.fds && t.srv.up == s.srv.up
  {
  }

  lemma {:induction false} RoundSteps(s: State, data: nat)
    ensures After(s, Round(data)) == Step(Step(Step(Step(s, HwCheck), HwFetch(true)), HwFetch(false)), HwAnswer(data))
  {
    var s1 := Step(s, HwCheck);
    var s2 := Step(s1, HwFetch(true));
    var s3 := Step(s2, HwFetch(false));
    var acts := Round(data);
    assert acts[1..] == [HwFetch(true), HwFetch(false), HwAnswer(data)];
    assert acts[1..][1..] == [HwFetch(false), HwAnswer(data)];
    assert acts[1..][1..][1..] == [HwAnswer(data)];
    assert After(s3, [HwAnswer(data)]) == Step(s3, HwAnswer(data));
    assert After(s2, acts[1..][1..]) == After(s3, [HwAnswer(data)]);
  }

  /** A round leaves the slot free, and takes a request if the slot was free and some accepted socket had one. */
  lemma {:induction false} RoundTakes(s: State, data: nat)
    requires Inv(s)
    ensures var t := After(s, Round(data));
            && Inv(t) && !t.srv.head.valid && t.clients == s.clients && t.srv.fds == s.srv.fds
            && Load(t.srv.up, t.srv.fds) <= Load(s.srv.up, s.srv.fds)
            && (s.srv.head.valid || NoneWaiting(s.srv) || Load(t.srv.up, t.srv.fds) < Load(s.srv.up, s.srv.fds))
  {
    var s1 := Step(s, HwCheck);
    StepInv(s, HwCheck);
    FetchInvs(s1, data);
    FetchFrees(s1, data);
    RoundSteps(s, data);
    var i := FirstOrNone(s.srv);
    CheckTakesFirst(s.srv);
    if !s.srv.head.valid && FirstWaiting(s.srv, i) {
      LoadDrops(s.srv.up, s.srv.fds, s.srv.fds[i]);
    }
  }

  /** The steps of the hardware, and the polling and the return of the read client `c` has under way. */
  predicate Serves(a: Action, c: nat) {
    a.HwCheck? || a.HwFetch? || a.HwAnswer? || (a.PollResponse? && a.c == c) || (a.ReturnRead? && a.c == c)
  }

  lemma {:induction false} OneRound(s: State, data: nat, c: nat) returns (round: seq<Action>, t: State)
    requires Inv(s) && (s.srv.head.valid || !NoneWaiting(s.srv))
    ensures t == After(s, round) && forall i :: 0 <= i < |round| ==> Serves(round[i], c)
    ensures Inv(t) && !t.srv.head.valid && t.clients == s.clients && t.srv.fds == s.srv.fds
    ensures var before, after := Load(s.srv.up, s.srv.fds), Load(t.srv.up, t.srv.fds);
            if s.srv.head.valid then after <= before else after < before
  {
    RoundTakes(s, data);
    round, t := Round(data), After(s, Round(data));
  }

  lemma {:induction false} Drain(s: State, data: nat, c: nat) returns (more: seq<Action>)
    requires Inv(s)
    ensures forall i :: 0 <= i < |more| ==> Serves(more[i], c)
    ensures var t := After(s, more);
            Inv(t) && !t.srv.head.valid && NoneWaiting(t.srv) && t.clients == s.clients && t.srv.fds == s.srv.fds
    decreases Load(s.srv.up, s.srv.fds), s.srv.head.valid
  {
    if !s.srv.head.valid && NoneWaiting(s.srv) {
      return [];
    }
    var round, t := OneRound(s, data, c);
    var rest := Drain(t, data, c);
    AfterAppend(s, round, rest);
    more := round + rest;
  }

  /** The answer to the read of `c` has been received or is on its way. */
  predicate Answered(s: State, c: nat) {
    && c in s.clients && c in s.srv.up && c in s.srv.down && s.clients[c].owner.Reader?
    && Reads(s.srv.up[c]) == [] && !Holds(s.srv, c)
  }

  lemma {:induction false} PollUntilReceived(s: State, c: nat) returns (more: seq<Action>)
    requires Inv(s) && Answered(s, c)
    ensures forall i :: 0 <= i < |more| ==> Serves(more[i], c)
    ensures var t := After(s, more);
            && Inv(t) && Answered(t, c) && t.clients[c].responseValid
            && t.clients[c].owner == s.clients[c].owner && t.clients[c].results == s.clients[c].results
            && t.clients == s.clients[c := t.clients[c]]
    decreases |s.srv.down[c]|
  {
    assert ClientInv(s, c);
    if s.clients[c].responseValid {
      return [];
    }
    assert s.srv.down[c] != [];
    var t := Step(s, PollResponse(c));
    StepInv(s, PollResponse(c));
    var rest := PollUntilReceived(t, c);
    more := [PollResponse(c)] + rest;
    assert more[1..] == rest;
  }

  lemma {:induction false} ReturnAfter(s: State, more: seq<Action>, c: nat)
    requires var t := After(s, more);
             && Inv(t) && Answered(t, c) && t.clients[c].responseValid
    ensures var t := After(s, more); var k := t.clients[c]; var u := After(s, more + [ReturnRead(c)]);
            && k.owner.uid in t.answers && u.answers == t.answers
            && u.clients == t.clients[c := k.(owner := Free, responseValid := false,
                                              results := k.results + [(k.owner.uid, t.answers[k.owner.uid])])]
  {
    var t := After(s, more);
    assert ClientInv(t, c);
    AfterAppend(s, more, [ReturnRead(c)]);
    assert [ReturnRead(c)][1..] == [];
    assert After(t, [ReturnRead(c)]) == Step(t, ReturnRead(c));
  }

  lemma {:induction false} DrainThenPoll(s: State, c: nat, data: nat) returns (more: seq<Action>)
    requires Inv(s) && c in s.clients && c in s.srv.fds && s.clients[c].owner.Reader?
    ensures forall i :: 0 <= i < |more| ==> Serves(more[i], c)
    ensures var t := After(s, more);
            && Inv(t) && Answered(t, c) && t.clients[c].responseValid
            && t.clients[c].owner == s.clients[c].owner && t.clients[c].results == s.clients[c].results
            && t.clients == s.clients[c := t.clients[c]]
  {
    var drain := Drain(s, data, c);
    var s1 := After(s, drain);
    assert Answered(s1, c) by {
      assert ClientInv(s1, c) && !Waiting(s1.srv, c);
    }
    var poll := PollUntilReceived(s1, c);
    AfterAppend(s, drain, poll);
    more := drain + poll;
  }

  /** In no run is a read stuck: whatever is under way, the hardware's polling and the reader's own bring every read
      of an accepted client to its return, with the answer the hardware gave to it, and change no other client. */
  lemma {:induction false} ReadsComplete(acts: seq<Action>, c: nat, data: nat) returns (more: seq<Action>)
    requires Legal(acts) && c in Run(acts).clients && c in Run(acts).srv.fds && Run(acts).clients[c].owner.Reader?
    ensures forall i :: 0 <= i < |more| ==> Serves(more[i], c)
    ensures var s := Run(acts); var t := Run(acts + more); var uid := s.clients[c].owner.uid;
            && uid in t.answers && c in t.clients && t.clients[c].owner.Free?
            && t.clients[c].results == s.clients[c].results + [(uid, t.answers[uid])]
            && t.clients == s.clients[c := t.clients[c]]
  {
    Reachable(acts);
    var poll := DrainThenPoll(Run(acts), c, data);
    ReturnAfter(Run(acts), poll, c);
    more := poll + [ReturnRead(c)];
    RunAfter(acts, more);
  }
}
