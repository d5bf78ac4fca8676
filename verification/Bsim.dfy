/**
 The simulator's request and response protocol: cpp/BsimCtrl.cxx is the server inside the simulation,
 the BSIM part of cpp/portalSocket.c is the client library. Any number of clients talk to one server
 that has a single request slot, and interrupts travel on the same sockets as read responses.

 A run is an arbitrary interleaving of the calls below. The simulated hardware is assumed to fetch a
 request only when checkForRequest has found one of that kind, and to answer each fetched read once.
 */
module Bsim {
  import opened Options

  const MAGIC_PORTAL_FOR_SENDING_INTERRUPT := 999
  const MAX_BSIM_PORTAL_ID := 128

  /** memrequest; `uid` tells requests apart in the statements below and is not looked at by the protocol. */
  datatype Request = Request(portal: nat, write: bool, addr: nat, dataOrTag: nat, uid: nat)

  /** memresponse; `uid` is that of the request it answers. */
  datatype Response = Response(portal: nat, data: nat, tag: nat, uid: nat)

  /** The server's static `head`. */
  datatype Head = Head(valid: bool, inflight: bool, sock: nat, req: Request)

  /** The server: its slot, `respitem.portal`, the last interrupt level sent, the accepted sockets, and what is
      under way on each socket in the two directions. */
  datatype Server = Server(head: Head, respPortal: nat, level: nat, fds: seq<nat>,
                           up: map<nat, seq<Request>>, down: map<nat, seq<Response>>)

  // ----- BsimCtrl.cxx -----

  /** The scan of checkForRequest from socket `i` of the array on. */
  function Scan(s: Server, i: nat): Server
    decreases |s.fds| - i
  {
    if i >= |s.fds| then s
    else
      var c := s.fds[i];
      if c in s.up && s.up[c] != [] then
        s.(head := Head(true, true, c, s.up[c][0]), respPortal := s.up[c][0].portal, up := s.up[c := s.up[c][1..]])
      else
        Scan(s.(head := s.head.(sock := c)), i + 1)
  }

  function CheckForRequest(s: Server): Server {
    if s.head.valid then s else Scan(s, 0)
  }

  /** What checkForRequest(rr) returns. */
  predicate HasRequest(s: Server, rr: bool) {
    s.head.valid && s.head.inflight && s.head.req.write == rr
  }

  function GetRequest32(s: Server, rr: bool): Server {
    s.(head := s.head.(valid := s.head.valid && !rr, inflight := false))
  }

  function Send(down: map<nat, seq<Response>>, c: nat, r: Response): map<nat, seq<Response>> {
    if c in down then down[c := down[c] + [r]] else down
  }

  function ReadResponse32(s: Server, data: nat, tag: nat, uid: nat): Server {
    s.(head := s.head.(valid := false), down := Send(s.down, s.head.sock, Response(s.respPortal, data, tag, uid)))
  }

  function Broadcast(down: map<nat, seq<Response>>, fds: seq<nat>, r: Response): map<nat, seq<Response>> {
    if fds == [] then down else Send(Broadcast(down, fds[..|fds| - 1], r), fds[|fds| - 1], r)
  }

  function InterruptLevel(s: Server, ivalue: nat): Server {
    if ivalue == s.level then s
    else s.(level := ivalue,
            down := Broadcast(s.down, s.fds, Response(MAGIC_PORTAL_FOR_SENDING_INTERRUPT, ivalue, 0, 0)))
  }

  // ----- portalSocket.c -----

  /** Who holds `socket_mutex`: nobody, or a thread inside read_portal_bsim waiting on a portal. */
  datatype Owner = Free | Reader(portal: nat, uid: nat)

  /** The client library's statics, and the results of its reads so far. */
  datatype Client = Client(owner: Owner, responseValid: bool, response: Response, interruptValue: nat,
                           tagCounter: nat, results: seq<(nat, nat)>)

  /** The receiving half of poll_response. */
  function Receive(k: Client, queue: seq<Response>): (Client, seq<Response>) {
    if k.responseValid || queue == [] then (k, queue)
    else if queue[0].portal == MAGIC_PORTAL_FOR_SENDING_INTERRUPT then
      (k.(response := queue[0], interruptValue := queue[0].data), queue[1..])
    else
      (k.(response := queue[0], responseValid := true), queue[1..])
  }

  // ----- The whole system -----

  /** `pending` is the read the hardware has fetched and not answered. `issued` and `answers` are history: the
      client, portal and address of each read, and the hardware's answer to it. */
  datatype State = State(srv: Server, clients: map<nat, Client>, pending: Option<Request>, next: nat,
                         issued: map<nat, (nat, nat, nat)>, answers: map<nat, nat>)

  datatype Action =
    | Connect(c: nat)
    | Accept(c: nat)
    | WritePortal(c: nat, portal: nat, addr: nat, v: nat)
    | ReadPortal(c: nat, portal: nat, addr: nat)
    | PollResponse(c: nat)
    | ReturnRead(c: nat)
    | PollInterrupt(c: nat)
    | HwCheck
    | HwFetch(rr: bool)
    | HwAnswer(data: nat)
    | HwInterrupt(ivalue: nat)

  const NO_REQUEST := Request(0, false, 0, 0, 0)
  const NO_RESPONSE := Response(0, 0, 0, 0)

  const INIT := State(Server(Head(false, false, 0, NO_REQUEST), 0, 0, [], map[], map[]), map[], None, 0, map[], map[])

  function Poll(s: State, c: nat): State
    requires c in s.clients && c in s.srv.down
  {
    var (k, queue) := Receive(s.clients[c], s.srv.down[c]);
    s.(clients := s.clients[c := k], srv := s.srv.(down := s.srv.down[c := queue]))
  }

  /** One call, or one turn of a polling loop; a call that cannot be made leaves the state alone. */
  function Step(s: State, a: Action): State {
    match a
    case Connect(c) =>
      if c in s.clients then s
      else s.(clients := s.clients[c := Client(Free, false, NO_RESPONSE, 0, 0, [])],
              srv := s.srv.(up := s.srv.up[c := []], down := s.srv.down[c := []]))
    case Accept(c) =>
      if c in s.clients && c !in s.srv.fds then s.(srv := s.srv.(fds := s.srv.fds + [c])) else s
    case WritePortal(c, portal, addr, v) =>
      if c in s.clients && c in s.srv.up then
        s.(srv := s.srv.(up := s.srv.up[c := s.srv.up[c] + [Request(portal, true, addr, v, 0)]]))
      else s
    case ReadPortal(c, portal, addr) =>
      if c in s.clients && c in s.srv.up && s.clients[c].owner.Free? then
        var k := s.clients[c];
        s.(clients := s.clients[c := k.(owner := Reader(portal, s.next),
                                        tagCounter := (k.tagCounter + 1) % 0x1_0000_0000)],
           srv := s.srv.(up := s.srv.up[c := s.srv.up[c] + [Request(portal, false, addr, k.tagCounter, s.next)]]),
           issued := s.issued[s.next := (c, portal, addr)],
           next := s.next + 1)
      else s
    case PollResponse(c) =>
      if c in s.clients && c in s.srv.down && s.clients[c].owner.Reader? then Poll(s, c) else s
    case ReturnRead(c) =>
      if c in s.clients && s.clients[c].owner.Reader? && s.clients[c].responseValid
         && s.clients[c].response.portal == s.clients[c].owner.portal then
        var k := s.clients[c];
        s.(clients := s.clients[c := k.(owner := Free, responseValid := false,
                                        results := k.results + [(k.owner.uid, k.response.data)])])
      else s
    case PollInterrupt(c) =>
      if c in s.clients && c in s.srv.down && s.clients[c].owner.Free? then Poll(s, c) else s
    case HwCheck => s.(srv := CheckForRequest(s.srv))
    case HwFetch(rr) =>
      if HasRequest(s.srv, rr) then
        s.(srv := GetRequest32(s.srv, rr), pending := if rr then s.pending else Some(s.srv.head.req))
      else s
    case HwAnswer(data) =>
      if s.pending.Some? then
        s.(srv := ReadResponse32(s.srv, data, s.pending.value.dataOrTag, s.pending.value.uid), pending := None,
           answers := s.answers[s.pending.value.uid := data])
      else s
    case HwInterrupt(ivalue) => s.(srv := InterruptLevel(s.srv, ivalue))
  }

  /** Portals are numbered below 128 (init_bsim). */
  predicate Legal(acts: seq<Action>) {
    forall i :: 0 <= i < |acts| && acts[i].ReadPortal? ==> acts[i].portal < MAX_BSIM_PORTAL_ID
  }

  function Run(acts: seq<Action>): State {
    if acts == [] then INIT else Step(Run(acts[..|acts| - 1]), acts[|acts| - 1])
  }

  // ----- The invariant -----

  /** The reads among the requests under way. */
  function Reads(q: seq<Request>): seq<Request> {
    if q == [] then []
    else if q[0].write then Reads(q[1..])
    else [q[0]] + Reads(q[1..])
  }

  /** The responses under way that are not interrupts. */
  function Replies(q: seq<Response>): seq<Response> {
    if q == [] then []
    else if q[0].portal == MAGIC_PORTAL_FOR_SENDING_INTERRUPT then Replies(q[1..])
    else [q[0]] + Replies(q[1..])
  }

  lemma {:induction false} ReadsAppend(q: seq<Request>, r: Request)
    ensures Reads(q + [r]) == Reads(q) + if r.write then [] else [r]
    decreases |q|
  {
    if q == [] {
      assert q + [r] == [r] && [r][1..] == [];
    } else {
      assert (q + [r])[1..] == q[1..] + [r];
      ReadsAppend(q[1..], r);
    }
  }

  lemma {:induction false} RepliesAppend(q: seq<Response>, r: Response)
    ensures Replies(q + [r]) == Replies(q) + if r.portal == MAGIC_PORTAL_FOR_SENDING_INTERRUPT then [] else [r]
    decreases |q|
  {
    if q == [] {
      assert q + [r] == [r] && [r][1..] == [];
    } else {
      assert (q + [r])[1..] == q[1..] + [r];
      RepliesAppend(q[1..], r);
    }
  }

  /** The server holds a read of client `c`. */
  predicate Holds(s: Server, c: nat) {
    s.head.valid && s.head.sock == c && !s.head.req.write
  }

  /** `r` is the read `uid` that client `c` issued on `portal`. */
  predicate IsRead(s: State, r: Request, c: nat, portal: nat, uid: nat) {
    && !r.write && r.portal == portal && r.uid == uid
    && uid in s.issued && s.issued[uid] == (c, portal, r.addr)
  }

  /** `r` carries the hardware's answer to read `uid`. */
  predicate IsReply(s: State, r: Response, portal: nat, uid: nat) {
    r.portal == portal && r.uid == uid && uid in s.answers && s.answers[uid] == r.data
  }

  /** Where the read of client `c` is: on its way, in the server's slot, on its way back, or received. */
  predicate Travelling(s: State, c: nat)
    requires c in s.clients && c in s.srv.up && c in s.srv.down && s.clients[c].owner.Reader?
  {
    var k := s.clients[c];
    var p, u := k.owner.portal, k.owner.uid;
    var asked, replies := Reads(s.srv.up[c]), Replies(s.srv.down[c]);
    && p < MAX_BSIM_PORTAL_ID && u in s.issued && s.issued[u].0 == c && s.issued[u].1 == p
    && (|| (|asked| == 1 && IsRead(s, asked[0], c, p, u) && !Holds(s.srv, c) && replies == [] && !k.responseValid
            && u !in s.answers)
        || (asked == [] && Holds(s.srv, c) && IsRead(s, s.srv.head.req, c, p, u) && replies == [] && !k.responseValid
            && u !in s.answers)
        || (asked == [] && !Holds(s.srv, c) && |replies| == 1 && IsReply(s, replies[0], p, u) && !k.responseValid)
        || (asked == [] && !Holds(s.srv, c) && replies == [] && k.responseValid && IsReply(s, k.response, p, u)))
  }

  /** A client with no read under way has nothing under way but writes and interrupts. */
  predicate Quiet(s: State, c: nat)
    requires c in s.clients && c in s.srv.up && c in s.srv.down
  {
    Reads(s.srv.up[c]) == [] && Replies(s.srv.down[c]) == [] && !Holds(s.srv, c) && !s.clients[c].responseValid
  }

  /** Every result of a read of client `c` is the hardware's answer to that read. */
  predicate ResultsRight(s: State, c: nat, results: seq<(nat, nat)>) {
    forall i :: 0 <= i < |results| ==>
      && results[i].0 in s.answers && s.answers[results[i].0] == results[i].1
      && results[i].0 in s.issued && s.issued[results[i].0].0 == c
  }

  predicate ClientInv(s: State, c: nat)
    requires c in s.clients
  {
    && c in s.srv.up && c in s.srv.down
    && (if s.clients[c].owner.Free? then Quiet(s, c) else Travelling(s, c))
    && ResultsRight(s, c, s.clients[c].results)
  }

  predicate ServerInv(s: State) {
    && (forall i :: 0 <= i < |s.srv.fds| ==> s.srv.fds[i] in s.clients)
    && (s.srv.head.valid ==> s.srv.head.sock in s.clients && s.srv.respPortal == s.srv.head.req.portal)
    && (s.pending.Some? <==> s.srv.head.valid && !s.srv.head.inflight)
    && (s.pending.Some? ==> s.pending.value == s.srv.head.req && !s.srv.head.req.write)
    && (forall u :: u in s.issued ==> u < s.next)
    && (forall u :: u in s.answers ==> u < s.next)
  }

  predicate Inv(s: State) {
    ServerInv(s) && forall c :: c in s.clients ==> ClientInv(s, c)
  }

  /** `s'` adds to the history of `s`, and nothing about the read that client `c` has under way. */
  predicate Extends(s: State, s': State, c: nat)
    requires c in s.clients
  {
    && (forall u :: u in s.issued ==> u in s'.issued && s'.issued[u] == s.issued[u])
    && (forall u :: u in s.answers ==> u in s'.answers && s'.answers[u] == s.answers[u])
    && (s.clients[c].owner.Reader? && s.clients[c].owner.uid in s'.answers ==> s.clients[c].owner.uid in s.answers)
  }

  /** Client `c` sees no difference between `s` and `s'`. */
  predicate SameFor(s: State, s': State, c: nat)
    requires c in s.clients
  {
    && c in s'.clients && s'.clients[c] == s.clients[c]
    && c in s.srv.up && c in s'.srv.up && Reads(s'.srv.up[c]) == Reads(s.srv.up[c])
    && c in s.srv.down && c in s'.srv.down && Replies(s'.srv.down[c]) == Replies(s.srv.down[c])
    && (Holds(s'.srv, c) <==> Holds(s.srv, c)) && (Holds(s.srv, c) ==> s'.srv.head.req == s.srv.head.req)
  }

  lemma {:induction false} ClientFrame(s: State, s': State, c: nat)
    requires c in s.clients && ClientInv(s, c) && SameFor(s, s', c) && Extends(s, s', c)
    ensures ClientInv(s', c)
  {
  }

  // ----- The clients' steps -----

  lemma {:induction false} ConnectInv(s: State, c: nat)
    requires Inv(s)
    ensures Inv(Step(s, Connect(c)))
  {
    var s' := Step(s, Connect(c));
    if c !in s.clients {
      assert ServerInv(s');
      assert !Holds(s'.srv, c);
      forall k | k in s'.clients
        ensures ClientInv(s', k)
      {
        if k != c {
          ClientFrame(s, s', k);
        }
      }
    }
  }

  lemma {:induction false} AcceptInv(s: State, c: nat)
    requires Inv(s)
    ensures Inv(Step(s, Accept(c)))
  {
    var s' := Step(s, Accept(c));
    forall k | k in s'.clients
      ensures ClientInv(s', k)
    {
      ClientFrame(s, s', k);
    }
  }

  lemma {:induction false} WriteInv(s: State, c: nat, portal: nat, addr: nat, v: nat)
    requires Inv(s)
    ensures Inv(Step(s, WritePortal(c, portal, addr, v)))
  {
    var s' := Step(s, WritePortal(c, portal, addr, v));
    forall k | k in s'.clients
      ensures ClientInv(s', k)
    {
      if k == c {
        ReadsAppend(s.srv.up[c], Request(portal, true, addr, v, 0));
      }
      ClientFrame(s, s', k);
    }
  }

  lemma {:induction false} ReadInv(s: State, c: nat, portal: nat, addr: nat)
    requires Inv(s) && portal < MAX_BSIM_PORTAL_ID
    ensures Inv(Step(s, ReadPortal(c, portal, addr)))
  {
    var s' := Step(s, ReadPortal(c, portal, addr));
    if c in s.clients && s.clients[c].owner.Free? {
      assert ServerInv(s');
      forall k | k in s'.clients
        ensures ClientInv(s', k)
      {
        if k == c {
          ReadsAppend(s.srv.up[c], Request(portal, false, addr, s.clients[c].tagCounter, s.next));
        } else {
          ClientFrame(s, s', k);
        }
      }
    }
  }

  lemma {:induction false} PollInv(s: State, c: nat)
    requires Inv(s) && c in s.clients && c in s.srv.down
    ensures Inv(Poll(s, c))
  {
    var s' := Poll(s, c);
    forall k | k in s'.clients
      ensures ClientInv(s', k)
    {
      if k == c {
        var q := s.srv.down[c];
        if !s.clients[c].responseValid && q != [] && q[0].portal != MAGIC_PORTAL_FOR_SENDING_INTERRUPT {
          assert Replies(q)[0] == q[0] && Replies(q)[1..] == Replies(q[1..]);
        }
      } else {
        ClientFrame(s, s', k);
      }
    }
  }

  lemma {:induction false} ReturnInv(s: State, c: nat)
    requires Inv(s)
    ensures Inv(Step(s, ReturnRead(c)))
  {
    var s' := Step(s, ReturnRead(c));
    forall k | k in s'.clients
      ensures ClientInv(s', k)
    {
      if k != c {
        ClientFrame(s, s', k);
      }
    }
  }

  // ----- The server's steps -----

  /** A request has arrived on socket `c` and has not been taken. */
  predicate Waiting(s: Server, c: nat) {
    c in s.up && s.up[c] != []
  }

  predicate NoneWaiting(s: Server) {
    forall j :: 0 <= j < |s.fds| ==> !Waiting(s, s.fds[j])
  }

  /** Of the accepted sockets, in the order they were accepted, the one at `i` is the first with a request. */
  predicate FirstWaiting(s: Server, i: nat) {
    i < |s.fds| && Waiting(s, s.fds[i]) && forall j :: 0 <= j < i ==> !Waiting(s, s.fds[j])
  }

  /** The slot of `s'` holds the oldest request of socket `c`, which is gone from there; nothing else differs. */
  predicate Took(s: Server, s': Server, c: nat) {
    && Waiting(s, c)
    && s'.head == Head(true, true, c, s.up[c][0]) && s'.respPortal == s.up[c][0].portal
    && s'.up == s.up[c := s.up[c][1..]] && s'.down == s.down && s'.fds == s.fds && s'.level == s.level
  }

  /** Nothing differs but the socket that the empty slot names. */
  predicate TookNothing(s: Server, s': Server) {
    s' == s.(head := s.head.(sock := s'.head.sock))
  }

  lemma {:induction false} ScanTakes(s: Server, i: nat, k: nat)
    requires i <= k && FirstWaiting(s, k)
    ensures Took(s, Scan(s, i), s.fds[k])
    decreases k - i
  {
    if i < k {
      var t := s.(head := s.head.(sock := s.fds[i]));
      assert !Waiting(s, s.fds[i]);
      assert FirstWaiting(t, k) by {
        assert forall c :: Waiting(t, c) == Waiting(s, c);
      }
      ScanTakes(t, i + 1, k);
    }
  }

  lemma {:induction false} ScanTakesNothing(s: Server, i: nat)
    requires NoneWaiting(s)
    ensures TookNothing(s, Scan(s, i))
    decreases |s.fds| - i
  {
    if i < |s.fds| {
      var t := s.(head := s.head.(sock := s.fds[i]));
      assert !Waiting(s, s.fds[i]);
      assert NoneWaiting(t) by {
        assert forall c :: Waiting(t, c) == Waiting(s, c);
      }
      ScanTakesNothing(t, i + 1);
    }
  }

  lemma {:induction false} FirstFrom(s: Server, i: nat) returns (k: nat)
    requires i <= |s.fds| && forall j :: 0 <= j < i ==> !Waiting(s, s.fds[j])
    ensures NoneWaiting(s) || FirstWaiting(s, k)
    decreases |s.fds| - i
  {
    if i == |s.fds| || Waiting(s, s.fds[i]) {
      k := i;
    } else {
      k := FirstFrom(s, i + 1);
    }
  }

  lemma {:induction false} FirstOrNone(s: Server) returns (k: nat)
    ensures NoneWaiting(s) || FirstWaiting(s, k)
  {
    k := FirstFrom(s, 0);
  }

  /** checkForRequest: a full slot is left alone; otherwise the oldest request of the first socket that has one is
      taken, and when no socket has one nothing is. */
  lemma {:induction false} CheckTakesFirst(s: Server)
    ensures s.head.valid ==> CheckForRequest(s) == s
    ensures forall k: nat :: !s.head.valid && FirstWaiting(s, k) ==> Took(s, CheckForRequest(s), s.fds[k])
    ensures !s.head.valid && NoneWaiting(s) ==> TookNothing(s, CheckForRequest(s))
  {
    forall k: nat | !s.head.valid && FirstWaiting(s, k)
      ensures Took(s, CheckForRequest(s), s.fds[k])
    {
      ScanTakes(s, 0, k);
    }
    if NoneWaiting(s) {
      ScanTakesNothing(s, 0);
    }
  }

  lemma {:induction false} CheckInv(s: State)
    requires Inv(s)
    ensures Inv(Step(s, HwCheck))
  {
    var s' := Step(s, HwCheck);
    if !s.srv.head.valid {
      var i := FirstOrNone(s.srv);
      CheckTakesFirst(s.srv);
      assert ServerInv(s');
      forall k | k in s'.clients
        ensures ClientInv(s', k)
      {
        if s'.srv.head.valid && k == s'.srv.head.sock {
          DequeueInv(s, s', k);
        } else {
          ClientFrame(s, s', k);
        }
      }
    }
  }

  lemma {:induction false} DequeueInv(s: State, s': State, c: nat)
    requires Inv(s) && c in s.clients && !s.srv.head.valid && s.srv.up[c] != []
    requires s' == s.(srv := s.srv.(head := Head(true, true, c, s.srv.up[c][0]), respPortal := s.srv.up[c][0].portal,
                                    up := s.srv.up[c := s.srv.up[c][1..]]))
    ensures ClientInv(s', c)
  {
    var q := s.srv.up[c];
    if !q[0].write {
      assert Reads(q) == [q[0]] + Reads(q[1..]);
      assert Reads(q)[0] == q[0];
    }
  }

  lemma {:induction false} FetchInv(s: State, rr: bool)
    requires Inv(s)
    ensures Inv(Step(s, HwFetch(rr)))
  {
    var s' := Step(s, HwFetch(rr));
    forall k | k in s'.clients
      ensures ClientInv(s', k)
    {
      ClientFrame(s, s', k);
    }
  }

  lemma {:induction false} AnswerInv(s: State, data: nat)
    requires Inv(s)
    ensures Inv(Step(s, HwAnswer(data)))
  {
    var s' := Step(s, HwAnswer(data));
    if s.pending.Some? {
      var c := s.srv.head.sock;
      assert ClientInv(s, c) && Holds(s.srv, c);
      assert s.pending.value.uid == s.clients[c].owner.uid;
      forall k | k in s'.clients
        ensures ClientInv(s', k)
      {
        if k == c {
          var r := s.pending.value;
          RepliesAppend(s.srv.down[c], Response(s.srv.respPortal, data, r.dataOrTag, r.uid));
        } else {
          assert ClientInv(s, k);
          OtherUid(s, c, k);
          ClientFrame(s, s', k);
        }
      }
    }
  }

  /** Two clients never wait for the same read. */
  lemma {:induction false} OtherUid(s: State, c: nat, k: nat)
    requires c in s.clients && k in s.clients && c != k && ClientInv(s, c) && ClientInv(s, k)
    requires s.clients[c].owner.Reader?
    ensures s.clients[k].owner.Reader? ==> s.clients[k].owner.uid != s.clients[c].owner.uid
  {
  }

  function Copies(r: Response, n: nat): seq<Response> {
    seq(n, _ => r)
  }

  /** Each socket gets the message once for each time it is in the array, and nothing else. */
  lemma {:induction false} BroadcastCopies(down: map<nat, seq<Response>>, fds: seq<nat>, r: Response, c: nat)
    requires c in down
    ensures c in Broadcast(down, fds, r) && Broadcast(down, fds, r)[c] == down[c] + Copies(r, multiset(fds)[c])
    decreases |fds|
  {
    if fds == [] {
      assert down[c] + Copies(r, 0) == down[c];
    } else {
      var n := |fds| - 1;
      BroadcastCopies(down, fds[..n], r, c);
      assert fds == fds[..n] + [fds[n]];
      var k := multiset(fds[..n])[c];
      assert Copies(r, k) + [r] == Copies(r, k + 1);
    }
  }

  lemma {:induction false} BroadcastReplies(down: map<nat, seq<Response>>, fds: seq<nat>, r: Response, c: nat)
    requires c in down && r.portal == MAGIC_PORTAL_FOR_SENDING_INTERRUPT
    ensures Broadcast(down, fds, r).Keys == down.Keys && Replies(Broadcast(down, fds, r)[c]) == Replies(down[c])
    decreases |fds|
  {
    if fds != [] {
      BroadcastReplies(down, fds[..|fds| - 1], r, c);
      RepliesAppend(Broadcast(down, fds[..|fds| - 1], r)[c], r);
    }
  }

  lemma {:induction false} InterruptInv(s: State, ivalue: nat)
    requires Inv(s)
    ensures Inv(Step(s, HwInterrupt(ivalue)))
  {
    var s' := Step(s, HwInterrupt(ivalue));
    forall k | k in s'.clients
      ensures ClientInv(s', k)
    {
      assert ClientInv(s, k);
      BroadcastReplies(s.srv.down, s.srv.fds, Response(MAGIC_PORTAL_FOR_SENDING_INTERRUPT, ivalue, 0, 0), k);
      ClientFrame(s, s', k);
    }
  }

  lemma {:induction false} StepInv(s: State, a: Action)
    requires Inv(s) && (a.ReadPortal? ==> a.portal < MAX_BSIM_PORTAL_ID)
    ensures Inv(Step(s, a))
  {
    match a
    case Connect(c) => ConnectInv(s, c);
    case Accept(c) => AcceptInv(s, c);
    case WritePortal(c, portal, addr, v) => WriteInv(s, c, portal, addr, v);
    case ReadPortal(c, portal, addr) => ReadInv(s, c, portal, addr);
    case PollResponse(c) => if c in s.clients && c in s.srv.down { PollInv(s, c); }
    case ReturnRead(c) => ReturnInv(s, c);
    case PollInterrupt(c) => if c in s.clients && c in s.srv.down { PollInv(s, c); }
    case HwCheck => CheckInv(s);
    case HwFetch(rr) => FetchInv(s, rr);
    case HwAnswer(data) => AnswerInv(s, data);
    case HwInterrupt(ivalue) => InterruptInv(s, ivalue);
  }

  lemma {:induction false} Reachable(acts: seq<Action>)
    requires Legal(acts)
    ensures Inv(Run(acts))
  {
    if acts != [] {
      var n := |acts| - 1;
      assert acts[n] == acts[..][n];
      Reachable(acts[..n]);
      StepInv(Run(acts[..n]), acts[n]);
    }
  }

  // ----- What the protocol guarantees in every run -----

  /** Each result of a read is the hardware's answer to that same read, issued by that same client; an
      interrupt message is never taken for a response; and the answer to a client's read is what its
      waiting thread will return. */
  lemma {:induction false} ReadsGetTheirOwnAnswers(acts: seq<Action>, c: nat)
    requires Legal(acts) && c in Run(acts).clients
    ensures var s := Run(acts); var k := s.clients[c];
            && ResultsRight(s, c, k.results)
            && (k.responseValid ==>
                  && k.owner.Reader? && k.response.portal == k.owner.portal != MAGIC_PORTAL_FOR_SENDING_INTERRUPT
                  && k.owner.uid in s.answers && k.response.data == s.answers[k.owner.uid])
  {
    Reachable(acts);
    assert ClientInv(Run(acts), c);
  }

  /** While a fetched read is unanswered checkForRequest takes nothing from any socket and finds nothing to
      fetch; the answer then goes to the socket the read came from, with the portal of the read. */
  lemma {:induction false} OneReadAtATime(acts: seq<Action>, data: nat)
    requires Legal(acts) && Run(acts).pending.Some?
    ensures var s := Run(acts); var r := s.pending.value;
            && CheckForRequest(s.srv) == s.srv
            && !HasRequest(s.srv, true) && !HasRequest(s.srv, false)
            && r.uid in s.issued && r.uid !in s.answers
            && var (c, portal, addr) := s.issued[r.uid];
               && r.portal == portal && r.addr == addr
               && c in s.srv.down
               && Step(s, HwAnswer(data)).srv.down
                 == s.srv.down[c := s.srv.down[c] + [Response(portal, data, r.dataOrTag, r.uid)]]
  {
    Reachable(acts);
    var s := Run(acts);
    assert ClientInv(s, s.srv.head.sock);
  }

  /** Read `u` of client `c` is under way or has returned. */
  predicate Accounted(k: Client, u: nat) {
    (k.owner.Reader? && k.owner.uid == u) || exists i :: 0 <= i < |k.results| && k.results[i].0 == u
  }

  /** Reads return in the order they were issued, each once, and none is lost. */
  predicate InOrder(s: State, c: nat)
    requires c in s.clients
  {
    var k := s.clients[c];
    && (forall i, j :: 0 <= i < j < |k.results| ==> k.results[i].0 < k.results[j].0)
    && (forall i :: 0 <= i < |k.results| ==> k.results[i].0 < if k.owner.Reader? then k.owner.uid else s.next)
    && (k.owner.Reader? ==> k.owner.uid < s.next)
    && forall u :: u in s.issued && s.issued[u].0 == c ==> Accounted(k, u)
  }

  lemma {:induction false} OrderReturn(s: State, c: nat)
    requires c in s.clients && InOrder(s, c)
    requires s.clients[c].owner.Reader?
    ensures var k := s.clients[c];
            var k' := k.(owner := Free, responseValid := false,
                         results := k.results + [(k.owner.uid, k.response.data)]);
            InOrder(s.(clients := s.clients[c := k']), c)
  {
    var k := s.clients[c];
    var k' := k.(owner := Free, responseValid := false, results := k.results + [(k.owner.uid, k.response.data)]);
    var r := k'.results;
    assert r[|r| - 1].0 == k.owner.uid;
    forall u | u in s.issued && s.issued[u].0 == c
      ensures Accounted(k', u)
    {
      if k.owner.uid != u {
        var i :| 0 <= i < |k.results| && k.results[i].0 == u;
        assert r[i].0 == u;
      }
    }
  }

  /** A step that starts or finishes no read of `c` keeps the order of its reads. */
  lemma {:induction false} OrderFrame(s: State, s': State, c: nat)
    requires c in s.clients && InOrder(s, c) && c in s'.clients
    requires s'.clients[c].owner == s.clients[c].owner && s'.clients[c].results == s.clients[c].results
    requires s.next <= s'.next
    requires forall u :: u in s'.issued && s'.issued[u].0 == c ==> u in s.issued && s.issued[u].0 == c
    ensures InOrder(s', c)
  {
    forall u | u in s'.issued && s'.issued[u].0 == c
      ensures Accounted(s'.clients[c], u)
    {
      assert Accounted(s.clients[c], u);
    }
  }

  lemma {:induction false} OrderRead(s: State, c: nat, portal: nat, addr: nat)
    requires ServerInv(s) && c in s.clients && InOrder(s, c)
    ensures InOrder(Step(s, ReadPortal(c, portal, addr)), c)
  {
    var s' := Step(s, ReadPortal(c, portal, addr));
    forall u | u in s'.issued && s'.issued[u].0 == c
      ensures Accounted(s'.clients[c], u)
    {
      assert u != s.next ==> Accounted(s.clients[c], u);
    }
  }

  lemma {:induction false} OrderStep(s: State, a: Action, c: nat)
    requires ServerInv(s) && c in s.clients && InOrder(s, c)
    ensures c in Step(s, a).clients && InOrder(Step(s, a), c)
  {
    if a.ReturnRead? && a.c == c && Step(s, a) != s {
      OrderReturn(s, c);
    } else if a.ReadPortal? && a.c == c {
      OrderRead(s, c, a.portal, a.addr);
    } else {
      OrderFrame(s, Step(s, a), c);
    }
  }

  lemma {:induction false} NewClient(s: State, a: Action, c: nat)
    requires ServerInv(s) && c !in s.clients && c in Step(s, a).clients
    requires forall u :: u in s.issued ==> s.issued[u].0 in s.clients
    ensures InOrder(Step(s, a), c)
  {
  }

  lemma {:induction false} IssuersKnown(s: State, a: Action)
    requires forall u :: u in s.issued ==> s.issued[u].0 in s.clients
    ensures forall u :: u in Step(s, a).issued ==> Step(s, a).issued[u].0 in Step(s, a).clients
  {
    assert forall c :: c in s.clients ==> c in Step(s, a).clients;
  }

  lemma {:induction false} OrderReachable(acts: seq<Action>)
    requires Legal(acts)
    ensures forall u :: u in Run(acts).issued ==> Run(acts).issued[u].0 in Run(acts).clients
    ensures forall c :: c in Run(acts).clients ==> InOrder(Run(acts), c)
  {
    if acts != [] {
      var n := |acts| - 1;
      var s := Run(acts[..n]);
      OrderReachable(acts[..n]);
      Reachable(acts[..n]);
      IssuersKnown(s, acts[n]);
      forall c | c in Run(acts).clients
        ensures InOrder(Run(acts), c)
      {
        if c in s.clients {
          OrderStep(s, acts[n], c);
        } else {
          NewClient(s, acts[n], c);
        }
      }
    }
  }

  /** Every read a client has issued is the one it is waiting for or has returned, once, in order. */
  lemma {:induction false} ReadsReturnOnceInOrder(acts: seq<Action>, c: nat)
    requires Legal(acts) && c in Run(acts).clients
    ensures InOrder(Run(acts), c)
  {
    OrderReachable(acts);
  }
}
