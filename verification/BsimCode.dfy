/**
 The code of cpp/BsimCtrl.cxx and of the BSIM part of cpp/portalSocket.c, statics and loops, proved to do
 what the protocol model `Bsim` says each call does.
 */
module BsimCode {
  import opened Options
  import opened Bsim

  class BsimCtrl {
    var head: Head
    var respPortal: nat
    var level: nat
    var fdArray: seq<nat>
    var up: map<nat, seq<Request>>
    var down: map<nat, seq<Response>>

    /** The server's state as one value. */
    ghost function AsServer(): Server
      reads this
    {
      Server(head, respPortal, level, fdArray, up, down)
    }

    constructor ()
      ensures AsServer() == INIT.srv
    {
      head, respPortal, level := Head(false, false, 0, NO_REQUEST), 0, 0;
      fdArray, up, down := [], map[], map[];
    }

    /** checkForRequest: a full slot is left alone; otherwise the oldest request of the first accepted socket that has
        one moves to the slot, and nothing else changes; `found` is for that request's kind alone. */
    method CheckRequest(rr: bool) returns (found: bool)
      modifies this
      ensures AsServer() == CheckForRequest(old(AsServer()))
      ensures old(head.valid) ==> AsServer() == old(AsServer())
      ensures !old(head.valid) && NoneWaiting(old(AsServer())) ==> TookNothing(old(AsServer()), AsServer()) && !found
      ensures forall i: nat :: !old(head.valid) && FirstWaiting(old(AsServer()), i) ==>
                var c := old(fdArray)[i];
                Took(old(AsServer()), AsServer(), c) && (found <==> old(up)[c][0].write == rr)
      ensures found == HasRequest(AsServer(), rr)
    {
      CheckTakesFirst(AsServer());
      if !head.valid {
        var i := 0;
        while i < |fdArray|
          invariant 0 <= i <= |fdArray| && !head.valid
          invariant Scan(AsServer(), i) == Scan(old(AsServer()), 0)
        {
          var sock := fdArray[i];
          head := head.(sock := sock);
          if sock in up && up[sock] != [] {
            var req := up[sock][0];
            up := up[sock := up[sock][1..]];
            respPortal := req.portal;
            head := Head(true, true, sock, req);
            break;
          }
          i := i + 1;
        }
      }
      found := head.valid && head.inflight && head.req.write == rr;
    }

    /** getRequest32: the data or tag above the address, as the hardware gets them. A fetched write frees the slot; a
        fetched read keeps it shut: nothing is taken from any socket, and there is nothing to fetch of either kind. */
    method GetRequest(rr: bool) returns (dataOrTag: nat, addr: nat)
      modifies this
      ensures AsServer() == GetRequest32(old(AsServer()), rr)
      ensures forall kind :: !HasRequest(AsServer(), kind)
      ensures rr ==> !head.valid
      ensures !rr && old(head.valid) ==> CheckForRequest(AsServer()) == AsServer() && head.req == old(head.req)
      ensures up == old(up) && down == old(down)
      ensures dataOrTag == old(head.req.dataOrTag) && addr == old(head.req.addr)
    {
      if rr {
        head := head.(valid := false);
      }
      head := head.(inflight := false);
      dataOrTag, addr := head.req.dataOrTag, head.req.addr;
    }

    /** readResponse32: the slot is free again, one response with the portal of the request goes to the socket the
        request came from, and nothing else is sent. */
    method ReadResponse(data: nat, tag: nat, uid: nat)
      modifies this
      ensures AsServer() == ReadResponse32(old(AsServer()), data, tag, uid)
      ensures !head.valid && up == old(up) && down.Keys == old(down.Keys)
      ensures head.sock in down ==>
                down[head.sock] == old(down)[head.sock] + [Response(old(respPortal), data, tag, uid)]
      ensures forall c :: c in down && c != head.sock ==> down[c] == old(down)[c]
    {
      head := head.(valid := false);
      down := Send(down, head.sock, Response(respPortal, data, tag, uid));
    }

    /** interruptLevel: a new level goes to every accepted socket, one message for each time it was accepted, behind
        what was under way; a level that is already set goes to nobody. */
    method SetInterruptLevel(ivalue: nat)
      modifies this
      ensures AsServer() == InterruptLevel(old(AsServer()), ivalue)
      ensures level == ivalue && head == old(head) && up == old(up) && fdArray == old(fdArray)
      ensures ivalue == old(level) ==> down == old(down)
      ensures ivalue != old(level) ==>
                forall c :: c in old(down) ==>
                  && c in down
                  && down[c] == old(down)[c]
                             + Copies(Response(MAGIC_PORTAL_FOR_SENDING_INTERRUPT, ivalue, 0, 0), multiset(fdArray)[c])
    {
      if ivalue != level {
        level := ivalue;
        var r := Response(MAGIC_PORTAL_FOR_SENDING_INTERRUPT, ivalue, 0, 0);
        ghost var before := down;
        assert fdArray[..0] == [];
        for i := 0 to |fdArray|
          invariant fdArray == old(fdArray) && up == old(up) && head == old(head) && respPortal == old(respPortal)
          invariant level == ivalue
          invariant down == Broadcast(before, fdArray[..i], r)
        {
          assert fdArray[..i + 1][..i] == fdArray[..i];
          down := Send(down, fdArray[i], r);
        }
        assert fdArray[..|fdArray|] == fdArray;
        forall c | c in before
          ensures c in down && down[c] == before[c] + Copies(r, multiset(fdArray)[c])
        {
          BroadcastCopies(before, fdArray, r, c);
        }
      }
    }
  }

  class BsimClient {
    var queue: seq<Response>
    var sharedResponse: Response
    var sharedResponseValid: bool
    var interruptValue: nat

    /** The client of the model, with its owner, tag and results as given. */
    ghost function AsClient(k: Client): Client
      reads this
    {
      k.(responseValid := sharedResponseValid, response := sharedResponse, interruptValue := interruptValue)
    }

    constructor ()
      ensures queue == [] && !sharedResponseValid && interruptValue == 0
    {
      queue, sharedResponse, sharedResponseValid, interruptValue := [], NO_RESPONSE, false, 0;
    }

    /** The responses the client still has to hand to its readers: the one it holds, and those that have arrived. */
    ghost function Waiting(): seq<Response>
      reads this
    {
      (if sharedResponseValid then [sharedResponse] else []) + Replies(queue)
    }

    /** poll_response: no response is lost, repeated or reordered, one that is held is never replaced, and an
        interrupt is never held; `mine` only if a response for `id` is next. */
    method PollResponse(id: int, ghost k: Client) returns (mine: bool)
      modifies this
      ensures (AsClient(k), queue) == Receive(old(AsClient(k)), old(queue))
      ensures Waiting() == old(Waiting())
      ensures old(sharedResponseValid) ==>
              sharedResponseValid && sharedResponse == old(sharedResponse) && queue == old(queue)
      ensures !old(sharedResponseValid) && sharedResponseValid ==>
              sharedResponse.portal != MAGIC_PORTAL_FOR_SENDING_INTERRUPT
      ensures !old(sharedResponseValid) && old(queue) != [] ==> queue == old(queue)[1..]
      ensures mine <==> sharedResponseValid && Waiting()[0].portal == id
    {
      if !sharedResponseValid {
        if queue != [] {
          sharedResponse := queue[0];
          queue := queue[1..];
          if sharedResponse.portal == MAGIC_PORTAL_FOR_SENDING_INTERRUPT {
            interruptValue := sharedResponse.data;
          } else {
            sharedResponseValid := true;
          }
        }
      }
      mine := sharedResponseValid && sharedResponse.portal == id;
      assert Waiting() == old(Waiting());
    }

    /** The polling loop of read_portal_bsim, over what has arrived so far: it skips interrupts and returns the
        data of the first response, if that response is for its portal. */
    method AwaitResponse(portal: nat, ghost k: Client) returns (r: Option<nat>)
      requires portal != MAGIC_PORTAL_FOR_SENDING_INTERRUPT && !sharedResponseValid
      modifies this
      ensures var replies := old(Replies(queue));
              r == if replies != [] && replies[0].portal == portal then Some(replies[0].data) else None
      ensures r.Some? ==> !sharedResponseValid && Replies(queue) == old(Replies(queue))[1..]
    {
      ghost var replies := Replies(queue);
      var mine := false;
      while !mine && !sharedResponseValid && queue != []
        invariant mine ==> sharedResponseValid && sharedResponse.portal == portal
        invariant !mine && sharedResponseValid ==> sharedResponse.portal != portal
        invariant !sharedResponseValid ==> Replies(queue) == replies
        invariant sharedResponseValid ==>
                    replies != [] && replies[0] == sharedResponse && Replies(queue) == replies[1..]
        decreases |queue|
      {
        mine := PollResponse(portal, k);
      }
      if !mine {
        return None;
      }
      r := Some(sharedResponse.data);
      sharedResponseValid := false;
    }
  }
}
