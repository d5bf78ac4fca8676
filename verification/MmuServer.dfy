/**
 The software MMU server, cpp/MMUServer.h, and the whole path of a DMA buffer: allocation, the messages
 of send_fd_to_portal, and either the server or the hardware MMU at the other end.
 */
module MmuServer {
  import opened Integers
  import opened Options
  import opened ScatterList
  import PortalMem
  import opened DmaSend

  const MAX_SERVER_AREAS := 20

  function SentLength(msgs: seq<Sglist>): nat {
    if msgs == [] then 0 else SentLength(msgs[..|msgs| - 1]) + msgs[|msgs| - 1].len
  }

  lemma {:induction false} EntriesLength(es: seq<Entry>, id: nat, n: nat)
    requires n <= |es|
    ensures SentLength(Entries(es, id)[..n]) == Total(es[..n])
    decreases n
  {
    if n > 0 {
      EntriesLength(es, id, n - 1);
      assert Entries(es, id)[..n][..n - 1] == Entries(es, id)[..n - 1] && es[..n][..n - 1] == es[..n - 1];
    }
  }

  /** The lengths in the messages for a list, end mark included, add up to the length of the buffer. */
  lemma {:induction false} MessagesLength(es: seq<Entry>, id: nat)
    ensures SentLength(Messages(es, id)) == Total(es)
  {
    var msgs := Messages(es, id);
    EntriesLength(es, id, |es|);
    assert msgs[..|es|] == Entries(es, id)[..|es|] && es[..|es|] == es;
  }

  lemma {:induction false} MessageIds(es: seq<Entry>, id: nat, i: nat)
    requires i < |Messages(es, id)|
    ensures Messages(es, id)[i].id == id
  {
  }

  /** Every message carries the id, and the lengths add up, in an int, to that of the buffer, which is the last border
      in pages. */
  lemma {:induction false} ReferenceFacts(es: seq<Entry>, id: nat)
    requires AllSupported(es) && NonIncreasing(es)
    ensures forall i :: 0 <= i < |Messages(es, id)| ==> Messages(es, id)[i].id == id
    ensures SentLength(Messages(es, id)) == Total(es) == SentRegion(es).b0 * SIZE_4K
    ensures ToInt32(Total(es)) == Total(es) <==> Total(es) < 0x8000_0000
  {
    MessagesLength(es, id);
    LastBorder(es);
    ToInt32Exact(Total(es));
    forall i | 0 <= i < |Messages(es, id)|
      ensures Messages(es, id)[i].id == id
    {
      MessageIds(es, id, i);
    }
  }

  /** How a request for an area ends: with an area, with the end of the server for a bogus descriptor, or past the end
      of the array of areas, where the code does not look and nothing more is said. */
  datatype Answer = Area(id: nat) | Bogus | NoArea

  class MMUServer {
    const fds: array<int>
    const lens: array<int>
    var memoryAreasIndex: nat

    ghost predicate Valid()
      reads this
    {
      fds != lens && fds.Length == lens.Length == MAX_SERVER_AREAS && 1 <= memoryAreasIndex <= MAX_SERVER_AREAS
    }

    constructor ()
      ensures Valid() && fresh(fds) && fresh(lens) && memoryAreasIndex == 1
    {
      fds := new int[MAX_SERVER_AREAS](_ => 0);
      lens := new int[MAX_SERVER_AREAS](_ => 0);
      memoryAreasIndex := 1;
    }

    /** idRequest: the next area, emptied, for a file descriptor. */
    method IdRequest(fd: int) returns (r: Answer)
      requires Valid()
      modifies this, fds, lens
      ensures Valid()
      ensures r == if old(memoryAreasIndex) == MAX_SERVER_AREAS then NoArea
                   else if fd <= 0 then Bogus else Area(old(memoryAreasIndex))
      ensures memoryAreasIndex == old(memoryAreasIndex) + if r.Area? then 1 else 0
      ensures r.NoArea? ==> fds[..] == old(fds[..]) && lens[..] == old(lens[..])
      ensures !r.NoArea? ==>
                && fds[..] == old(fds[..])[old(memoryAreasIndex) := fd]
                && lens[..] == old(lens[..])[old(memoryAreasIndex) := 0]
    {
      if memoryAreasIndex == MAX_SERVER_AREAS {
        return NoArea;
      }
      fds[memoryAreasIndex] := fd;
      lens[memoryAreasIndex] := 0;
      if fd <= 0 {
        return Bogus;
      }
      r := Area(memoryAreasIndex);
      memoryAreasIndex := memoryAreasIndex + 1;
    }

    /** sglist: the lengths of an area's chunks are added up in an int; `ok`: the id is one of the array. */
    method SglistRequest(m: Sglist) returns (ok: bool)
      requires Valid()
      modifies lens
      ensures ok == (m.id < MAX_SERVER_AREAS)
      ensures lens[..] == if ok then old(lens[..])[m.id := ToInt32(old(lens[m.id]) + m.len)] else old(lens[..])
    {
      ok := m.id < MAX_SERVER_AREAS;
      if ok {
        lens[m.id] := ToInt32(lens[m.id] + m.len);
      }
    }

    /** A stream of sglist requests for one area. */
    method Receive(id: nat, msgs: seq<Sglist>)
      requires Valid() && id < MAX_SERVER_AREAS
      requires forall i :: 0 <= i < |msgs| ==> msgs[i].id == id
      requires lens[id] == 0
      modifies lens
      ensures lens[..] == old(lens[..])[id := ToInt32(SentLength(msgs))]
    {
      ghost var before := lens[..];
      assert msgs[..0] == [];
      for k := 0 to |msgs|
        invariant lens[..] == before[id := ToInt32(SentLength(msgs[..k]))]
      {
        ToInt32Add(SentLength(msgs[..k]), msgs[k].len);
        assert msgs[..k + 1][..k] == msgs[..k];
        var ok := SglistRequest(msgs[k]);
      }
      assert msgs[..|msgs|] == msgs;
    }

    /** DmaManager_reference against this server: an area of its own, whose length ends up as the last border in pages,
        in an int; that is the length of the buffer exactly when that is below 2 GB. */
    method Reference(fd: int, es: seq<Entry>) returns (r: Answer, region: Region)
      requires Valid() && AllSupported(es) && NonIncreasing(es) && |es| < 0x1_0000_0000
      modifies this, fds, lens
      ensures Valid() && region == SentRegion(es)
      ensures r.Area? <==> fd > 0 && old(memoryAreasIndex) < MAX_SERVER_AREAS
      ensures r.Area? ==>
                && r.id == old(memoryAreasIndex)
                && lens[r.id] == ToInt32(region.b0 * SIZE_4K)
                && (lens[r.id] == Total(es) <==> Total(es) < 0x8000_0000)
                && lens[..] == old(lens[..])[r.id := lens[r.id]] && fds[..] == old(fds[..])[r.id := fd]
    {
      r := IdRequest(fd);
      var id := if r.Area? then r.id else 0;
      var msgs;
      msgs, region := SendFdToPortal(es, id);
      if r.Area? {
        ReferenceFacts(es, id);
        Receive(id, msgs);
      }
    }
  }

  /** From the allocator to the hardware, for every request, every pattern of refusals and every width of physical
      addresses: a created buffer below 2^44 bytes is translated byte for byte as the linear walk of its scatter list
      says exactly when every chunk's slot gives its address inside the address space; for up to 256 chunks that is
      exactly when they are aligned and inside it and the end mark does no harm. Offsets past the end are always
      refused. */
  lemma {:induction false} CreatedBufferTranslates(alloc: PortalMem.Oracle, len: nat, width: nat, pages: PageTable,
                                                   id: nat)
    requires len <= OFFSETS - 4096 && width <= 44 && PortalMem.Created(alloc, len, true).Some?
    ensures var es := PortalMem.Created(alloc, len, true).value;
            && Total(es) < OFFSETS
            && ((forall off :: 0 <= off < Total(es) ==> Translates(width, pages, es, id, off))
                <==> forall i :: 0 <= i < |es| ==> Intact(es, width, i))
            && (|es| <= 256 ==>
                  ((forall off :: 0 <= off < Total(es) ==> Translates(width, pages, es, id, off))
                   <==> EndMarkHarmless(es) && forall i :: 0 <= i < |es| ==> Placed(es[i], width)))
            && forall off :: Total(es) <= off < OFFSETS ==>
                 Translate(width, StoreAll(pages, Messages(es, id)), SentRegion(es), off) == None
  {
    var es := PortalMem.Created(alloc, len, true).value;
    PortalMem.CreatedBuffer(alloc, len, true);
    TranslationExact(width, pages, es, id);
    if |es| <= 256 {
      TranslationWithinTable(width, pages, es, id);
    }
    forall off | Total(es) <= off < OFFSETS
      ensures Translate(width, StoreAll(pages, Messages(es, id)), SentRegion(es), off) == None
    {
      LookupOutside(es, off);
    }
  }
}
