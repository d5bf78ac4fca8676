/**
 The portalmem driver, drivers/portalmem/portalmem.c: the allocation loop of
 portalmem_dmabuffer_create under arbitrary failures of alloc_pages.
 */
module PortalMem {
  import opened Options
  import opened ScatterList

  /** Orders 8, 4 and 0: 1M, 64K and 4K. */
  const ORDERS: seq<nat> := [8, 4, 0]

  /** `PAGE_SIZE << order` for the three orders. */
  function OrderLen(order: nat): nat {
    if order == 8 then SIZE_1M else if order == 4 then SIZE_64K else SIZE_4K
  }

  /** The answer of alloc_pages to its n-th call, which is for a chunk of the given order: the chunk's physical
      address, or none. */
  type Oracle = (nat, nat) -> Option<nat>

  /** What one pass over the orders finds, and how many calls have been made by then. */
  datatype Attempt = Found(order: nat, addr: nat, calls: nat) | Nothing(calls: nat)

  function TryOrders(alloc: Oracle, size: nat, maxOrder: nat, ordindex: nat, calls: nat): Attempt
    decreases 3 - ordindex
  {
    if ordindex >= 3 then Nothing(calls)
    else if size >= OrderLen(ORDERS[ordindex]) && maxOrder >= ORDERS[ordindex] then
      match alloc(calls, ORDERS[ordindex])
      case Some(addr) => Found(ORDERS[ordindex], addr, calls + 1)
      case None => TryOrders(alloc, size, maxOrder, ordindex + 1, calls + 1)
    else
      TryOrders(alloc, size, maxOrder, ordindex + 1, calls)
  }

  /** A chunk that is found fits what is wanted; a pass that finds none ends with the refusal of a single page. */
  lemma {:induction false} TryOrdersFits(alloc: Oracle, size: nat, maxOrder: nat, ordindex: nat, calls: nat)
    ensures var a := TryOrders(alloc, size, maxOrder, ordindex, calls);
            a.Found? ==>
              && a.order in ORDERS && a.order <= maxOrder && OrderLen(a.order) <= size
              && a.calls > calls && alloc(a.calls - 1, a.order) == Some(a.addr)
    ensures var a := TryOrders(alloc, size, maxOrder, ordindex, calls);
            a.Nothing? && size >= SIZE_4K && ordindex < 3 ==> a.calls > calls && alloc(a.calls - 1, 0) == None
    decreases 3 - ordindex
  {
    if ordindex < 3 {
      TryOrdersFits(alloc, size, maxOrder, ordindex + 1, calls);
      TryOrdersFits(alloc, size, maxOrder, ordindex + 1, calls + 1);
    }
  }

  /** The chunks allocated for `size` more bytes, none larger than `maxOrder`, or none at all. */
  function Allocate(alloc: Oracle, size: nat, maxOrder: nat, calls: nat): Option<seq<Entry>>
    decreases size
  {
    if size == 0 then Some([])
    else
      var a := TryOrders(alloc, size, maxOrder, 0, calls);
      if a.Nothing? then None
      else
        TryOrdersFits(alloc, size, maxOrder, 0, calls);
        var rest := Allocate(alloc, size - OrderLen(a.order), a.order, a.calls);
        if rest.None? then None else Some([Entry(a.addr, OrderLen(a.order))] + rest.value)
  }

  /** `round_up(len, 4096)` on a 64-bit unsigned long. */
  function RoundUp64(len: nat): nat {
    (len + 4095) % 0x1_0000_0000_0000_0000 / 4096 * 4096
  }

  /** What portalmem_dmabuffer_create builds. `tableOk`: the table itself could be allocated. */
  function Created(alloc: Oracle, len: nat, tableOk: bool): Option<seq<Entry>> {
    var size := RoundUp64(len);
    if 0 < size < 0x8000_0000_0000_0000 && tableOk then Allocate(alloc, size, 8, 0) else None
  }

  /** The inner loop: the orders from the largest down, until a chunk is found. */
  method TryPass(alloc: Oracle, size: nat, maxOrder: nat, calls: nat) returns (a: Attempt)
    ensures a == TryOrders(alloc, size, maxOrder, 0, calls)
  {
    var made := calls;
    var ordindex := 0;
    while ordindex < |ORDERS|
      invariant 0 <= ordindex <= |ORDERS|
      invariant TryOrders(alloc, size, maxOrder, ordindex, made) == TryOrders(alloc, size, maxOrder, 0, calls)
    {
      var order := ORDERS[ordindex];
      if size >= OrderLen(order) && maxOrder >= order {
        var page := alloc(made, order);
        made := made + 1;
        if page.Some? {
          return Found(order, page.value, made);
        }
      }
      ordindex := ordindex + 1;
    }
    return Nothing(made);
  }

  function Prepend(pages: seq<Entry>, rest: Option<seq<Entry>>): Option<seq<Entry>> {
    if rest.None? then None else Some(pages + rest.value)
  }

  lemma {:induction false} PrependTwice(pages: seq<Entry>, e: Entry, rest: Option<seq<Entry>>)
    ensures Prepend(pages, Prepend([e], rest)) == Prepend(pages + [e], rest)
  {
    if rest.Some? {
      assert pages + ([e] + rest.value) == pages + [e] + rest.value;
    }
  }

  lemma {:induction false} AllocateNext(alloc: Oracle, size: nat, maxOrder: nat, calls: nat)
    requires size > 0 && TryOrders(alloc, size, maxOrder, 0, calls).Found?
    ensures var a := TryOrders(alloc, size, maxOrder, 0, calls);
            && OrderLen(a.order) <= size
            && Allocate(alloc, size, maxOrder, calls)
               == Prepend([Entry(a.addr, OrderLen(a.order))],
                          Allocate(alloc, size - OrderLen(a.order), a.order, a.calls))
  {
    TryOrdersFits(alloc, size, maxOrder, 0, calls);
  }

  /** The allocation loop of portalmem_dmabuffer_create; it always terminates. */
  method AllocateChunks(alloc: Oracle, len: nat, tableOk: bool) returns (r: Option<seq<Entry>>)
    requires len < 0x1_0000_0000_0000_0000
    ensures r == Created(alloc, len, tableOk)
  {
    var size := RoundUp64(len);
    // long size_remaining: a size from 2^63 up is negative, and the loop is not entered.
    var sizeRemaining: nat := if size < 0x8000_0000_0000_0000 then size else 0;
    var maxOrder := ORDERS[0];
    var pages: seq<Entry> := [];
    var calls := 0;
    var info := false;
    ghost var all := Allocate(alloc, sizeRemaining, 8, 0);
    assert all == Prepend(pages, all) by { if all.Some? { assert [] + all.value == all.value; } }
    while sizeRemaining > 0
      invariant all == Prepend(pages, Allocate(alloc, sizeRemaining, maxOrder, calls))
      invariant !info ==> pages == [] && sizeRemaining == if size < 0x8000_0000_0000_0000 then size else 0
      invariant info ==> 0 < size < 0x8000_0000_0000_0000
    {
      var a := TryPass(alloc, sizeRemaining, maxOrder, calls);
      info := a.Found?;
      if !info {
        assert all == None;
        break;
      }
      TryOrdersFits(alloc, sizeRemaining, maxOrder, 0, calls);
      var chunk := Entry(a.addr, OrderLen(a.order));
      AllocateNext(alloc, sizeRemaining, maxOrder, calls);
      PrependTwice(pages, chunk, Allocate(alloc, sizeRemaining - chunk.len, a.order, a.calls));
      pages := pages + [chunk];
      sizeRemaining := sizeRemaining - chunk.len;
      maxOrder, calls := a.order, a.calls;
    }
    r := if info && tableOk then Some(pages) else None;
    assert pages + [] == pages;
  }

  /** Chunks of the three sizes, none longer than `longest` or than the one before it, that add up to `size`. */
  predicate Sound(es: seq<Entry>, size: nat, longest: nat) {
    && AllSupported(es) && NonIncreasing(es) && Total(es) == size
    && forall i :: 0 <= i < |es| ==> es[i].len <= longest
  }

  lemma {:induction false} SoundCons(e: Entry, rest: seq<Entry>, size: nat, longest: nat)
    requires Supported(e.len) && e.len <= size && e.len <= longest && Sound(rest, size - e.len, e.len)
    ensures Sound([e] + rest, size, longest)
  {
    TotalConcat([e], rest);
    assert Total([e]) == Total([]) + e.len;
  }

  /** On success the chunks are of the three sizes, largest first, and add up to the rounded length. */
  lemma {:induction false} AllocateSound(alloc: Oracle, size: nat, maxOrder: nat, calls: nat)
    requires maxOrder in ORDERS
    requires Allocate(alloc, size, maxOrder, calls).Some?
    ensures Sound(Allocate(alloc, size, maxOrder, calls).value, size, OrderLen(maxOrder))
    decreases size
  {
    if size > 0 {
      var a := TryOrders(alloc, size, maxOrder, 0, calls);
      TryOrdersFits(alloc, size, maxOrder, 0, calls);
      AllocateSound(alloc, size - OrderLen(a.order), a.order, a.calls);
      var rest := Allocate(alloc, size - OrderLen(a.order), a.order, a.calls).value;
      SoundCons(Entry(a.addr, OrderLen(a.order)), rest, size, OrderLen(maxOrder));
    }
  }

  // ----- Where the chunks come from -----

  /** A call of alloc_pages that was answered with a chunk. */
  datatype Grant = Grant(call: nat, order: nat)

  /** Each chunk is the answer to a call of its own, for its own order, and the calls come one after the other from
      `calls` on. */
  predicate GrantedBy(alloc: Oracle, grants: seq<Grant>, es: seq<Entry>, calls: nat) {
    && |grants| == |es|
    && (forall i :: 0 <= i < |es| ==>
          && calls <= grants[i].call && grants[i].order in ORDERS
          && alloc(grants[i].call, grants[i].order) == Some(es[i].addr) && es[i].len == OrderLen(grants[i].order))
    && (forall i, j :: 0 <= i < j < |es| ==> grants[i].call < grants[j].call)
  }

  /** A call from `from` on and before `to` asked for `order` in vain. */
  ghost predicate Refused(alloc: Oracle, from: nat, to: int, order: nat) {
    exists k :: from <= k < to && alloc(k, order) == None
  }

  /** The largest order that chunk `i` may have: that of the chunk before it. */
  function Ceiling(grants: seq<Grant>, maxOrder: nat, i: nat): nat
    requires i <= |grants|
  {
    if i == 0 then maxOrder else grants[i - 1].order
  }

  function FirstCall(grants: seq<Grant>, calls: nat, i: nat): nat
    requires i <= |grants|
  {
    if i == 0 then calls else grants[i - 1].call + 1
  }

  /** No chunk is smaller than it must be: every larger order that was allowed and fitted what was still wanted had just
      been refused. */
  ghost predicate Largest(alloc: Oracle, grants: seq<Grant>, es: seq<Entry>, maxOrder: nat, calls: nat)
    requires |grants| == |es|
  {
    forall i, o :: 0 <= i < |es| && o in ORDERS && grants[i].order < o <= Ceiling(grants, maxOrder, i)
                   && OrderLen(o) <= Total(es[i..]) ==>
      Refused(alloc, FirstCall(grants, calls, i), grants[i].call, o)
  }

  lemma {:induction false} TryOrdersLargest(alloc: Oracle, size: nat, maxOrder: nat, ordindex: nat, calls: nat, o: nat)
    requires ordindex < 3 && o in ORDERS[ordindex..] && o <= maxOrder && OrderLen(o) <= size
    requires TryOrders(alloc, size, maxOrder, ordindex, calls).Found?
    requires TryOrders(alloc, size, maxOrder, ordindex, calls).order < o
    ensures Refused(alloc, calls, TryOrders(alloc, size, maxOrder, ordindex, calls).calls - 1, o)
    decreases 3 - ordindex
  {
    var order := ORDERS[ordindex];
    var asked := size >= OrderLen(order) && maxOrder >= order;
    TryOrdersFits(alloc, size, maxOrder, ordindex + 1, if asked then calls + 1 else calls);
    if o == order {
      assert alloc(calls, o) == None;
    } else {
      assert o in ORDERS[ordindex + 1..];
      TryOrdersLargest(alloc, size, maxOrder, ordindex + 1, if asked then calls + 1 else calls, o);
    }
  }

  lemma {:induction false} GrantCons(alloc: Oracle, g: Grant, e: Entry, grants: seq<Grant>, es: seq<Entry>, calls: nat)
    requires GrantedBy(alloc, grants, es, g.call + 1) && calls <= g.call && g.order in ORDERS
    requires alloc(g.call, g.order) == Some(e.addr) && e.len == OrderLen(g.order)
    ensures GrantedBy(alloc, [g] + grants, [e] + es, calls)
  {
  }

  lemma {:induction false} LargestCons(alloc: Oracle, g: Grant, e: Entry, grants: seq<Grant>, es: seq<Entry>,
                                       maxOrder: nat, calls: nat)
    requires |grants| == |es| && Largest(alloc, grants, es, g.order, g.call + 1)
    requires forall o :: o in ORDERS && g.order < o <= maxOrder && OrderLen(o) <= Total([e] + es) ==>
               Refused(alloc, calls, g.call, o)
    ensures Largest(alloc, [g] + grants, [e] + es, maxOrder, calls)
  {
    var gs, all := [g] + grants, [e] + es;
    forall i, o | 0 <= i < |all| && o in ORDERS && gs[i].order < o <= Ceiling(gs, maxOrder, i)
                  && OrderLen(o) <= Total(all[i..])
      ensures Refused(alloc, FirstCall(gs, calls, i), gs[i].call, o)
    {
      if i == 0 {
        assert all[0..] == all;
      } else {
        assert all[i..] == es[i - 1..];
        assert Ceiling(gs, maxOrder, i) == Ceiling(grants, g.order, i - 1);
        assert FirstCall(gs, calls, i) == FirstCall(grants, g.call + 1, i - 1);
      }
    }
  }

  /** The first chunk, and the call that gave it. */
  lemma {:induction false} FirstGrant(alloc: Oracle, size: nat, maxOrder: nat, calls: nat) returns (g: Grant, e: Entry)
    requires size > 0 && maxOrder in ORDERS && Allocate(alloc, size, maxOrder, calls).Some?
    ensures e.len == OrderLen(g.order) <= size && g.order in ORDERS && calls <= g.call
    ensures alloc(g.call, g.order) == Some(e.addr)
    ensures Allocate(alloc, size, maxOrder, calls) == Prepend([e], Allocate(alloc, size - e.len, g.order, g.call + 1))
    ensures forall o :: o in ORDERS && g.order < o <= maxOrder && OrderLen(o) <= size ==>
              Refused(alloc, calls, g.call, o)
  {
    var a := TryOrders(alloc, size, maxOrder, 0, calls);
    TryOrdersFits(alloc, size, maxOrder, 0, calls);
    AllocateNext(alloc, size, maxOrder, calls);
    g, e := Grant(a.calls - 1, a.order), Entry(a.addr, OrderLen(a.order));
    forall o | o in ORDERS && g.order < o <= maxOrder && OrderLen(o) <= size
      ensures Refused(alloc, calls, g.call, o)
    {
      assert ORDERS[0..] == ORDERS;
      TryOrdersLargest(alloc, size, maxOrder, 0, calls, o);
    }
  }

  /** The chunks are the ones that alloc_pages gave, each call's once, and each as large as it could be. */
  lemma {:induction false} AllocateGrants(alloc: Oracle, size: nat, maxOrder: nat, calls: nat)
    returns (grants: seq<Grant>)
    requires maxOrder in ORDERS && Allocate(alloc, size, maxOrder, calls).Some?
    ensures GrantedBy(alloc, grants, Allocate(alloc, size, maxOrder, calls).value, calls)
    ensures Largest(alloc, grants, Allocate(alloc, size, maxOrder, calls).value, maxOrder, calls)
    decreases size
  {
    if size == 0 {
      grants := [];
    } else {
      var g, e := FirstGrant(alloc, size, maxOrder, calls);
      var rest := Allocate(alloc, size - e.len, g.order, g.call + 1).value;
      AllocateSound(alloc, size, maxOrder, calls);
      var others := AllocateGrants(alloc, size - e.len, g.order, g.call + 1);
      GrantCons(alloc, g, e, others, rest, calls);
      LargestCons(alloc, g, e, others, rest, maxOrder, calls);
      grants := [g] + others;
    }
  }

  /** alloc_pages never gives a byte of memory to two of its calls. */
  ghost predicate GivesOnce(alloc: Oracle) {
    forall k, o, k', o' :: k < k' && alloc(k, o).Some? && alloc(k', o').Some? ==>
      Apart(Entry(alloc(k, o).value, OrderLen(o)), Entry(alloc(k', o').value, OrderLen(o')))
  }

  lemma {:induction false} GrantsDisjoint(alloc: Oracle, grants: seq<Grant>, es: seq<Entry>, calls: nat)
    requires GivesOnce(alloc) && GrantedBy(alloc, grants, es, calls)
    ensures Disjoint(es)
  {
    forall i, j | 0 <= i < j < |es|
      ensures Apart(es[i], es[j])
    {
      assert alloc(grants[i].call, grants[i].order).Some? && alloc(grants[j].call, grants[j].order).Some?;
    }
  }

  /** The chunks are answers of alloc_pages to calls for their orders, one call each, in the order of the calls, and
      each as large as it could be. */
  ghost predicate Granted(alloc: Oracle, es: seq<Entry>) {
    exists grants: seq<Grant> :: GrantedBy(alloc, grants, es, 0) && Largest(alloc, grants, es, 8, 0)
  }

  /** portalmem_dmabuffer_create. */
  method DmabufferCreate(alloc: Oracle, len: nat, tableOk: bool) returns (r: Option<seq<Entry>>)
    requires len < 0x1_0000_0000_0000_0000
    ensures r == Created(alloc, len, tableOk)
    ensures r.Some? ==> Granted(alloc, r.value) && Sound(r.value, RoundUp64(len), SIZE_1M)
    ensures r.Some? && GivesOnce(alloc) ==> Disjoint(r.value)
  {
    r := AllocateChunks(alloc, len, tableOk);
    if r.Some? {
      ghost var grants := AllocateGrants(alloc, RoundUp64(len), 8, 0);
      AllocateSound(alloc, RoundUp64(len), 8, 0);
      if GivesOnce(alloc) {
        GrantsDisjoint(alloc, grants, r.value, 0);
      }
    }
  }

  /** If alloc_pages gives no page twice, the chunks of a created buffer are disjoint. */
  lemma {:induction false} CreatedDisjoint(alloc: Oracle, len: nat, tableOk: bool)
    requires GivesOnce(alloc) && Created(alloc, len, tableOk).Some?
    ensures Disjoint(Created(alloc, len, tableOk).value)
  {
    var grants := AllocateGrants(alloc, RoundUp64(len), 8, 0);
    GrantsDisjoint(alloc, grants, Created(alloc, len, tableOk).value, 0);
  }

  /** It fails only when alloc_pages refuses a single page, whatever it answers for the larger orders. */
  lemma {:induction false} AllocateFails(alloc: Oracle, size: nat, maxOrder: nat, calls: nat) returns (k: nat)
    requires size % SIZE_4K == 0
    requires Allocate(alloc, size, maxOrder, calls).None?
    ensures calls <= k && alloc(k, 0) == None
    decreases size
  {
    var a := TryOrders(alloc, size, maxOrder, 0, calls);
    TryOrdersFits(alloc, size, maxOrder, 0, calls);
    if a.Nothing? {
      k := a.calls - 1;
    } else {
      k := AllocateFails(alloc, size - OrderLen(a.order), a.order, a.calls);
    }
  }

  /** For every request and every pattern of failures: a buffer is created only with chunks of the three
      sizes, largest first, that add up to the page-rounded length; a request of 1 to 2^63 - 4096
      bytes is refused only if the table or some single page could not be allocated, and any other always. */
  lemma {:induction false} CreatedBuffer(alloc: Oracle, len: nat, tableOk: bool)
    requires len < 0x1_0000_0000_0000_0000
    ensures Created(alloc, len, tableOk).Some? ==>
              var es := Created(alloc, len, tableOk).value;
              && AllSupported(es) && NonIncreasing(es) && es != []
              && len <= Total(es) < len + 4096 && Total(es) % 4096 == 0
    ensures tableOk && 1 <= len <= 0x7fff_ffff_ffff_f000 && (forall k :: alloc(k, 0).Some?) ==>
              Created(alloc, len, tableOk).Some?
    ensures !tableOk || len == 0 || len > 0x7fff_ffff_ffff_f000 ==> Created(alloc, len, tableOk).None?
  {
    var size := RoundUp64(len);
    if Created(alloc, len, tableOk).Some? {
      AllocateSound(alloc, size, 8, 0);
    }
    if 0 < size < 0x8000_0000_0000_0000 && Allocate(alloc, size, 8, 0).None? {
      var k := AllocateFails(alloc, size, 8, 0);
    }
  }

  predicate CountsGreedy(es: seq<Entry>, size: nat) {
    && Count(es, SIZE_1M) == Greedy(size).0
    && Count(es, SIZE_64K) == Greedy(size).1
    && Count(es, SIZE_4K) == Greedy(size).2
  }

  lemma {:induction false} NoFailureCounts(alloc: Oracle, size: nat, maxOrder: nat, calls: nat)
    requires forall k, order :: alloc(k, order).Some?
    requires maxOrder in ORDERS && size % SIZE_4K == 0
    requires maxOrder <= 4 ==> size < SIZE_1M
    requires maxOrder == 0 ==> size < SIZE_64K
    ensures Allocate(alloc, size, maxOrder, calls).Some?
    ensures CountsGreedy(Allocate(alloc, size, maxOrder, calls).value, size)
    decreases size
  {
    if size > 0 {
      var a := TryOrders(alloc, size, maxOrder, 0, calls);
      NoFailureFinds(alloc, size, maxOrder, calls);
      var e := Entry(a.addr, OrderLen(a.order));
      NoFailureCounts(alloc, size - e.len, a.order, a.calls);
      CountGreedy(e, Allocate(alloc, size - e.len, a.order, a.calls).value, size);
    }
  }

  /** Without failures the numbers of chunks are the greedy ones: fewer than 16 of each smaller size. */
  lemma {:induction false} NoFailureGreedy(alloc: Oracle, size: nat)
    requires forall k, order :: alloc(k, order).Some?
    requires size % SIZE_4K == 0
    ensures Allocate(alloc, size, 8, 0).Some?
    ensures var es := Allocate(alloc, size, 8, 0).value;
            && Count(es, SIZE_1M) == size / SIZE_1M
            && Count(es, SIZE_64K) == size % SIZE_1M / SIZE_64K < 16
            && Count(es, SIZE_4K) == size % SIZE_64K / SIZE_4K < 16
  {
    NoFailureCounts(alloc, size, 8, 0);
  }

  lemma {:induction false} CountGreedy(e: Entry, rest: seq<Entry>, size: nat)
    requires size > 0 && size % SIZE_4K == 0
    requires e.len == if size >= SIZE_1M then SIZE_1M else if size >= SIZE_64K then SIZE_64K else SIZE_4K
    requires CountsGreedy(rest, size - e.len)
    ensures CountsGreedy([e] + rest, size)
  {
    CountCons(e, rest, SIZE_1M);
    CountCons(e, rest, SIZE_64K);
    CountCons(e, rest, SIZE_4K);
    GreedyStep(size, e.len);
  }

  /** The numbers of chunks of each size that a size calls for. */
  function Greedy(size: nat): (nat, nat, nat) {
    (size / SIZE_1M, size % SIZE_1M / SIZE_64K, size % SIZE_64K / SIZE_4K)
  }

  lemma {:induction false} GreedyStep(size: nat, len: nat)
    requires size > 0 && size % SIZE_4K == 0
    requires len == if size >= SIZE_1M then SIZE_1M else if size >= SIZE_64K then SIZE_64K else SIZE_4K
    ensures len <= size && Greedy(size).0 == (if len == SIZE_1M then 1 else 0) + Greedy(size - len).0
    ensures Greedy(size).1 == (if len == SIZE_64K then 1 else 0) + Greedy(size - len).1
    ensures Greedy(size).2 == (if len == SIZE_4K then 1 else 0) + Greedy(size - len).2
  {
    if len == SIZE_1M {
      assert (size - len) % SIZE_64K == size % SIZE_64K;
    } else if len == SIZE_64K {
      assert (size - len) % SIZE_64K == size % SIZE_64K;
    } else {
      assert size % SIZE_64K == size;
    }
  }

  lemma {:induction false} NoFailureFinds(alloc: Oracle, size: nat, maxOrder: nat, calls: nat)
    requires forall order :: alloc(calls, order).Some?
    requires maxOrder in ORDERS && size % SIZE_4K == 0 && size > 0
    requires maxOrder <= 4 ==> size < SIZE_1M
    requires maxOrder == 0 ==> size < SIZE_64K
    ensures var a := TryOrders(alloc, size, maxOrder, 0, calls);
            a.Found? && a.order == if size >= SIZE_1M then 8 else if size >= SIZE_64K then 4 else 0
  {
    assert TryOrders(alloc, size, maxOrder, 2, calls).Found?;
    assert size < SIZE_1M ==> TryOrders(alloc, size, maxOrder, 1, calls).Found?;
  }

  lemma {:induction false} CountCons(e: Entry, rest: seq<Entry>, len: nat)
    ensures Count([e] + rest, len) == (if e.len == len then 1 else 0) + Count(rest, len)
    decreases |rest|
  {
    if rest == [] {
      assert [e] + rest == [e] && [e][..0] == [];
    } else {
      assert ([e] + rest)[..|rest|] == [e] + rest[..|rest| - 1];
      CountCons(e, rest[..|rest| - 1], len);
    }
  }
}
