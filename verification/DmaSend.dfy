/**
 Giving a DMA buffer to the hardware: send_fd_to_portal (cpp/dmaSendFd.h) turns the scatter list into
 page-table messages, three borders and three 8-bit index offsets; the MMU (bsv/MMU.bsv) translates
 buffer offsets with them.
 */
module DmaSend {
  import opened Integers
  import opened Options
  import opened ScatterList

  /** MMURequest.sglist. */
  datatype Sglist = Sglist(id: nat, index: nat, addr: nat, len: nat)

  /** MMURequest.region: border and index offset of the 1M, 64K and 4K chunks. */
  datatype Region = Region(b8: nat, i8: nat, b4: nat, i4: nat, b0: nat, i0: nat)

  /** The address as sent: in units of the chunk's own length, or unchanged for an unknown length. */
  function SentAddr(e: Entry): nat {
    if Supported(e.len) then PageNumber(e.addr, e.len) else e.addr
  }

  function Entries(es: seq<Entry>, id: nat): seq<Sglist> {
    seq(|es|, i requires 0 <= i < |es| => Sglist(id, i, SentAddr(es[i]), es[i].len))
  }

  /** The messages for a list: its entries and the end mark. */
  function Messages(es: seq<Entry>, id: nat): seq<Sglist> {
    Entries(es, id) + [Sglist(id, |es|, 0, 0)]
  }

  /** From a page number of a class to a list index: `entries` come before, and `border` page numbers. */
  function IndexOffset(entries: int, border: int): nat {
    (entries - border) % 256
  }

  /** Borders count chunks in units of each class; index offsets turn such a count into a list index. */
  function RegionOf(n8: nat, n4: nat, n0: nat): Region {
    Region(n8, IndexOffset(0, 0),
           n8 * 16 + n4, IndexOffset(n8, n8 * 16),
           (n8 * 16 + n4) * 16 + n0, IndexOffset(n8 + n4, (n8 * 16 + n4) * 16))
  }

  /** `x << n` on a uint64_t. */
  function ShiftLeft64(x: nat, n: nat): nat {
    x * (if n == 4 then 16 else if n == 12 then 4096 else 1) % 0x1_0000_0000_0000_0000
  }

  lemma {:induction false} ShiftLeft64Exact(x: nat)
    requires x < 0x1_0000_0000_0000
    ensures ShiftLeft64(x, 4) == x * 16
  {
  }

  lemma {:induction false} CharAdd(x: nat, y: nat)
    ensures (x % 256 + y) % 256 == (x + y) % 256
  {
  }

  lemma {:induction false} CharSub(x: nat, y: nat)
    ensures IndexOffset(x % 256, y) == IndexOffset(x, y)
  {
  }

  /** One turn of the last loop of send_fd_to_portal: `entryCount` and `idxOffset` are unsigned chars, and
      `border` is a uint64_t. */
  method RegionTurn(entryCount: nat, border: nat, region: nat, ghost entries: nat)
    returns (idxOffset: nat, entryCount': nat, borderVal: nat)
    requires border + region < 0x1_0000_0000_0000 && entryCount == entries % 256
    ensures idxOffset == IndexOffset(entries, border)
    ensures entryCount' == (entries + region) % 256 && borderVal == border + region
  {
    CharSub(entries, border);
    CharAdd(entries, region);
    idxOffset := (entryCount as int - border) % 256;
    entryCount' := (entryCount + region) % 256;
    borderVal := (border + region) % 0x1_0000_0000_0000_0000;
  }

  /** The last loop of send_fd_to_portal; `regions` are its three counters. */
  method ComputeRegion(regions: seq<nat>) returns (r: Region)
    requires |regions| == 3 && forall k :: 0 <= k < 3 ==> regions[k] < 0x1_0000_0000
    ensures r == RegionOf(regions[0], regions[1], regions[2])
  {
    var shifts := [20, 16, 12, 0];
    var borderVal: seq<nat>, indexVal: seq<nat> := [], [];
    var border: nat, entryCount: nat := 0, 0;
    ghost var entries := [0, regions[0], regions[0] + regions[1], regions[0] + regions[1] + regions[2]];
    ghost var borders := [0, regions[0] * 16, (regions[0] * 16 + regions[1]) * 16];
    for i := 0 to 3
      invariant |borderVal| == |indexVal| == i
      invariant entryCount == entries[i] % 256
      invariant i < 3 ==> border == borders[i]
      invariant forall k :: 0 <= k < i ==>
                borderVal[k] == borders[k] + regions[k] && indexVal[k] == IndexOffset(entries[k], borders[k])
    {
      var idx, count, b := RegionTurn(entryCount, border, regions[i], entries[i]);
      entryCount := count;
      borderVal, indexVal := borderVal + [b], indexVal + [idx];
      ShiftLeft64Exact(b);
      border := ShiftLeft64(b, shifts[i] - shifts[i + 1]);
    }
    r := Region(borderVal[0], indexVal[0], borderVal[1], indexVal[1], borderVal[2], indexVal[2]);
  }

  /** The class loop for one entry: which counter it bumps. */
  function ClassIndex(len: nat): nat {
    if len == SIZE_1M then 0 else if len == SIZE_64K then 1 else if len == SIZE_4K then 2 else 3
  }

  /** What send_fd_to_portal registers for a list. */
  function SentRegion(es: seq<Entry>): Region {
    RegionOf(Count(es, SIZE_1M), Count(es, SIZE_64K), Count(es, SIZE_4K))
  }

  /** send_fd_to_portal, on a list whose addresses are known. */
  method SendFdToPortal(es: seq<Entry>, id: nat) returns (msgs: seq<Sglist>, region: Region)
    requires |es| < 0x1_0000_0000
    ensures msgs == Messages(es, id) && region == SentRegion(es)
  {
    var sizes := [SIZE_1M, SIZE_64K, SIZE_4K];
    var regions := new nat[3](_ => 0);
    msgs := [];
    assert es[..0] == [];
    for i := 0 to |es|
      invariant msgs == Entries(es, id)[..i]
      invariant regions[0] == Count(es[..i], SIZE_1M) <= i
      invariant regions[1] == Count(es[..i], SIZE_64K) <= i
      invariant regions[2] == Count(es[..i], SIZE_4K) <= i
    {
      assert es[..i + 1][..i] == es[..i];
      var addr, len := es[i].addr, es[i].len;
      var j := ClassIndex(len);
      if j < 3 {
        regions[j] := regions[j] + 1;
        addr := PageNumber(addr, sizes[j]);
      }
      msgs := msgs + [Sglist(id, i, addr, len)];
    }
    assert es[..|es|] == es;
    msgs := msgs + [Sglist(id, |es|, 0, 0)];
    region := ComputeRegion(regions[..]);
  }

  // ----- The MMU's lookup -----

  /** Offsets are 44 bits wide. */
  const OFFSETS := 0x1000_0000_0000

  /** The region as the MMU stores and compares it: borders cut to the width of a page number of their
      class, index offsets to 8 bits. */
  function Stored(r: Region): Region {
    Region(r.b8 % 0x100_0000, r.i8 % 256, r.b4 % 0x1000_0000, r.i4 % 256, r.b0 % 0x1_0000_0000, r.i0 % 256)
  }

  /** Rules stage2 to stage4 on the page numbers of an offset: the class (0 for 1M, 1 for 64K, 2 for 4K) and
      the 8-bit table index. */
  function Choose(r: Region, off8: nat, off4: nat, off0: nat): Option<(nat, nat)> {
    if off8 < r.b8 then Some((0, (off8 + r.i8) % 256))
    else if off4 < r.b4 then Some((1, (off4 + r.i4) % 256))
    else if off0 < r.b0 then Some((2, (off0 + r.i0) % 256))
    else None
  }

  function Lookup(r: Region, off: nat): Option<(nat, nat)>
    requires off < OFFSETS
  {
    Choose(Stored(r), off / SIZE_1M, off / SIZE_64K, off / SIZE_4K)
  }

  lemma {:induction false} StoredExact(n8: nat, n4: nat, n0: nat)
    requires n8 * SIZE_1M + n4 * SIZE_64K + n0 * SIZE_4K < OFFSETS
    ensures Stored(RegionOf(n8, n4, n0)) == RegionOf(n8, n4, n0)
  {
    var r := RegionOf(n8, n4, n0);
    assert r.b8 < 0x100_0000 && r.b4 < 0x1000_0000 && r.b0 < 0x1_0000_0000;
  }

  lemma {:induction false} ModAdd(x: int, y: int)
    ensures (x + y % 256) % 256 == (x + y) % 256
  {
  }

  /** The page numbers of byte `o` of the `k`-th 4K page of a buffer. */
  lemma {:induction false} PageNumbers(k: nat, o: nat)
    requires o < SIZE_4K
    ensures (k * SIZE_4K + o) / SIZE_4K == k
    ensures (k * SIZE_4K + o) / SIZE_64K == k / 16
    ensures (k * SIZE_4K + o) / SIZE_1M == k / 256
  {
  }

  lemma {:induction false} Choose1M(n8: nat, n4: nat, n0: nat, off8: nat, off4: nat, off0: nat)
    requires off8 < n8
    ensures Choose(RegionOf(n8, n4, n0), off8, off4, off0) == Some((0, off8 % 256))
  {
  }

  lemma {:induction false} Choose64K(n8: nat, n4: nat, n0: nat, k: nat, off8: nat, off4: nat, off0: nat)
    requires off8 >= n8 && k < n4 && off4 == n8 * 16 + k
    ensures Choose(RegionOf(n8, n4, n0), off8, off4, off0) == Some((1, (n8 + k) % 256))
  {
    ModAdd(off4, n8 - n8 * 16);
  }

  lemma {:induction false} Choose4K(n8: nat, n4: nat, n0: nat, k: nat, off8: nat, off4: nat, off0: nat)
    requires off8 >= n8 && off4 >= n8 * 16 + n4 && k < n0 && off0 == (n8 * 16 + n4) * 16 + k
    ensures Choose(RegionOf(n8, n4, n0), off8, off4, off0) == Some((2, (n8 + n4 + k) % 256))
  {
    ModAdd(off0, n8 + n4 - (n8 * 16 + n4) * 16);
  }

  /** The lookup's answer for byte `o` of chunk `i`: the right class, and the index modulo 256. */
  lemma {:induction false} ChooseOf(n8: nat, n4: nat, n0: nat, i: nat, o: nat, off: nat)
    requires i < n8 + n4 + n0
    requires i < n8 ==> o < SIZE_1M && off == i * SIZE_1M + o
    requires n8 <= i < n8 + n4 ==> o < SIZE_64K && off == n8 * SIZE_1M + (i - n8) * SIZE_64K + o
    requires n8 + n4 <= i ==> o < SIZE_4K && off == n8 * SIZE_1M + n4 * SIZE_64K + (i - n8 - n4) * SIZE_4K + o
    ensures Choose(RegionOf(n8, n4, n0), off / SIZE_1M, off / SIZE_64K, off / SIZE_4K)
            == Some((if i < n8 then 0 else if i < n8 + n4 then 1 else 2, i % 256))
  {
    if i < n8 {
      assert off / SIZE_1M == i;
      Choose1M(n8, n4, n0, i, off / SIZE_64K, off / SIZE_4K);
    } else if i < n8 + n4 {
      assert off / SIZE_64K == n8 * 16 + (i - n8) && off / SIZE_1M >= n8;
      Choose64K(n8, n4, n0, i - n8, off / SIZE_1M, off / SIZE_64K, off / SIZE_4K);
    } else {
      PageNumbers((n8 * 16 + n4) * 16 + (i - n8 - n4), o);
      Choose4K(n8, n4, n0, i - n8 - n4, off / SIZE_1M, off / SIZE_64K, off / SIZE_4K);
    }
  }

  /** A non-increasing list of supported chunks, as the allocator builds, within the MMU's offsets. */
  predicate Sendable(es: seq<Entry>) {
    AllSupported(es) && NonIncreasing(es) && Total(es) < OFFSETS
  }

  /** The last border counts the pages of the buffer. */
  lemma {:induction false} LastBorder(es: seq<Entry>)
    requires AllSupported(es) && NonIncreasing(es)
    ensures Total(es) == SentRegion(es).b0 * SIZE_4K
  {
    NonIncreasingClasses(es);
    ClassTotals(es, Count(es, SIZE_1M), Count(es, SIZE_64K), Count(es, SIZE_4K), |es|);
    assert es[..|es|] == es;
  }

  lemma {:induction false} SentRegionStored(es: seq<Entry>)
    requires Sendable(es)
    ensures Stored(SentRegion(es)) == SentRegion(es)
  {
    LastBorder(es);
    StoredExact(Count(es, SIZE_1M), Count(es, SIZE_64K), Count(es, SIZE_4K));
  }

  lemma {:induction false} LookupOf(es: seq<Entry>, i: nat, o: nat)
    requires Sendable(es) && i < |es| && o < es[i].len && Total(es[..i]) + o < OFFSETS
    ensures Lookup(SentRegion(es), Total(es[..i]) + o) == Some((ClassIndex(es[i].len), i % 256))
  {
    NonIncreasingClasses(es);
    var n8, n4, n0 := Count(es, SIZE_1M), Count(es, SIZE_64K), Count(es, SIZE_4K);
    ClassTotals(es, n8, n4, n0, i);
    SentRegionStored(es);
    ChooseOf(n8, n4, n0, i, o, Total(es[..i]) + o);
  }

  /** The lookup finds the entry that the linear walk finds, and the same offset in it. */
  predicate Agrees(es: seq<Entry>, r: Region, off: nat)
    requires off < Total(es) && off < OFFSETS
  {
    var (i, o) := Walk(es, 0, off);
    Lookup(r, off) == Some((ClassIndex(es[i].len), i)) && InPage(off, es[i].len) == o
  }

  lemma {:induction false} AgreesBelow256(es: seq<Entry>, off: nat)
    requires Sendable(es) && off < Total(es)
    ensures Agrees(es, SentRegion(es), off) <==> Walk(es, 0, off).0 < 256
  {
    var i, o := Located(es, off);
    LookupOf(es, i, o);
    StartsAligned(es, i);
    OffsetInChunk(Total(es[..i]), o, es[i].len);
  }

  lemma {:induction false} OffsetInChunk(start: nat, o: nat, len: nat)
    requires Supported(len) && InPage(start, len) == 0 && o < len
    ensures InPage(start + o, len) == o
  {
  }

  /** The border lookup gives the entry of the linear walk for every offset of the buffer, despite 8-bit
      wrap-around, exactly when the list has at most 256 entries. */
  lemma {:induction false} LookupAgreesIff(es: seq<Entry>)
    requires Sendable(es)
    ensures (forall off :: 0 <= off < Total(es) ==> Agrees(es, SentRegion(es), off)) <==> |es| <= 256
  {
    forall off | 0 <= off < Total(es)
      ensures |es| <= 256 ==> Agrees(es, SentRegion(es), off)
    {
      AgreesBelow256(es, off);
    }
    if |es| > 256 {
      var off := Total(es[..256]);
      PhysAddrAt(es, off, 256, 0);
      AgreesBelow256(es, off);
    }
  }

  lemma {:induction false} ChooseNothing(n8: nat, n4: nat, n0: nat, off: nat)
    requires off >= n8 * SIZE_1M + n4 * SIZE_64K + n0 * SIZE_4K
    ensures Choose(RegionOf(n8, n4, n0), off / SIZE_1M, off / SIZE_64K, off / SIZE_4K) == None
  {
    assert off / SIZE_4K >= (n8 * 16 + n4) * 16 + n0;
    assert off / SIZE_64K >= n8 * 16 + n4;
    assert off / SIZE_1M >= n8;
  }

  /** Past the end of the buffer the lookup reports an error. */
  lemma {:induction false} LookupOutside(es: seq<Entry>, off: nat)
    requires Sendable(es) && Total(es) <= off < OFFSETS
    ensures Lookup(SentRegion(es), off) == None
  {
    SentRegionStored(es);
    NonIncreasingClasses(es);
    var n8, n4, n0 := Count(es, SIZE_1M), Count(es, SIZE_64K), Count(es, SIZE_4K);
    ClassTotals(es, n8, n4, n0, |es|);
    assert es[..|es|] == es;
    ChooseNothing(n8, n4, n0, off);
  }

  // ----- Address translation -----

  type PageTable = p: seq<nat> | |p| == 256 witness seq(256, _ => 0)

  /** Method sglist of the MMU: the entry goes to the slot of its index modulo 256. */
  function Store(pages: PageTable, m: Sglist): PageTable {
    pages[m.index % 256 := m.addr % 0x1_0000_0000]
  }

  function StoreAll(pages: PageTable, msgs: seq<Sglist>): PageTable {
    if msgs == [] then pages else Store(StoreAll(pages, msgs[..|msgs| - 1]), msgs[|msgs| - 1])
  }

  /** Rule stage5: the page number from the table, cut to its class, and the low bits of the offset. */
  function Compose(cls: nat, page: nat, off: nat): nat {
    if cls == 0 then page % 0x100_0000 * SIZE_1M + off % SIZE_1M
    else if cls == 1 then page % 0x1000_0000 * SIZE_64K + off % SIZE_64K
    else page * SIZE_4K + off % SIZE_4K
  }

  /** The number of physical addresses of `width` bits. */
  function Space(width: nat): (n: nat)
    ensures n >= 1
  {
    if width == 0 then 1 else 2 * Space(width - 1)
  }

  /** What the MMU of a system with physical addresses of `width` bits answers: stage5 ends by cutting the address to
      that width. */
  function Translate(width: nat, pages: PageTable, r: Region, off: nat): Option<nat>
    requires off < OFFSETS
  {
    match Lookup(r, off)
    case None => None
    case Some((cls, idx)) => Some(Compose(cls, if idx < 256 then pages[idx] else 0, off) % Space(width))
  }

  lemma {:induction false} SpaceMonotone(width: nat, width': nat)
    requires width <= width'
    ensures Space(width) <= Space(width')
    decreases width'
  {
    if width < width' {
      SpaceMonotone(width, width' - 1);
    }
  }

  lemma {:induction false} SpaceSum(width: nat, width': nat)
    ensures Space(width + width') == Space(width) * Space(width')
    decreases width
  {
    if width > 0 {
      SpaceSum(width - 1, width');
      assert Space(width + width') == 2 * Space(width - 1 + width');
    }
  }

  /** No system has more physical addresses than the MMU has offsets. */
  lemma {:induction false} SpaceWithinOffsets(width: nat)
    requires width <= 44
    ensures Space(width) <= OFFSETS
  {
    SpaceMonotone(width, 44);
    assert Space(11) == 0x800;
    SpaceSum(11, 11);
    SpaceSum(22, 22);
  }

  lemma {:induction false} CutTo(x: nat, n: nat)
    requires n > 0
    ensures x % n < n && (x < n ==> x % n == x)
  {
  }

  lemma {:induction false} CutSum(x: nat, o: nat, n: nat)
    requires n > 0 && x % n + o < n
    ensures (x + o) % n == x % n + o
  {
    var d := (x + o) / n - x / n;
    assert x == n * (x / n) + x % n && x + o == n * ((x + o) / n) + (x + o) % n;
    assert n * d == n * ((x + o) / n) - n * (x / n);
    MultipleNotSmall(d, n);
  }

  lemma {:induction false} MultipleNotSmall(d: int, n: nat)
    ensures d >= 1 ==> n * d >= n
    ensures d <= -1 ==> n * d <= 0 - n
  {
  }

  lemma {:induction false} TranslateFound(width: nat, pages: PageTable, r: Region, off: nat, cls: nat, idx: nat,
                                          page: nat)
    requires off < OFFSETS && Lookup(r, off) == Some((cls, idx)) && idx < 256 && pages[idx] == page
    ensures Translate(width, pages, r, off) == Some(Compose(cls, page, off) % Space(width))
  {
  }

  /** A page number and an offset put together. */
  lemma {:induction false} ComposeSplit(len: nat, page: nat, off: nat)
    requires Supported(len)
    ensures Compose(ClassIndex(len), page, off) == Compose(ClassIndex(len), page, 0) + InPage(off, len)
  {
  }

  /** The index of the last of the first `n` messages that goes to the slot of message `i`. */
  function LastIndex(n: nat, i: nat): (j: nat)
    requires i < n
    ensures i <= j < n && j % 256 == i % 256
  {
    if (n - 1) % 256 == i % 256 then n - 1 else LastIndex(n - 1, i)
  }

  /** Up to 257 messages only the last one, if it is the 257th, shares a slot. */
  lemma {:induction false} LastIndexShort(n: nat, i: nat)
    requires i < n <= 257
    ensures LastIndex(n, i) == if n == 257 && i == 0 then 256 else i
    decreases n
  {
    if i < n - 1 && !(n == 257 && i == 0) {
      LastIndexShort(n - 1, i);
    }
  }

  lemma {:induction false} StoreLast(pages: PageTable, msgs: seq<Sglist>, slot: nat)
    requires msgs != [] && slot < 256
    ensures var n := |msgs| - 1;
            StoreAll(pages, msgs)[slot]
            == if msgs[n].index % 256 == slot then msgs[n].addr % 0x1_0000_0000 else StoreAll(pages, msgs[..n])[slot]
  {
  }

  lemma {:induction false} SlotsHold(pages: PageTable, es: seq<Entry>, id: nat, n: nat, i: nat)
    requires AllSupported(es) && i < n <= |es|
    ensures var e := es[LastIndex(n, i)];
            StoreAll(pages, Entries(es, id)[..n])[i % 256] == PageNumber(e.addr, e.len) % 0x1_0000_0000
    decreases n
  {
    var msgs := Entries(es, id)[..n];
    assert msgs[..n - 1] == Entries(es, id)[..n - 1];
    StoreLast(pages, msgs, i % 256);
    if (n - 1) % 256 != i % 256 {
      SlotsHold(pages, es, id, n - 1, i);
    }
  }

  /** The page number that the slot of chunk `i` ends up with: that of the last chunk sent to it, or zero if the end
      mark came last. */
  function SlotPage(es: seq<Entry>, i: nat): nat
    requires i < |es|
  {
    var j := LastIndex(|es| + 1, i);
    if j == |es| then 0 else PageNumber(es[j].addr, es[j].len) % 0x1_0000_0000
  }

  /** The table after all the messages. */
  lemma {:induction false} TableHolds(pages: PageTable, es: seq<Entry>, id: nat, i: nat)
    requires AllSupported(es) && i < |es|
    ensures StoreAll(pages, Messages(es, id))[i % 256] == SlotPage(es, i)
  {
    var msgs := Messages(es, id);
    assert msgs[..|es|] == Entries(es, id)[..|es|];
    StoreLast(pages, msgs, i % 256);
    SlotsHold(pages, es, id, |es|, i);
  }

  lemma {:induction false} FoundInTable(pages: PageTable, es: seq<Entry>, id: nat, i: nat, o: nat, off: nat)
    requires Sendable(es) && At(es, off, i, o) && off < OFFSETS
    ensures Lookup(SentRegion(es), off) == Some((ClassIndex(es[i].len), i % 256))
    ensures StoreAll(pages, Messages(es, id))[i % 256] == SlotPage(es, i)
  {
    assert off == Total(es[..i]) + o;
    LookupOf(es, i, o);
    TableHolds(pages, es, id, i);
  }

  /** Where the MMU takes the first byte of chunk `i`, before the cut to the width of an address. */
  function Base(es: seq<Entry>, i: nat): nat
    requires i < |es|
  {
    Compose(ClassIndex(es[i].len), SlotPage(es, i), 0)
  }

  lemma {:induction false} TranslateOf(width: nat, pages: PageTable, es: seq<Entry>, id: nat, i: nat, o: nat, off: nat)
    requires Sendable(es) && At(es, off, i, o) && off < OFFSETS
    ensures Translate(width, StoreAll(pages, Messages(es, id)), SentRegion(es), off)
            == Some((Base(es, i) + o) % Space(width))
  {
    FoundInTable(pages, es, id, i, o, off);
    var table := StoreAll(pages, Messages(es, id));
    TranslateFound(width, table, SentRegion(es), off, ClassIndex(es[i].len), i % 256, SlotPage(es, i));
    StartsAligned(es, i);
    OffsetInChunk(Total(es[..i]), o, es[i].len);
    ComposeSplit(es[i].len, SlotPage(es, i), off);
  }

  /** The MMU takes offset `off` to the byte of the linear walk. */
  predicate Translates(width: nat, pages: PageTable, es: seq<Entry>, id: nat, off: nat)
    requires off < Total(es) && off < OFFSETS
  {
    Translate(width, StoreAll(pages, Messages(es, id)), SentRegion(es), off) == Some(PhysAddr(es, off))
  }

  /** The page number in the slot of chunk `i` gives the chunk's address, and the chunk lies inside the
      address space. */
  predicate Intact(es: seq<Entry>, width: nat, i: nat)
    requires i < |es|
  {
    Base(es, i) % Space(width) == es[i].addr && es[i].addr + es[i].len <= Space(width)
  }

  lemma {:induction false} IntactTranslates(width: nat, pages: PageTable, es: seq<Entry>, id: nat, off: nat, i: nat,
                                            o: nat)
    requires Sendable(es) && At(es, off, i, o) && off < Total(es) && Intact(es, width, i)
    ensures Translates(width, pages, es, id, off)
  {
    PhysAddrAt(es, off, i, o);
    TranslateOf(width, pages, es, id, i, o, off);
    CutSum(Base(es, i), o, Space(width));
  }

  /** The first byte of a chunk whose slot does not give its address, or the last byte of one that ends beyond the
      address space, is not reached. */
  lemma {:induction false} NotIntactFails(width: nat, pages: PageTable, es: seq<Entry>, id: nat, i: nat)
    requires Sendable(es) && i < |es| && !Intact(es, width, i)
    ensures exists off :: 0 <= off < Total(es) && !Translates(width, pages, es, id, off)
  {
    var o := if Base(es, i) % Space(width) != es[i].addr then 0 else es[i].len - 1;
    var off := Total(es[..i]) + o;
    PhysAddrAt(es, off, i, o);
    TranslateOf(width, pages, es, id, i, o, off);
    CutTo(Base(es, i) + o, Space(width));
    assert !Translates(width, pages, es, id, off);
  }

  /** For every list and every width of physical addresses: the MMU takes every offset to the byte of the linear walk
      exactly when every chunk lies inside the address space and the slot it shares with every 256th other one, and with
      the end mark, gives its address. */
  lemma {:induction false} TranslationExact(width: nat, pages: PageTable, es: seq<Entry>, id: nat)
    requires Sendable(es)
    ensures (forall off :: 0 <= off < Total(es) ==> Translates(width, pages, es, id, off))
            <==> forall i :: 0 <= i < |es| ==> Intact(es, width, i)
  {
    if i :| 0 <= i < |es| && !Intact(es, width, i) {
      NotIntactFails(width, pages, es, id, i);
    } else {
      forall off | 0 <= off < Total(es)
        ensures Translates(width, pages, es, id, off)
      {
        var i, o := Located(es, off);
        IntactTranslates(width, pages, es, id, off, i, o);
      }
    }
  }

  // ----- Lists that fit the table -----

  /** The chunk lies at a multiple of its length, inside the physical address space. */
  predicate Placed(e: Entry, width: nat) {
    InPage(e.addr, e.len) == 0 && e.addr + e.len <= Space(width)
  }

  /** The end mark leaves every entry its slot, or overwrites the first one with what it holds anyway. */
  predicate EndMarkHarmless(es: seq<Entry>)
    requires |es| <= 256
  {
    |es| <= 255 || es[0].addr == 0
  }

  /** The page number of a chunk below 2^44 gives the chunk's address, less what is not a multiple of its length. */
  lemma {:induction false} ComposeChunk(addr: nat, len: nat)
    requires Supported(len) && addr + len <= OFFSETS
    ensures Compose(ClassIndex(len), PageNumber(addr, len) % 0x1_0000_0000, 0) == addr - InPage(addr, len)
    ensures Compose(ClassIndex(len), 0, 0) == 0 && InPage(addr, len) <= addr
  {
  }

  lemma {:induction false} IntactIff(es: seq<Entry>, width: nat, i: nat)
    requires AllSupported(es) && i < |es| <= 256 && width <= 44
    ensures Intact(es, width, i) <==> Placed(es[i], width) && (|es| == 256 && i == 0 ==> es[0].addr == 0)
  {
    LastIndexShort(|es| + 1, i);
    if es[i].addr + es[i].len <= Space(width) {
      SpaceWithinOffsets(width);
      ComposeChunk(es[i].addr, es[i].len);
      CutTo(Base(es, i), Space(width));
    }
  }

  /** For every list that fits the table: every offset is translated right exactly when every chunk lies at a multiple
      of its length inside the address space, and there are at most 255 entries, so that the end mark does not
      overwrite slot 0, or the first chunk lies at address 0. */
  lemma {:induction false} TranslationWithinTable(width: nat, pages: PageTable, es: seq<Entry>, id: nat)
    requires Sendable(es) && |es| <= 256 && width <= 44
    ensures (forall off :: 0 <= off < Total(es) ==> Translates(width, pages, es, id, off))
            <==> EndMarkHarmless(es) && forall i :: 0 <= i < |es| ==> Placed(es[i], width)
  {
    TranslationExact(width, pages, es, id);
    forall i | 0 <= i < |es|
      ensures Intact(es, width, i) <==> Placed(es[i], width) && (|es| == 256 && i == 0 ==> es[0].addr == 0)
    {
      IntactIff(es, width, i);
    }
  }

  // ----- Simulation addresses -----

  /** Under simulation a chunk's address is what the int `size_accum` holds, with the buffer's id or-ed in above, as 64
      bits: the sign of a negative sum fills the upper half and leaves nothing of the id. */
  function SimAddr(accum: int, id: nat): nat
    requires -0x8000_0000 <= accum < 0x8000_0000
  {
    if accum >= 0 then accum + id * 0x1_0000_0000 else accum + 0x1_0000_0000_0000_0000
  }

  /** The loop over the chunks. */
  method SimAddrs(es: seq<Entry>, id: nat) returns (addrs: seq<nat>)
    ensures |addrs| == |es|
    ensures forall i :: 0 <= i < |es| ==> addrs[i] == SimAddr(ToInt32(Total(es[..i])), id)
  {
    var sizeAccum := 0;
    addrs := [];
    assert es[..0] == [];
    for i := 0 to |es|
      invariant |addrs| == i && sizeAccum == ToInt32(Total(es[..i]))
      invariant forall k :: 0 <= k < i ==> addrs[k] == SimAddr(ToInt32(Total(es[..k])), id)
    {
      addrs := addrs + [SimAddr(sizeAccum, id)];
      TotalPrefix(es, i);
      ToInt32Add(Total(es[..i]), es[i].len);
      sizeAccum := ToInt32(sizeAccum + es[i].len);
    }
  }

  lemma {:induction false} DropMultiples(x: nat, k: nat)
    ensures (x + k * SIZE_1M) % SIZE_1M == x % SIZE_1M
    ensures (x + k * SIZE_64K) % SIZE_64K == x % SIZE_64K
    ensures (x + k * SIZE_4K) % SIZE_4K == x % SIZE_4K
  {
  }

  /** Whether a number is a multiple of a chunk length is decided by its lower 32 bits. */
  lemma {:induction false} LowBitsDecide(x: nat, h: nat, len: nat)
    requires Supported(len)
    ensures InPage(x + h * 0x1_0000_0000, len) == InPage(x, len)
  {
    DropMultiples(x, h * 0x1000);
    DropMultiples(x, h * 0x1_0000);
    DropMultiples(x, h * 0x10_0000);
  }

  /** The sum that `size_accum` holds and the true one differ by a multiple of 2^32. */
  lemma {:induction false} SimAddrLowBits(sum: nat, id: nat, len: nat)
    requires Supported(len)
    ensures InPage(SimAddr(ToInt32(sum), id), len) == InPage(sum, len)
  {
    var low, h := sum % 0x1_0000_0000, sum / 0x1_0000_0000;
    ToInt32Wraps(sum);
    LowBitsDecide(low, h, len);
    if low < 0x8000_0000 {
      LowBitsDecide(low, id, len);
    } else {
      LowBitsDecide(low, 0xffff_ffff, len);
    }
  }

  /** The warning about misaligned addresses never shows, for any buffer: every simulated address is a multiple of its
      chunk's length, even where `size_accum` has overflowed. */
  lemma {:induction false} SimAddrAligned(es: seq<Entry>, id: nat, i: nat)
    requires AllSupported(es) && NonIncreasing(es) && i < |es|
    ensures InPage(SimAddr(ToInt32(Total(es[..i])), id), es[i].len) == 0
  {
    StartsAligned(es, i);
    SimAddrLowBits(Total(es[..i]), id, es[i].len);
  }

  /** The address is the chunk's place in the buffer below the id exactly for the chunks that start in the first
      2 GB. */
  lemma {:induction false} SimAddrExact(sum: nat, id: nat)
    requires id < 0x8000_0000 && sum < OFFSETS
    ensures SimAddr(ToInt32(sum), id) == sum + id * 0x1_0000_0000 <==> sum < 0x8000_0000
  {
    ToInt32Exact(sum);
  }
}
